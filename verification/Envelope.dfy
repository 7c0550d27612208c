/** The SNMPv3 message envelope (section 6 of RFC 3412, section 2.4 of RFC 3414). */
module Envelope {
  import opened Bytes
  import opened Ber
  import opened BerInteger

  const SNMPV3_VERSION: i32 := 3
  const MSG_USER_NAME_MAX_LENGTH := 32
  const MIN_MSG_MAX_SIZE := 484

  datatype Header = Header(msgId: i32, maxSize: i32, flags: byte, securityModel: i32)

  datatype Usm = Usm(
    engineId: bytes, engineBoots: i32, engineTime: i32,
    userName: bytes, authParams: bytes, privParams: bytes)

  datatype ScopedData =
    | Plaintext(contextEngineId: bytes, contextName: bytes, rawPdu: bytes)
    | Encrypted(ciphertext: bytes)

  datatype Message = Message(header: Header, usm: Usm, scoped: ScopedData, authOffset: Option<nat>)

  // ----- the grammar of a message -----

  function ParseHeader(s: bytes): (r: BerResult<(Header, bytes)>)
    ensures r.Ok? ==> Expect(s, TAG_SEQUENCE).Ok? && Expect(s, TAG_SEQUENCE).value.1 == r.value.1
    ensures r.Ok? ==> r.value.0.msgId >= 0 && r.value.0.maxSize >= MIN_MSG_MAX_SIZE
    ensures r.Err? ==> r.error == Malformed
  {
    var (h, rest) :- Expect(s, TAG_SEQUENCE);
    var (msgId, h1) :- ExpectInteger(h);
    if msgId < 0 then Err(Malformed) else
    var (maxSize, h2) :- ExpectInteger(h1);
    if maxSize < MIN_MSG_MAX_SIZE then Err(Malformed) else
    var (flags, h3) :- Expect(h2, TAG_OCTET_STRING);
    if |flags| != 1 then Err(Malformed) else
    var (model, _) :- ExpectInteger(h3);
    Ok((Header(msgId, maxSize, flags[0], model), rest))
  }

  /** The security parameters up to msgAuthenticationParameters, and where those start. */
  datatype UsmHead = UsmHead(
    engineId: bytes, engineBoots: i32, engineTime: i32,
    userName: bytes, authParams: bytes, afterAuth: bytes, authStart: nat)

  function ParseUsmFields(u: bytes): (r: BerResult<UsmHead>)
    ensures r.Err? ==> r.error == Malformed
    ensures r.Ok? ==> r.value.authStart + |r.value.authParams| <= |u|
  {
    var (engineId, u1) :- Expect(u, TAG_OCTET_STRING);
    var (boots, u2) :- ExpectInteger(u1);
    var (time, u3) :- ExpectInteger(u2);
    var (userName, u4) :- Expect(u3, TAG_OCTET_STRING);
    var (authParams, u5) :- Expect(u4, TAG_OCTET_STRING);
    Ok(UsmHead(engineId, boots, time, userName, authParams, u5, |u| - |u5| - |authParams|))
  }

  function ParseUsmHead(s: bytes): (r: BerResult<UsmHead>)
    ensures r.Err? ==> r.error == Malformed
    ensures r.Ok? ==> r.value.authStart + |r.value.authParams| <= |s|
  {
    var (u, rest) :- Expect(s, TAG_SEQUENCE);
    var head :- ParseUsmFields(u);
    Ok(head.(authStart := |s| - |rest| - |u| + head.authStart))
  }

  function ParseUsm(s: bytes): (r: BerResult<(Usm, nat)>)
    ensures r.Ok? ==> |r.value.0.userName| <= MSG_USER_NAME_MAX_LENGTH
    ensures r.Err? ==> r.error == Malformed
  {
    var u :- ParseUsmHead(s);
    if |u.userName| > MSG_USER_NAME_MAX_LENGTH then Err(Malformed) else
    var (privParams, _) :- Expect(u.afterAuth, TAG_OCTET_STRING);
    Ok((Usm(u.engineId, u.engineBoots, u.engineTime, u.userName, u.authParams, privParams), u.authStart))
  }

  function ParseScopedFields(contents: bytes): (r: BerResult<ScopedData>)
    ensures r.Err? ==> r.error == Malformed
    ensures r.Ok? ==> r.value.Plaintext?
  {
    var (engineId, c1) :- Expect(contents, TAG_OCTET_STRING);
    var (name, rawPdu) :- Expect(c1, TAG_OCTET_STRING);
    Ok(Plaintext(engineId, name, rawPdu))
  }

  function ParseScopedPdu(s: bytes): (r: BerResult<ScopedData>)
    ensures r.Err? ==> r.error == Malformed
    ensures r.Ok? ==> r.value.Plaintext?
  {
    var (contents, _) :- Expect(s, TAG_SEQUENCE);
    ParseScopedFields(contents)
  }

  /** SEQUENCE announces plaintext, OCTET STRING ciphertext. */
  function ParseScopedData(s: bytes): (r: BerResult<ScopedData>)
    ensures r.Err? ==> r.error == Malformed
  {
    if s == [] then Err(Malformed)
    else if s[0] == TAG_SEQUENCE then ParseScopedPdu(s)
    else if s[0] == TAG_OCTET_STRING then
      var (ciphertext, _) :- Expect(s, TAG_OCTET_STRING);
      Ok(Encrypted(ciphertext))
    else Err(Malformed)
  }

  function ParseEnvelope(s: bytes): BerResult<Message>
  {
    var (msg, tail) :- Expect(s, TAG_SEQUENCE);
    var (version, m1) :- ExpectInteger(msg);
    if version != SNMPV3_VERSION then Err(WrongVersion) else
    var (header, m2) :- ParseHeader(m1);
    var (usmOctets, m3) :- Expect(m2, TAG_OCTET_STRING);
    var (usm, authStart) :- ParseUsm(usmOctets);
    var scoped :- ParseScopedData(m3);
    var start := |s| - |tail| - |m3| - |usmOctets| + authStart;
    Ok(Message(header, usm, scoped, if usm.authParams == [] then None else Some(start)))
  }

  /** The security parameters in a message's contents, and where they start there. */
  function LocateUsmWithin(msg: bytes): (r: BerResult<(bytes, nat)>)
    ensures r.Err? ==> r.error == Malformed
  {
    var (_, m1) :- ExpectInteger(msg);
    var (_, m2) :- Expect(m1, TAG_SEQUENCE);
    var (usmOctets, m3) :- Expect(m2, TAG_OCTET_STRING);
    Ok((usmOctets, |msg| - |m3| - |usmOctets|))
  }

  function LocateUsm(s: bytes): (r: BerResult<(bytes, nat)>)
    ensures r.Err? ==> r.error == Malformed
  {
    var (msg, tail) :- Expect(s, TAG_SEQUENCE);
    var (usmOctets, start) :- LocateUsmWithin(msg);
    Ok((usmOctets, |s| - |tail| - |msg| + start))
  }

  /** `find_auth_params_offset`: the same position without validating the other fields. */
  function LocateAuthParams(s: bytes): BerResult<nat>
  {
    var (usmOctets, start) :- LocateUsm(s);
    var u :- ParseUsmHead(usmOctets);
    Ok(start + u.authStart)
  }

  // ----- positions -----

  lemma UsmHeadSlice(s: bytes)
    requires ParseUsmHead(s).Ok?
    ensures IsSliceAt(s, ParseUsmHead(s).value.authStart, ParseUsmHead(s).value.authParams)
  {
    hide Expect, ExpectInteger, IsSliceAt, IsSuffix, ParseTlv, ParseLength;
    var (u, rest) := Expect(s, TAG_SEQUENCE).value;
    var u1 := Expect(u, TAG_OCTET_STRING).value.1;
    var u2 := ExpectInteger(u1).value.1;
    var u3 := ExpectInteger(u2).value.1;
    var u4 := Expect(u3, TAG_OCTET_STRING).value.1;
    var (authParams, u5) := Expect(u4, TAG_OCTET_STRING).value;
    SuffixTrans(u, u1, u2);
    SuffixTrans(u, u2, u3);
    SuffixTrans(u, u3, u4);
    SuffixSlice(u, u4, |u4| - |u5| - |authParams|, authParams);
    SliceTrans(s, |s| - |rest| - |u|, u, |u| - |u5| - |authParams|, authParams);
  }

  /**
    * For every accepted octet string, whoever wrote it: the offset is absent exactly when the
    * field is empty, and otherwise the message holds the field at that offset.
    */
  lemma OffsetLocatesAuthParams(s: bytes)
    requires ParseEnvelope(s).Ok?
    ensures var m := ParseEnvelope(s).value;
            (m.authOffset.None? <==> m.usm.authParams == []) &&
            (m.authOffset.Some? ==> IsSliceAt(s, m.authOffset.value, m.usm.authParams) &&
                                    LocateAuthParams(s) == Ok(m.authOffset.value))
  {
    hide Expect, ExpectInteger, ParseTlv, ParseLength, ParseHeader, ParseUsmHead, ParseScopedData, IsSliceAt, IsSuffix;
    var (msg, tail) := Expect(s, TAG_SEQUENCE).value;
    var m1 := ExpectInteger(msg).value.1;
    var m2 := ParseHeader(m1).value.1;
    var (usmOctets, m3) := Expect(m2, TAG_OCTET_STRING).value;
    var u := ParseUsmHead(usmOctets).value;
    UsmHeadSlice(usmOctets);
    SuffixTrans(msg, m1, m2);
    SliceTrans(m2, |m2| - |m3| - |usmOctets|, usmOctets, u.authStart, u.authParams);
    SuffixSlice(msg, m2, |m2| - |m3| - |usmOctets| + u.authStart, u.authParams);
    SliceTrans(s, |s| - |tail| - |msg|, msg, |msg| - |m3| - |usmOctets| + u.authStart, u.authParams);
  }

  // ----- the printed message -----

  function HeaderContents(h: Header): bytes
  {
    Integer(h.msgId) + (Integer(h.maxSize) + (Octets([h.flags]) + Integer(h.securityModel)))
  }

  function HeaderBytes(h: Header): bytes { Sequence(HeaderContents(h)) }

  function BeforeAuth(u: Usm): bytes
  {
    Octets(u.engineId) + (Integer(u.engineBoots) + (Integer(u.engineTime) + Octets(u.userName)))
  }

  function UsmContents(u: Usm): bytes
  {
    Octets(u.engineId) + (Integer(u.engineBoots) + (Integer(u.engineTime) +
      (Octets(u.userName) + (Octets(u.authParams) + Octets(u.privParams)))))
  }

  function UsmBytes(u: Usm): bytes { Sequence(UsmContents(u)) }

  function ScopedContents(engineId: bytes, name: bytes, rawPdu: bytes): bytes
  {
    Octets(engineId) + (Octets(name) + rawPdu)
  }

  function ScopedBytes(engineId: bytes, name: bytes, rawPdu: bytes): bytes
  {
    Sequence(ScopedContents(engineId, name, rawPdu))
  }

  /** Plaintext is already an element; ciphertext is wrapped into one. */
  function PayloadTlv(payload: bytes, encrypted: bool): bytes
  {
    if encrypted then Octets(payload) else payload
  }

  function MessageContents(h: Header, u: Usm, payload: bytes, encrypted: bool): bytes
  {
    Integer(SNMPV3_VERSION) + (HeaderBytes(h) + (Octets(UsmBytes(u)) + PayloadTlv(payload, encrypted)))
  }

  function MessageBytes(h: Header, u: Usm, payload: bytes, encrypted: bool): bytes
  {
    Sequence(MessageContents(h, u, payload, encrypted))
  }

  // ----- parsing undoes printing -----

  /** A header is read back exactly when msgID is not negative and msgMaxSize is at least 484. */
  lemma HeaderRoundTrip(h: Header, rest: bytes)
    ensures ParseHeader(HeaderBytes(h) + rest) ==
            if h.msgId >= 0 && h.maxSize >= 484 then Ok((h, rest)) else Err(Malformed)
  {
    hide ParseTlv, IsSliceAt, IsSuffix, Expect, ExpectInteger, Tlv, Integer;
    IntegerSize(h.msgId); IntegerSize(h.maxSize); IntegerSize(h.securityModel);
    TlvSize(TAG_OCTET_STRING, [h.flags]);
    ExpectOfTlv(TAG_SEQUENCE, HeaderContents(h), rest);
    ExpectIntegerOfInteger(h.msgId, Integer(h.maxSize) + (Octets([h.flags]) + Integer(h.securityModel)));
    ExpectIntegerOfInteger(h.maxSize, Octets([h.flags]) + Integer(h.securityModel));
    ExpectOfTlv(TAG_OCTET_STRING, [h.flags], Integer(h.securityModel));
    ExpectIntegerOfInteger(h.securityModel, []);
    assert Integer(h.securityModel) + [] == Integer(h.securityModel);
  }

  lemma UsmHeadRoundTrip(u: Usm)
    requires |UsmBytes(u)| < TWO_64
    ensures ParseUsmHead(UsmBytes(u)) ==
            Ok(UsmHead(u.engineId, u.engineBoots, u.engineTime, u.userName, u.authParams, Octets(u.privParams),
                       |UsmBytes(u)| - |Octets(u.privParams)| - |u.authParams|))
  {
    hide ParseTlv, IsSliceAt, IsSuffix, Expect, ExpectInteger, Tlv, Integer;
    var c5 := Octets(u.privParams);
    var c4 := Octets(u.authParams) + c5;
    var c3 := Octets(u.userName) + c4;
    var c2 := Integer(u.engineTime) + c3;
    var c1 := Integer(u.engineBoots) + c2;
    assert UsmContents(u) == Octets(u.engineId) + c1;
    ExpectOfTlv(TAG_SEQUENCE, UsmContents(u), []);
    assert UsmBytes(u) + [] == UsmBytes(u);
    ExpectOfTlv(TAG_OCTET_STRING, u.engineId, c1);
    ExpectIntegerOfInteger(u.engineBoots, c2);
    ExpectIntegerOfInteger(u.engineTime, c3);
    ExpectOfTlv(TAG_OCTET_STRING, u.userName, c4);
    ExpectOfTlv(TAG_OCTET_STRING, u.authParams, c5);
  }

  lemma UsmRoundTrip(u: Usm)
    requires |UsmBytes(u)| < TWO_64
    ensures ParseUsm(UsmBytes(u)) ==
            if |u.userName| <= 32 then Ok((u, |UsmBytes(u)| - |Octets(u.privParams)| - |u.authParams|))
            else Err(Malformed)
  {
    hide ParseTlv, IsSliceAt, IsSuffix, Expect, Tlv, UsmBytes, ParseUsmHead;
    UsmHeadRoundTrip(u);
    assert |u.privParams| < TWO_64 by { UsmSizes(u); }
    ExpectOfTlv(TAG_OCTET_STRING, u.privParams, []);
    assert Octets(u.privParams) + [] == Octets(u.privParams);
  }

  lemma UsmSizes(u: Usm)
    ensures |u.engineId| + |u.userName| + |u.authParams| + |u.privParams| + 10 <= |UsmBytes(u)|
  {
    hide Integer;
  }

  lemma ScopedRoundTrip(engineId: bytes, name: bytes, rawPdu: bytes)
    requires |ScopedBytes(engineId, name, rawPdu)| < TWO_64
    ensures ParseScopedPdu(ScopedBytes(engineId, name, rawPdu)) == Ok(Plaintext(engineId, name, rawPdu))
    ensures ParseScopedData(ScopedBytes(engineId, name, rawPdu)) == Ok(Plaintext(engineId, name, rawPdu))
  {
    hide Expect;
    ExpectOfTlv(TAG_SEQUENCE, ScopedContents(engineId, name, rawPdu), []);
    assert ScopedBytes(engineId, name, rawPdu) + [] == ScopedBytes(engineId, name, rawPdu);
    ExpectOfTlv(TAG_OCTET_STRING, engineId, Octets(name) + rawPdu);
    ExpectOfTlv(TAG_OCTET_STRING, name, rawPdu);
  }

  lemma EncryptedRoundTrip(ciphertext: bytes)
    requires |ciphertext| < TWO_64
    ensures ParseScopedData(Octets(ciphertext)) == Ok(Encrypted(ciphertext))
  {
    hide Expect;
    ExpectOfTlv(TAG_OCTET_STRING, ciphertext, []);
    assert Octets(ciphertext) + [] == Octets(ciphertext);
  }

  /** Octets in front of msgAuthenticationParameters; only their length enters. */
  function AuthPosition(h: Header, u: Usm, payload: bytes, encrypted: bool): int
  {
    |MessageBytes(h, u, payload, encrypted)| - |PayloadTlv(payload, encrypted)| -
    |Octets(u.privParams)| - |u.authParams|
  }

  /** The offset the encoder finds in its own output, whatever the field values. */
  lemma LocateInMessage(h: Header, u: Usm, payload: bytes, encrypted: bool)
    requires |MessageBytes(h, u, payload, encrypted)| < TWO_64
    ensures LocateAuthParams(MessageBytes(h, u, payload, encrypted)) == Ok(AuthPosition(h, u, payload, encrypted))
  {
    hide ParseTlv, IsSliceAt, IsSuffix, Expect, ExpectInteger, Tlv, Integer, UsmBytes, HeaderContents, ParseUsmHead,
         PayloadTlv;
    var p := PayloadTlv(payload, encrypted);
    var c2 := Octets(UsmBytes(u)) + p;
    var c1 := HeaderBytes(h) + c2;
    ExpectOfTlv(TAG_SEQUENCE, MessageContents(h, u, payload, encrypted), []);
    assert MessageBytes(h, u, payload, encrypted) + [] == MessageBytes(h, u, payload, encrypted);
    ExpectIntegerOfInteger(SNMPV3_VERSION, c1);
    ExpectOfTlv(TAG_SEQUENCE, HeaderContents(h), c2);
    ExpectOfTlv(TAG_OCTET_STRING, UsmBytes(u), p);
    UsmHeadRoundTrip(u);
  }

  /** Every field returns, plaintext or encrypted, and the offset with it; fields out of range are rejected. */
  lemma EnvelopeRoundTrip(h: Header, u: Usm, payload: bytes, encrypted: bool)
    requires |MessageBytes(h, u, payload, encrypted)| < TWO_64
    ensures ParseEnvelope(MessageBytes(h, u, payload, encrypted)) ==
            if h.msgId < 0 || h.maxSize < 484 || |u.userName| > 32 then Err(Malformed)
            else match ParseScopedData(PayloadTlv(payload, encrypted))
                 case Err(e) => Err(e)
                 case Ok(scoped) =>
                   Ok(Message(h, u, scoped,
                              if u.authParams == [] then None else Some(AuthPosition(h, u, payload, encrypted))))
  {
    hide ParseTlv, IsSliceAt, IsSuffix, Expect, ExpectInteger, Tlv, Integer, UsmBytes, HeaderBytes, ParseUsm,
         ParseHeader, ParseScopedData, PayloadTlv;
    var p := PayloadTlv(payload, encrypted);
    var c2 := Octets(UsmBytes(u)) + p;
    var c1 := HeaderBytes(h) + c2;
    ExpectOfTlv(TAG_SEQUENCE, MessageContents(h, u, payload, encrypted), []);
    assert MessageBytes(h, u, payload, encrypted) + [] == MessageBytes(h, u, payload, encrypted);
    ExpectIntegerOfInteger(SNMPV3_VERSION, c1);
    HeaderRoundTrip(h, c2);
    ExpectOfTlv(TAG_OCTET_STRING, UsmBytes(u), p);
    UsmRoundTrip(u);
  }

  /** The whole layout with its tags and version in numbers. */
  lemma MessageLayout(h: Header, u: Usm, payload: bytes, encrypted: bool)
    ensures var header := Tlv(0x02, EncodeSigned(h.msgId)) + (Tlv(0x02, EncodeSigned(h.maxSize)) +
                          (Tlv(0x04, [h.flags]) + Tlv(0x02, EncodeSigned(h.securityModel))));
            var usm := Tlv(0x04, u.engineId) + (Tlv(0x02, EncodeSigned(u.engineBoots)) +
                       (Tlv(0x02, EncodeSigned(u.engineTime)) + (Tlv(0x04, u.userName) +
                       (Tlv(0x04, u.authParams) + Tlv(0x04, u.privParams)))));
            var data := if encrypted then Tlv(0x04, payload) else payload;
            MessageBytes(h, u, payload, encrypted) ==
            Tlv(0x30, Tlv(0x02, [3]) + (Tlv(0x30, header) + (Tlv(0x04, Tlv(0x30, usm)) + data)))
  {
    hide Tlv, EncodeSigned;
    VersionOctet();
  }

  lemma VersionOctet()
    ensures EncodeSigned(SNMPV3_VERSION) == [3]
  {
    EncodeSignedWidth(3);
    EncodeSignedCorrect(3);
    var s := EncodeSigned(3);
    assert s == [s[0]] && s[..0] == [];
  }

  /** Any other version is told apart from malformed messages, whatever follows it. */
  lemma OtherVersionsRejected(version: i32, rest: bytes)
    requires version != 3 && |Integer(version) + rest| < TWO_64
    ensures ParseEnvelope(Sequence(Integer(version) + rest)) == Err(WrongVersion)
  {
    hide ParseTlv, IsSliceAt, IsSuffix, Expect, ExpectInteger, Tlv, Integer;
    ExpectOfTlv(TAG_SEQUENCE, Integer(version) + rest, []);
    assert Sequence(Integer(version) + rest) + [] == Sequence(Integer(version) + rest);
    ExpectIntegerOfInteger(version, rest);
  }

  /** msgFlags is one octet; any other number of octets is rejected. */
  lemma FlagsFieldIsOneOctet(h: Header, flags: bytes, rest: bytes)
    requires |flags| != 1 && |Integer(h.msgId) + (Integer(h.maxSize) + (Octets(flags) + rest))| < TWO_64
    ensures ParseHeader(Sequence(Integer(h.msgId) + (Integer(h.maxSize) + (Octets(flags) + rest)))).Err?
  {
    hide ParseTlv, IsSliceAt, IsSuffix, Expect, ExpectInteger, Tlv, Integer;
    var contents := Integer(h.msgId) + (Integer(h.maxSize) + (Octets(flags) + rest));
    ExpectOfTlv(TAG_SEQUENCE, contents, []);
    assert Sequence(contents) + [] == Sequence(contents);
    ExpectIntegerOfInteger(h.msgId, Integer(h.maxSize) + (Octets(flags) + rest));
    ExpectIntegerOfInteger(h.maxSize, Octets(flags) + rest);
    ExpectOfTlv(TAG_OCTET_STRING, flags, rest);
  }

  /** Octets behind the message are ignored, on every accepted input. */
  lemma TrailingOctetsIgnored(s: bytes, more: bytes)
    requires ParseEnvelope(s).Ok?
    ensures ParseEnvelope(s + more) == ParseEnvelope(s)
  {
    hide ParseTlv, IsSliceAt, IsSuffix, ExpectInteger, ParseHeader, ParseUsm, ParseScopedData;
    ElementExtends(s, more);
  }

  // ----- sizes -----

  function FieldSizes(u: Usm): nat { |u.engineId| + |u.userName| + |u.authParams| + |u.privParams| }

  lemma UsmWithin(u: Usm, limit: nat, k: nat)
    requires 1 + LengthSize(limit) <= k && FieldSizes(u) + 5 * k + 12 <= limit
    ensures |UsmBytes(u)| <= FieldSizes(u) + 5 * k + 12
  {
    hide Tlv, Integer, LengthSize;
    IntegerSize(u.engineBoots); IntegerSize(u.engineTime);
    TlvWithin(TAG_OCTET_STRING, u.engineId, limit, k);
    TlvWithin(TAG_OCTET_STRING, u.userName, limit, k);
    TlvWithin(TAG_OCTET_STRING, u.authParams, limit, k);
    TlvWithin(TAG_OCTET_STRING, u.privParams, limit, k);
    TlvWithin(TAG_SEQUENCE, UsmContents(u), limit, k);
  }

  lemma HeaderWithin(h: Header, limit: nat, k: nat)
    requires 1 + LengthSize(limit) <= k && 2 * k + 19 <= limit
    ensures |HeaderBytes(h)| <= 2 * k + 19
  {
    hide Tlv, Integer, LengthSize;
    IntegerSize(h.msgId); IntegerSize(h.maxSize); IntegerSize(h.securityModel);
    TlvWithin(TAG_OCTET_STRING, [h.flags], limit, k);
    TlvWithin(TAG_SEQUENCE, HeaderContents(h), limit, k);
  }

  /** Beyond its variable fields and payload a message takes at most ten element headers and 37 octets. */
  lemma MessageWithin(h: Header, u: Usm, payload: bytes, encrypted: bool, limit: nat, k: nat)
    requires 1 + LengthSize(limit) <= k && FieldSizes(u) + |payload| + 10 * k + 37 <= limit
    ensures |MessageBytes(h, u, payload, encrypted)| <= FieldSizes(u) + |payload| + 10 * k + 37
  {
    hide Tlv, Integer, LengthSize, UsmBytes, HeaderBytes;
    UsmWithin(u, limit, k);
    HeaderWithin(h, limit, k);
    IntegerSize(SNMPV3_VERSION);
    TlvWithin(TAG_OCTET_STRING, UsmBytes(u), limit, k);
    TlvWithin(TAG_OCTET_STRING, payload, limit, k);
    TlvWithin(TAG_SEQUENCE, MessageContents(h, u, payload, encrypted), limit, k);
  }

  lemma ScopedWithin(engineId: bytes, name: bytes, rawPdu: bytes, limit: nat, k: nat)
    requires 1 + LengthSize(limit) <= k && |engineId| + |name| + |rawPdu| + 3 * k <= limit
    ensures |ScopedBytes(engineId, name, rawPdu)| <= |engineId| + |name| + |rawPdu| + 3 * k
  {
    hide Tlv, LengthSize;
    TlvWithin(TAG_OCTET_STRING, engineId, limit, k);
    TlvWithin(TAG_OCTET_STRING, name, limit, k);
    TlvWithin(TAG_SEQUENCE, ScopedContents(engineId, name, rawPdu), limit, k);
  }

  /** Header costs at the two limits that matter: any `usize`, and the largest frame. */
  lemma HeaderCosts()
    ensures 1 + LengthSize(TWO_64 - 1) <= 10
    ensures 1 + LengthSize(0xFFFF) <= 4
  {
    DigitCount(TWO_64 - 1);
    LengthSizeBound(0xFFFF);
  }

  // ----- signing is a splice -----

  function TlvHead(tag: byte, n: nat): bytes { [tag] + EncodedLength(n) }

  function AuthPrefixInUsm(u: Usm): bytes
  {
    var n := |u.authParams|;
    var before := BeforeAuth(u) + TlvHead(TAG_OCTET_STRING, n);
    TlvHead(TAG_SEQUENCE, |before| + n + |Octets(u.privParams)|) + before
  }

  /** What stands before the field; of the field itself only the length enters. */
  function AuthPrefix(h: Header, u: Usm, payload: bytes, encrypted: bool): bytes
  {
    var inUsm := AuthPrefixInUsm(u);
    var usmSize := |inUsm| + |u.authParams| + |Octets(u.privParams)|;
    var before := Integer(SNMPV3_VERSION) + HeaderBytes(h) + TlvHead(TAG_OCTET_STRING, usmSize) + inUsm;
    var after := |Octets(u.privParams)| + |PayloadTlv(payload, encrypted)|;
    TlvHead(TAG_SEQUENCE, |before| + |u.authParams| + after) + before
  }

  function AuthSuffix(u: Usm, payload: bytes, encrypted: bool): bytes
  {
    Octets(u.privParams) + PayloadTlv(payload, encrypted)
  }

  lemma TlvIsHeadAndValue(tag: byte, value: bytes)
    ensures Tlv(tag, value) == TlvHead(tag, |value|) + value
  {}

  lemma UsmSplit(u: Usm)
    ensures UsmBytes(u) == AuthPrefixInUsm(u) + u.authParams + Octets(u.privParams)
  {
    hide Tlv, TlvHead, Integer;
    var n, post := |u.authParams|, Octets(u.privParams);
    var before := BeforeAuth(u) + TlvHead(TAG_OCTET_STRING, n);
    TlvIsHeadAndValue(TAG_OCTET_STRING, u.authParams);
    assert UsmContents(u) == before + u.authParams + post;
    TlvIsHeadAndValue(TAG_SEQUENCE, UsmContents(u));
  }

  lemma MessageSplit(h: Header, u: Usm, payload: bytes, encrypted: bool)
    ensures MessageBytes(h, u, payload, encrypted) ==
            AuthPrefix(h, u, payload, encrypted) + u.authParams + AuthSuffix(u, payload, encrypted)
    ensures AuthPosition(h, u, payload, encrypted) == |AuthPrefix(h, u, payload, encrypted)|
  {
    hide Tlv, TlvHead, Integer, HeaderBytes, UsmBytes, AuthPrefixInUsm, PayloadTlv;
    UsmSplit(u);
    var inUsm := AuthPrefixInUsm(u);
    var p := PayloadTlv(payload, encrypted);
    TlvIsHeadAndValue(TAG_OCTET_STRING, UsmBytes(u));
    var before := Integer(SNMPV3_VERSION) + HeaderBytes(h) + TlvHead(TAG_OCTET_STRING, |UsmBytes(u)|) + inUsm;
    assert MessageContents(h, u, payload, encrypted) == before + u.authParams + Octets(u.privParams) + p;
    TlvIsHeadAndValue(TAG_SEQUENCE, MessageContents(h, u, payload, encrypted));
  }

  /** Printing with another field of the same length only overwrites the octets at the offset. */
  lemma SigningIsSplice(h: Header, u: Usm, payload: bytes, encrypted: bool, mac: bytes)
    requires |mac| == |u.authParams|
    ensures var unsigned := MessageBytes(h, u, payload, encrypted);
            var at := AuthPosition(h, u, payload, encrypted);
            0 <= at && at + |mac| <= |unsigned| &&
            MessageBytes(h, u.(authParams := mac), payload, encrypted) == Splice(unsigned, at, mac) &&
            AuthPosition(h, u.(authParams := mac), payload, encrypted) == at
  {
    hide MessageBytes, AuthPosition, HeaderBytes, Octets, Integer, TlvHead, PayloadTlv;
    var signed := u.(authParams := mac);
    MessageSplit(h, u, payload, encrypted);
    MessageSplit(h, signed, payload, encrypted);
    assert AuthPrefix(h, signed, payload, encrypted) == AuthPrefix(h, u, payload, encrypted) by {
      AuthPrefixSame(h, u, payload, encrypted, mac);
    }
    assert AuthSuffix(signed, payload, encrypted) == AuthSuffix(u, payload, encrypted);
  }

  lemma AuthPrefixSame(h: Header, u: Usm, payload: bytes, encrypted: bool, mac: bytes)
    requires |mac| == |u.authParams|
    ensures AuthPrefix(h, u.(authParams := mac), payload, encrypted) == AuthPrefix(h, u, payload, encrypted)
  {
    hide HeaderBytes, Octets, Integer, TlvHead, PayloadTlv;
    assert BeforeAuth(u.(authParams := mac)) == BeforeAuth(u);
  }

  // ----- the encoders -----

  method WrapInOuterSequence(inner: bytes) returns (out: bytes)
    requires |inner| < TWO_64
    ensures out == Sequence(inner)
  {
    hide Tlv;
    var outer := new BerWriter();
    outer.WriteTlv(TAG_SEQUENCE, inner);
    out := outer.buffer;
  }

  method EncodeScopedPdu(engineId: bytes, name: bytes, rawPdu: bytes) returns (out: bytes)
    requires |ScopedBytes(engineId, name, rawPdu)| < TWO_64
    ensures out == ScopedBytes(engineId, name, rawPdu)
  {
    hide Tlv;
    var inner := new BerWriter();
    inner.WriteOctetString(engineId);
    inner.WriteOctetString(name);
    inner.WriteRaw(rawPdu);
    assert inner.buffer == ScopedContents(engineId, name, rawPdu);
    out := WrapInOuterSequence(inner.buffer);
  }

  method EncodeUsmParams(u: Usm) returns (out: bytes)
    requires |UsmBytes(u)| < TWO_64
    ensures out == UsmBytes(u)
  {
    hide Tlv, Integer;
    UsmSizes(u);
    var inner := new BerWriter();
    inner.WriteOctetString(u.engineId);
    inner.WriteInteger(u.engineBoots);
    inner.WriteInteger(u.engineTime);
    inner.WriteOctetString(u.userName);
    inner.WriteOctetString(u.authParams);
    inner.WriteOctetString(u.privParams);
    assert inner.buffer == UsmContents(u);
    out := WrapInOuterSequence(inner.buffer);
  }

  method EncodeHeaderData(h: Header) returns (out: bytes)
    ensures out == HeaderBytes(h)
  {
    hide Tlv, Integer;
    IntegerSize(h.msgId); IntegerSize(h.maxSize); IntegerSize(h.securityModel);
    TlvSize(TAG_OCTET_STRING, [h.flags]);
    var inner := new BerWriter();
    inner.WriteInteger(h.msgId);
    inner.WriteInteger(h.maxSize);
    inner.WriteOctetString([h.flags]);
    inner.WriteInteger(h.securityModel);
    assert inner.buffer == HeaderContents(h);
    out := WrapInOuterSequence(inner.buffer);
  }

  /** Re-parses the message; never fails on the encoder's own output. */
  method FindAuthParamsOffset(encoded: bytes, authParamsLen: nat) returns (r: BerResult<Option<nat>>)
    ensures authParamsLen == 0 ==> r == Ok(None)
    ensures authParamsLen > 0 ==> r.Ok? == LocateAuthParams(encoded).Ok?
    ensures authParamsLen > 0 && r.Ok? ==> r.value == Some(LocateAuthParams(encoded).value)
  {
    hide LocateUsm, ParseUsmHead;
    if authParamsLen == 0 {
      return Ok(None);
    }
    var located :- ReadUsmOctets(encoded);
    var usmReader := new BerReader(located.0, located.1);
    var head :- ReadUsmHead(usmReader);
    r := Ok(Some(head.1));
  }

  method ReadUsmOctets(encoded: bytes) returns (r: BerResult<(bytes, nat)>)
    ensures r == LocateUsm(encoded)
  {
    hide Expect, ParseTlv, ParseLength, LocateUsmWithin, IsSliceAt, IsSuffix;
    var outer := new BerReader(encoded, 0);
    assert outer.Remaining() == encoded;
    var msg :- outer.ReadSequence();
    var located :- ReadUsmOctetsWithin(msg);
    r := Ok((located.0, msg.baseOffset + located.1));
  }

  method ReadUsmOctetsWithin(msg: BerReader) returns (r: BerResult<(bytes, nat)>)
    requires msg.Valid() && msg.position == 0
    modifies msg
    ensures r == LocateUsmWithin(msg.input)
  {
    hide Expect, ExpectInteger, ParseTlv, ParseLength, IsSliceAt, IsSuffix;
    assert msg.Remaining() == msg.input;
    var _ :- msg.ReadInteger();
    var _ :- msg.ReadSequence();
    var usmOctets :- msg.ReadOctetString();
    r := Ok((usmOctets, msg.position - |usmOctets|));
  }

  /** Reads the fields up to msgAuthenticationParameters; also returns the absolute offset of the field. */
  method ReadUsmHead(usmOuter: BerReader) returns (r: BerResult<(BerReader, nat, UsmHead)>)
    requires usmOuter.Valid() && usmOuter.position == 0
    modifies usmOuter
    ensures r.Ok? <==> ParseUsmHead(usmOuter.input).Ok?
    ensures r.Ok? ==> r.value.2 == ParseUsmHead(usmOuter.input).value
    ensures r.Ok? ==> fresh(r.value.0) && r.value.0.Valid() && r.value.0.Remaining() == r.value.2.afterAuth
    ensures r.Ok? ==> r.value.1 == usmOuter.baseOffset + r.value.2.authStart
    ensures r.Err? ==> r.error == Malformed
  {
    hide Expect, ParseTlv, ParseLength, ParseUsmFields, IsSliceAt, IsSuffix;
    assert usmOuter.Remaining() == usmOuter.input;
    var usm :- usmOuter.ReadSequence();
    assert usm.Remaining() == usm.input;
    var head :- ReadUsmFields(usm);
    var offset := usm.baseOffset + head.authStart;
    r := Ok((usm, offset, head.(authStart := offset - usmOuter.baseOffset)));
  }

  method ReadUsmFields(usm: BerReader) returns (r: BerResult<UsmHead>)
    requires usm.Valid() && usm.position == 0
    modifies usm
    ensures r == ParseUsmFields(usm.input) && usm.Valid()
    ensures r.Ok? ==> usm.Remaining() == r.value.afterAuth
  {
    hide Expect, ExpectInteger, ParseTlv, ParseLength, IsSliceAt, IsSuffix;
    assert usm.Remaining() == usm.input;
    var engineId :- usm.ReadOctetString();
    var boots :- usm.ReadInteger();
    var time :- usm.ReadInteger();
    var userName :- usm.ReadOctetString();
    var authParams :- usm.ReadOctetString();
    r := Ok(UsmHead(engineId, boots, time, userName, authParams, usm.Remaining(), usm.position - |authParams|));
  }

  method EncodeV3Message(h: Header, u: Usm, payload: bytes, encrypted: bool)
    returns (r: BerResult<(bytes, Option<nat>)>)
    requires |MessageBytes(h, u, payload, encrypted)| < TWO_64
    ensures r == Ok((MessageBytes(h, u, payload, encrypted),
                     if u.authParams == [] then None else Some(AuthPosition(h, u, payload, encrypted))))
  {
    hide Tlv, Integer, HeaderBytes, UsmBytes, LocateAuthParams, AuthPosition;
    var header := EncodeHeaderData(h);
    var usm := EncodeUsmParams(u);
    var inner := new BerWriter();
    inner.WriteInteger(SNMPV3_VERSION);
    inner.WriteRaw(header);
    inner.WriteOctetString(usm);
    if encrypted {
      inner.WriteOctetString(payload);
    } else {
      inner.WriteRaw(payload);
    }
    assert inner.buffer == MessageContents(h, u, payload, encrypted);
    var encoded := WrapInOuterSequence(inner.buffer);
    LocateInMessage(h, u, payload, encrypted);
    var offset := FindAuthParamsOffset(encoded, |u.authParams|);
    r := if offset.Ok? then Ok((encoded, offset.value)) else Err(Malformed);
  }

  // ----- the decoders -----

  method DecodeHeaderData(msg: BerReader) returns (r: BerResult<Header>)
    requires msg.Valid()
    modifies msg
    ensures msg.Valid()
    ensures r.Ok? <==> ParseHeader(old(msg.Remaining())).Ok?
    ensures r.Ok? ==> ParseHeader(old(msg.Remaining())) == Ok((r.value, msg.Remaining()))
    ensures r.Err? ==> r.error == Malformed
  {
    hide Expect, ExpectInteger, ParseTlv, IsSliceAt, IsSuffix;
    var header :- msg.ReadSequence();
    assert header.Remaining() == header.input;
    var msgId :- header.ReadInteger();
    if msgId < 0 {
      return Err(Malformed);
    }
    var maxSize :- header.ReadInteger();
    if maxSize < MIN_MSG_MAX_SIZE {
      return Err(Malformed);
    }
    var flags :- header.ReadOctetString();
    if |flags| != 1 {
      return Err(Malformed);
    }
    var model :- header.ReadInteger();
    r := Ok(Header(msgId, maxSize, flags[0], model));
  }

  method DecodeUsmSecurityParameters(msg: BerReader) returns (r: BerResult<(Usm, Option<nat>)>)
    requires msg.Valid()
    modifies msg
    ensures msg.Valid()
    ensures r.Ok? <==> Expect(old(msg.Remaining()), TAG_OCTET_STRING).Ok? &&
                       ParseUsm(Expect(old(msg.Remaining()), TAG_OCTET_STRING).value.0).Ok?
    ensures r.Ok? ==> var (octets, rest) := Expect(old(msg.Remaining()), TAG_OCTET_STRING).value;
                      var (usm, start) := ParseUsm(octets).value;
                      msg.Remaining() == rest && r.value.0 == usm &&
                      r.value.1 == (if usm.authParams == [] then None else Some(msg.Offset() - |octets| + start))
    ensures r.Err? ==> r.error == Malformed
  {
    hide Expect, ExpectInteger, ParseTlv, IsSliceAt, IsSuffix, ParseUsmHead;
    var octets :- msg.ReadOctetString();
    var usmOuter := new BerReader(octets, msg.Offset() - |octets|);
    var head :- ReadUsmHead(usmOuter);
    var (usm, offset, u) := head;
    if |u.userName| > MSG_USER_NAME_MAX_LENGTH {
      return Err(Malformed);
    }
    var authParamsOffset := if u.authParams == [] then None else Some(offset);
    var privParams :- usm.ReadOctetString();
    r := Ok((Usm(u.engineId, u.engineBoots, u.engineTime, u.userName, u.authParams, privParams), authParamsOffset));
  }

  method DecodeScopedPduData(msg: BerReader) returns (r: BerResult<ScopedData>)
    requires msg.Valid()
    modifies msg
    ensures r == ParseScopedData(old(msg.Remaining()))
  {
    hide Expect, ParseTlv, IsSliceAt, IsSuffix;
    var tag :- msg.PeekTag();
    if tag == TAG_SEQUENCE {
      var scoped :- msg.ReadSequence();
      r := ReadScopedFields(scoped);
    } else if tag == TAG_OCTET_STRING {
      var ciphertext :- msg.ReadOctetString();
      r := Ok(Encrypted(ciphertext));
    } else {
      r := Err(Malformed);
    }
  }

  method ReadScopedFields(scoped: BerReader) returns (r: BerResult<ScopedData>)
    requires scoped.Valid() && scoped.position == 0
    modifies scoped
    ensures r == ParseScopedFields(scoped.input)
  {
    hide Expect, ParseTlv, IsSliceAt, IsSuffix;
    assert scoped.Remaining() == scoped.input;
    var engineId :- scoped.ReadOctetString();
    var name :- scoped.ReadOctetString();
    r := Ok(Plaintext(engineId, name, scoped.Remaining()));
  }

  method DecodeScopedPdu(s: bytes) returns (r: BerResult<ScopedData>)
    ensures r == ParseScopedPdu(s)
  {
    hide Expect, ParseTlv, IsSliceAt, IsSuffix;
    var outer := new BerReader(s, 0);
    assert outer.Remaining() == s;
    var scoped :- outer.ReadSequence();
    r := ReadScopedFields(scoped);
  }

  /** The nested cursors compute the fields and the offset that the grammar assigns to the message. */
  method DecodeV3Envelope(s: bytes) returns (r: BerResult<Message>)
    ensures r == ParseEnvelope(s)
    ensures r.Ok? && r.value.authOffset.Some? ==>
              IsSliceAt(s, r.value.authOffset.value, r.value.usm.authParams)
  {
    hide Expect, ExpectInteger, ParseTlv, IsSliceAt, IsSuffix, ParseHeader, ParseUsm, ParseScopedData;
    var outer := new BerReader(s, 0);
    assert outer.Remaining() == s;
    var msg :- outer.ReadSequence();
    assert msg.Remaining() == msg.input;
    var version :- msg.ReadInteger();
    if version != SNMPV3_VERSION {
      return Err(WrongVersion);
    }
    var header :- DecodeHeaderData(msg);
    var usm :- DecodeUsmSecurityParameters(msg);
    var scoped :- DecodeScopedPduData(msg);
    r := Ok(Message(header, usm.0, scoped, usm.1));
    OffsetLocatesAuthParams(s);
  }
}
