/** Outbound messages: encryption, signing, responses, Reports, and their size. */
module Outbound {
  import opened Bytes
  import opened Oids
  import opened Ber
  import opened Varbinds
  import opened Mib
  import opened Envelope
  import opened Usm
  import BerInteger
  import BerOid
  import Pdus
  import Bulk

  const MSG_MAX_SIZE_UDP: i32 := 0xFFFF
  const USM_SECURITY_MODEL: i32 := 3

  datatype Security = Security(auth: Option<AuthCredentials>, priv: Option<PrivCredentials>)

  /** Identifiers and engine state that every outbound message carries. */
  datatype Frame = Frame(msgId: i32, engineId: bytes, userName: bytes, contextName: bytes, boots: u32, time: u32)

  /** engineBoots, engineTime and the salt, each big-endian (section 2.2 of RFC 3826). */
  function AesIv(boots: u32, time: u32, salt: bytes): bytes
  {
    ToBe(boots, 4) + ToBe(time, 4) + salt
  }

  lemma IvLayout(boots: u32, time: u32, salt: bytes)
    ensures var iv := AesIv(boots, time, salt);
            |iv| == 8 + |salt| && Be(iv[..4]) == boots && Be(iv[4..8]) == time && iv[8..] == salt
  {
    Pow256Values();
    BeToBe(boots, 4);
    BeToBe(time, 4);
    var iv := AesIv(boots, time, salt);
    assert iv[..4] == ToBe(boots, 4) && iv[4..8] == ToBe(time, 4);
  }

  function FlagsByte(s: Security): Option<byte>
  {
    match (s.auth.Some?, s.priv.Some?)
    case (true, true) => Some(3)
    case (true, false) => Some(1)
    case (false, false) => Some(0)
    case (false, true) => None
  }

  // ----- sealing: encryption, then the MAC -----

  /** What a sender puts around a PDU; the MAC field of `usm` is filled in by sealing. */
  datatype Wrapping = Wrapping(header: Header, usm: Envelope.Usm, contextEngineId: bytes, contextName: bytes)

  function MacLenOf(s: Security): nat { if s.auth.Some? then s.auth.value.protocol.MacLen() else 0 }

  function ScopedOf(w: Wrapping, rawPdu: bytes): bytes { ScopedBytes(w.contextEngineId, w.contextName, rawPdu) }

  /** The payload: the ScopedPDU itself, or its ciphertext. */
  function PayloadOf(c: Primitives, s: Security, w: Wrapping, rawPdu: bytes): Option<bytes>
  {
    if s.priv.None? then Some(ScopedOf(w, rawPdu))
    else
      var iv := AesIv(WireUnsigned(w.usm.engineBoots), WireUnsigned(w.usm.engineTime), w.usm.privParams);
      c.Encrypt(s.priv.value.protocol, s.priv.value.key, iv, ScopedOf(w, rawPdu))
  }

  function Printed(s: Security, w: Wrapping, payload: bytes, authParams: bytes): bytes
  {
    MessageBytes(w.header, w.usm.(authParams := authParams), payload, s.priv.Some?)
  }

  /** The message with an all-zero msgAuthenticationParameters of the final length. */
  function Placeholder(s: Security, w: Wrapping, payload: bytes): bytes
  {
    Printed(s, w, payload, Zeros(MacLenOf(s)))
  }

  function AuthParamsOf(c: Primitives, s: Security, w: Wrapping, payload: bytes): Option<bytes>
  {
    if s.auth.None? then Some([])
    else c.ComputeMac(s.auth.value.protocol, s.auth.value.key, Placeholder(s, w, payload))
  }

  /** The message as sent: the MAC of the placeholder message stands in its own field. */
  function Sealed(c: Primitives, s: Security, w: Wrapping, rawPdu: bytes): Option<bytes>
  {
    var payload :- PayloadOf(c, s, w, rawPdu);
    var authParams :- AuthParamsOf(c, s, w, payload);
    Some(Printed(s, w, payload, authParams))
  }

  predicate Addressable(w: Wrapping, rawPdu: bytes)
  {
    FieldSizes(w.usm) + |w.contextEngineId| + |w.contextName| + |rawPdu| + 0x1_0000 < TWO_64
  }

  /** A message that fits the address space also does with its headers and fixed fields. */
  lemma SealedSizes(c: Primitives, s: Security, w: Wrapping, rawPdu: bytes)
    requires c.Lawful() && Addressable(w, rawPdu)
    ensures |ScopedOf(w, rawPdu)| < TWO_64
    ensures PayloadOf(c, s, w, rawPdu).Some? ==> |Placeholder(s, w, PayloadOf(c, s, w, rawPdu).value)| < TWO_64
  {
    hide LengthSize, MessageBytes, ScopedBytes, AesIv;
    HeaderCosts();
    ScopedWithin(w.contextEngineId, w.contextName, rawPdu, TWO_64 - 1, 10);
    var payload := PayloadOf(c, s, w, rawPdu);
    if payload.Some? {
      var u := w.usm.(authParams := Zeros(MacLenOf(s)));
      MessageWithin(w.header, u, payload.value, s.priv.Some?, TWO_64 - 1, 10);
    }
  }

  /** The scoped data a sealed message carries on the wire. */
  function WireScoped(s: Security, w: Wrapping, payload: bytes, rawPdu: bytes): ScopedData
  {
    if s.priv.Some? then Encrypted(payload) else Plaintext(w.contextEngineId, w.contextName, rawPdu)
  }

  /** The offset of the MAC field, if there is one. */
  function SealedOffset(s: Security, w: Wrapping, payload: bytes): Option<int>
  {
    if s.auth.None? then None
    else Some(AuthPosition(w.header, w.usm.(authParams := Zeros(MacLenOf(s))), payload, s.priv.Some?))
  }

  /** Whatever the header and fields, a sealed message decodes to them, its MAC and its payload. */
  lemma SealedDecodes(c: Primitives, s: Security, w: Wrapping, rawPdu: bytes)
    requires c.Lawful() && Addressable(w, rawPdu)
    requires w.header.msgId >= 0 && w.header.maxSize >= MIN_MSG_MAX_SIZE && |w.usm.userName| <= MSG_USER_NAME_MAX_LENGTH
    requires Sealed(c, s, w, rawPdu).Some?
    ensures var payload := PayloadOf(c, s, w, rawPdu).value;
            var m := ParseEnvelope(Sealed(c, s, w, rawPdu).value);
            m.Ok? && m.value.header == w.header &&
            m.value.usm == w.usm.(authParams := AuthParamsOf(c, s, w, payload).value) &&
            m.value.scoped == WireScoped(s, w, payload, rawPdu) &&
            m.value.authOffset == SealedOffset(s, w, payload)
  {
    hide MessageBytes, ScopedBytes, ParseEnvelope, AuthPosition, ParseScopedData, Octets, AesIv;
    SealedSizes(c, s, w, rawPdu);
    var payload := PayloadOf(c, s, w, rawPdu).value;
    var u, enc := w.usm.(authParams := Zeros(MacLenOf(s))), s.priv.Some?;
    var authParams := AuthParamsOf(c, s, w, payload).value;
    SigningIsSplice(w.header, u, payload, enc, authParams);
    assert u.(authParams := authParams) == w.usm.(authParams := authParams);
    EnvelopeRoundTrip(w.header, w.usm.(authParams := authParams), payload, enc);
    if enc {
      EncryptedRoundTrip(payload);
    } else {
      ScopedRoundTrip(w.contextEngineId, w.contextName, rawPdu);
    }
  }

  // ----- the agent's own messages -----

  predicate Encodable(f: Frame, s: Security)
  {
    f.boots < TWO_31 && f.time < TWO_31 && FlagsByte(s).Some?
  }

  /** The wrapping of an outbound message: fixed maximum size, flags from the credentials, current engine state. */
  function OwnWrapping(f: Frame, s: Security, salt: bytes): Wrapping
    requires Encodable(f, s)
  {
    var header := Header(f.msgId, MSG_MAX_SIZE_UDP, FlagsByte(s).value, USM_SECURITY_MODEL);
    var usm := Envelope.Usm(f.engineId, f.boots, f.time, f.userName, [], if s.priv.Some? then salt else []);
    Wrapping(header, usm, f.engineId, f.contextName)
  }

  function SecuredMessage(c: Primitives, f: Frame, s: Security, salt: bytes, rawPdu: bytes): Option<bytes>
  {
    if Encodable(f, s) then Sealed(c, s, OwnWrapping(f, s, salt), rawPdu) else None
  }

  predicate Fits(f: Frame, size: nat)
  {
    2 * |f.engineId| + |f.userName| + |f.contextName| + size + 0x2_0000 < TWO_64
  }

  /** `encode_v3_envelope`: encode with a zero placeholder, hash, then overwrite in place. */
  method EncodeV3Envelope(c: Primitives, f: Frame, s: Security, salt: bytes, rawPdu: bytes) returns (r: Option<bytes>)
    requires c.Lawful() && |salt| <= 8 && Fits(f, |rawPdu|)
    ensures r == SecuredMessage(c, f, s, salt, rawPdu)
  {
    hide MessageBytes, ScopedBytes, AuthPosition, AesIv;
    if f.boots >= TWO_31 || f.time >= TWO_31 {
      return None;
    }
    var flags :- FlagsByte(s);
    ghost var w := OwnWrapping(f, s, salt);
    SealedSizes(c, s, w, rawPdu);
    var payload := EncodeScopedPdu(f.engineId, f.contextName, rawPdu);
    var authParams, privParams, encrypted := Zeros(MacLenOf(s)), [], false;
    if s.priv.Some? {
      var iv := AesIv(f.boots, f.time, salt);
      payload :- c.Encrypt(s.priv.value.protocol, s.priv.value.key, iv, payload);
      privParams, encrypted := salt, true;
    }
    var h := Header(f.msgId, MSG_MAX_SIZE_UDP, flags, USM_SECURITY_MODEL);
    var u := Envelope.Usm(f.engineId, f.boots, f.time, f.userName, authParams, privParams);
    assert u == w.usm.(authParams := authParams) && h == w.header;
    var encoded := EncodeV3Message(h, u, payload, encrypted);
    if s.auth.None? {
      return Some(encoded.value.0);
    }
    var mac :- c.ComputeMac(s.auth.value.protocol, s.auth.value.key, encoded.value.0);
    SigningIsSplice(h, u, payload, encrypted, mac);
    r := Some(Splice(encoded.value.0, encoded.value.1.value, mac));
  }

  // ----- responses and Reports -----

  datatype Response = Response(requestId: i32, errorStatus: i32, errorIndex: u32, varbinds: seq<Varbind>)

  function ResponsePdu(r: Response): bytes
    requires r.errorIndex < TWO_31
  {
    Pdus.PduBytes(Pdus.TAG_RESPONSE, r.requestId, r.errorStatus, r.errorIndex, VarbindList(r.varbinds))
  }

  /** `encode_v3_response`. */
  function SecuredResponse(c: Primitives, f: Frame, s: Security, salt: bytes, r: Response): Option<bytes>
  {
    if r.errorIndex >= TWO_31 then None else SecuredMessage(c, f, s, salt, ResponsePdu(r))
  }

  function ReportPdu(msgId: i32, counter: Oid, value: u32): bytes
  {
    Pdus.PduBytes(Pdus.TAG_REPORT, msgId, 0, 0, VarbindList([Varbind(counter, Bound(Counter32(value)))]))
  }

  /** `encode_v3_report`: noAuthNoPriv, empty user and context, the engine's current state. */
  function SecuredReport(c: Primitives, msgId: i32, engineId: bytes, boots: u32, time: u32,
                         counter: Oid, value: u32): Option<bytes>
  {
    var f := Frame(msgId, engineId, [], [], boots, time);
    SecuredMessage(c, f, Security(None, None), [], ReportPdu(msgId, counter, value))
  }

  method EncodeV3Response(c: Primitives, f: Frame, s: Security, salt: bytes, r: Response) returns (out: Option<bytes>)
    requires c.Lawful() && |salt| <= 8 && Fits(f, |VarbindList(r.varbinds)| + 0x1_0000)
    ensures out == SecuredResponse(c, f, s, salt, r)
  {
    hide Pdus.PduBytes, VarbindList, SecuredMessage, LengthSize;
    var list := EncodeVarbinds(r.varbinds);
    if r.errorIndex >= TWO_31 {
      return None;
    }
    var pdu := Pdus.EncodePdu(Pdus.TAG_RESPONSE, r.requestId, r.errorStatus, r.errorIndex, list);
    HeaderCosts();
    PduWithin(Pdus.TAG_RESPONSE, r.requestId, r.errorStatus, r.errorIndex, list, TWO_64 - 1, 10);
    out := EncodeV3Envelope(c, f, s, salt, pdu.value);
  }

  lemma ReportSize(msgId: i32, counter: Oid, value: u32)
    ensures |ReportPdu(msgId, counter, value)| < 0x1_0000
    ensures |VarbindList([Varbind(counter, Bound(Counter32(value)))])| + 18 < 0x1_0000
  {
    hide Tlv, Pdus.PduBytes, LengthSize, BerOid.EncodedOid, BerInteger.EncodeUnsigned32;
    var vb := Varbind(counter, Bound(Counter32(value)));
    HeaderCosts();
    BerOid.EncodedOidBound(counter);
    BerInteger.UnsignedRoundTrip(value);
    TlvWithin(TAG_OID, BerOid.EncodedOid(counter), 0xFFFF, 4);
    TlvWithin(ValueContents(vb.value).0, ValueContents(vb.value).1, 0xFFFF, 4);
    TlvWithin(TAG_SEQUENCE, OidTlv(counter) + ValueTlv(vb.value), 0xFFFF, 4);
    assert ConcatVarbinds([vb]) == VarbindBytes(vb) by {
      assert [vb][1..] == [] && VarbindBytes(vb) + [] == VarbindBytes(vb);
    }
    TlvWithin(TAG_SEQUENCE, ConcatVarbinds([vb]), 0xFFFF, 4);
    PduWithin(Pdus.TAG_REPORT, msgId, 0, 0, VarbindList([vb]), 0xFFFF, 4);
  }

  method EncodeV3Report(c: Primitives, msgId: i32, engineId: bytes, boots: u32, time: u32, counter: Oid, value: u32)
    returns (out: Option<bytes>)
    requires c.Lawful() && |engineId| <= 32
    ensures out == SecuredReport(c, msgId, engineId, boots, time, counter, value)
  {
    hide Pdus.PduBytes, VarbindList, SecuredMessage;
    ReportSize(msgId, counter, value);
    var list := EncodeVarbinds([Varbind(counter, Bound(Counter32(value)))]);
    var pdu := Pdus.EncodePdu(Pdus.TAG_REPORT, msgId, 0, 0, list);
    out := EncodeV3Envelope(c, Frame(msgId, engineId, [], [], boots, time), Security(None, None), [], pdu.value);
  }

  // ----- GETBULK stays within the negotiated size -----

  /** Worst case of everything around the bindings, against an allowance of 512. */
  const ENVELOPE_WORST_CASE := 267

  predicate SmallFrame(f: Frame) { |f.engineId| <= 32 && |f.userName| <= 32 && f.contextName == [] }

  lemma PduWithin(tag: byte, a: i32, b: i32, d: i32, list: bytes, limit: nat, k: nat)
    requires 1 + LengthSize(limit) <= k && |list| + 18 <= limit
    ensures |Pdus.PduBytes(tag, a, b, d, list)| <= |list| + 18 + k
  {
    hide Tlv, Integer, LengthSize;
    IntegerSize(a); IntegerSize(b); IntegerSize(d);
    TlvWithin(tag, Integer(a) + (Integer(b) + (Integer(d) + list)), limit, k);
  }

  /** A response adds at most the worst case to the octets of its bindings. */
  lemma ResponseWithin(c: Primitives, f: Frame, s: Security, salt: bytes, r: Response)
    requires c.Lawful() && |salt| <= 8 && SmallFrame(f)
    requires SecuredResponse(c, f, s, salt, r).Some?
    requires |ConcatVarbinds(r.varbinds)| + Bulk.V3_ENVELOPE_OVERHEAD <= 0xFFFF
    ensures |SecuredResponse(c, f, s, salt, r).value| <= |ConcatVarbinds(r.varbinds)| + ENVELOPE_WORST_CASE
  {
    hide LengthSize, MessageBytes, ScopedBytes, Tlv, ConcatVarbinds, Pdus.PduBytes, AesIv;
    HeaderCosts();
    var list := VarbindList(r.varbinds);
    TlvWithin(TAG_SEQUENCE, ConcatVarbinds(r.varbinds), 0xFFFF, 4);
    var pdu := ResponsePdu(r);
    PduWithin(Pdus.TAG_RESPONSE, r.requestId, r.errorStatus, r.errorIndex, list, 0xFFFF, 4);
    ScopedWithin(f.engineId, f.contextName, pdu, 0xFFFF, 4);
    var w := OwnWrapping(f, s, salt);
    var payload := PayloadOf(c, s, w, pdu).value;
    var u := w.usm.(authParams := AuthParamsOf(c, s, w, payload).value);
    MessageWithin(w.header, u, payload, s.priv.Some?, 0xFFFF, 4);
  }

  function BulkResponse(m: Entries, id: i32, q: Bulk.BulkRequest, cap: u32, maxSize: nat): Response
  {
    Response(id, 0, 0, Bulk.BulkVarbinds(m, q, cap, maxSize))
  }

  lemma EstimatedResponseFits(c: Primitives, f: Frame, s: Security, salt: bytes, r: Response, maxSize: nat)
    requires c.Lawful() && |salt| <= 8 && SmallFrame(f) && SecuredResponse(c, f, s, salt, r).Some?
    requires 484 <= maxSize <= 0xFFFF && Bulk.Estimate(r.varbinds) <= Bulk.Budget(maxSize)
    ensures |SecuredResponse(c, f, s, salt, r).value| <= maxSize
  {
    hide SecuredResponse, ConcatVarbinds, Bulk.Estimate;
    Bulk.EstimateCoversList(r.varbinds);
    ResponseWithin(c, f, s, salt, r);
  }

  /** Once a row is committed, the complete message is within the negotiated size. */
  lemma CommittedRowsFit(c: Primitives, f: Frame, s: Security, salt: bytes,
                         m: Entries, id: i32, q: Bulk.BulkRequest, cap: u32, maxSize: nat)
    requires c.Lawful() && |salt| <= 8 && SmallFrame(f) && 484 <= maxSize <= 0xFFFF
    requires SecuredResponse(c, f, s, salt, BulkResponse(m, id, q, cap, maxSize)).Some?
    requires Bulk.CommittedRows(m, q, cap, maxSize) > 0 || Bulk.Estimate(Bulk.Heads(m, q)) <= Bulk.Budget(maxSize)
    ensures |SecuredResponse(c, f, s, salt, BulkResponse(m, id, q, cap, maxSize)).value| <= maxSize
  {
    hide SecuredResponse, Bulk.Estimate, Bulk.CommittedRows, Bulk.Heads, Bulk.Budget, Bulk.BulkVarbinds;
    Bulk.CommittedEstimate(m, q, cap, maxSize);
    Bulk.EstimateWithinBudgetIff(m, q, cap, maxSize);
    EstimatedResponseFits(c, f, s, salt, BulkResponse(m, id, q, cap, maxSize), maxSize);
  }

  // ----- the exact size of a reply -----

  function ElementSize(n: nat): nat { Bulk.EstimatedTlvSize(n) }

  lemma ElementSizeExact(tag: byte, value: bytes)
    ensures |Tlv(tag, value)| == ElementSize(|value|)
  {
    TlvSize(tag, value);
    Bulk.LengthOfLengthExact(|value|);
  }

  function IntegerElementSize(v: i32): nat { 2 + BerInteger.SignedWidth(v) }

  lemma IntegerSizeExact(v: i32)
    ensures |Integer(v)| == IntegerElementSize(v)
  {
    BerInteger.EncodeSignedWidth(v);
    TlvSize(TAG_INTEGER, BerInteger.EncodeSigned(v));
  }

  function UsmSize(u: Envelope.Usm, macLen: nat): nat
  {
    ElementSize(ElementSize(|u.engineId|) + IntegerElementSize(u.engineBoots) + IntegerElementSize(u.engineTime) +
                ElementSize(|u.userName|) + ElementSize(macLen) + ElementSize(|u.privParams|))
  }

  lemma UsmSizeExact(u: Envelope.Usm)
    ensures |UsmBytes(u)| == UsmSize(u, |u.authParams|)
  {
    hide Tlv, Integer, ElementSize, IntegerElementSize;
    ElementSizeExact(TAG_OCTET_STRING, u.engineId);
    IntegerSizeExact(u.engineBoots);
    IntegerSizeExact(u.engineTime);
    ElementSizeExact(TAG_OCTET_STRING, u.userName);
    ElementSizeExact(TAG_OCTET_STRING, u.authParams);
    ElementSizeExact(TAG_OCTET_STRING, u.privParams);
    ElementSizeExact(TAG_SEQUENCE, UsmContents(u));
  }

  function HeaderSize(h: Header): nat
  {
    ElementSize(IntegerElementSize(h.msgId) + IntegerElementSize(h.maxSize) + 3 + IntegerElementSize(h.securityModel))
  }

  lemma HeaderSizeExact(h: Header)
    ensures |HeaderBytes(h)| == HeaderSize(h)
  {
    hide Tlv, Integer, ElementSize, IntegerElementSize;
    IntegerSizeExact(h.msgId);
    IntegerSizeExact(h.maxSize);
    TlvSize(TAG_OCTET_STRING, [h.flags]);
    IntegerSizeExact(h.securityModel);
    ElementSizeExact(TAG_SEQUENCE, HeaderContents(h));
  }

  function ScopedSize(w: Wrapping, rawPduSize: nat): nat
  {
    ElementSize(ElementSize(|w.contextEngineId|) + ElementSize(|w.contextName|) + rawPduSize)
  }

  lemma ScopedSizeExact(w: Wrapping, rawPdu: bytes)
    ensures |ScopedOf(w, rawPdu)| == ScopedSize(w, |rawPdu|)
  {
    hide Tlv, ElementSize;
    ElementSizeExact(TAG_OCTET_STRING, w.contextEngineId);
    ElementSizeExact(TAG_OCTET_STRING, w.contextName);
    ElementSizeExact(TAG_SEQUENCE, ScopedContents(w.contextEngineId, w.contextName, rawPdu));
  }

  /** Octets of a sealed message, from the lengths of its fields and of the PDU. */
  function SealedSize(s: Security, w: Wrapping, rawPduSize: nat): nat
  {
    var scoped := ScopedSize(w, rawPduSize);
    ElementSize(3 + HeaderSize(w.header) + ElementSize(UsmSize(w.usm, MacLenOf(s))) +
                (if s.priv.Some? then ElementSize(scoped) else scoped))
  }

  lemma SealedSizeExact(c: Primitives, s: Security, w: Wrapping, rawPdu: bytes)
    requires c.Lawful() && Sealed(c, s, w, rawPdu).Some?
    ensures |Sealed(c, s, w, rawPdu).value| == SealedSize(s, w, |rawPdu|)
  {
    hide Tlv, Integer, ElementSize, HeaderBytes, UsmBytes, ScopedBytes, UsmSize, HeaderSize, ScopedSize, AesIv;
    var payload := PayloadOf(c, s, w, rawPdu).value;
    var u := w.usm.(authParams := AuthParamsOf(c, s, w, payload).value);
    assert UsmSize(u, MacLenOf(s)) == UsmSize(w.usm, MacLenOf(s)) by { UsmSizeIgnoresMac(u, w.usm, MacLenOf(s)); }
    UsmSizeExact(u);
    HeaderSizeExact(w.header);
    ScopedSizeExact(w, rawPdu);
    VersionSize();
    ElementSizeExact(TAG_OCTET_STRING, UsmBytes(u));
    ElementSizeExact(TAG_OCTET_STRING, payload);
    ElementSizeExact(TAG_SEQUENCE, MessageContents(w.header, u, payload, s.priv.Some?));
  }

  lemma UsmSizeIgnoresMac(u: Envelope.Usm, v: Envelope.Usm, macLen: nat)
    requires u == v.(authParams := u.authParams)
    ensures UsmSize(u, macLen) == UsmSize(v, macLen)
  {}

  lemma VersionSize()
    ensures |Integer(SNMPV3_VERSION)| == 3
  {
    IntegerSizeExact(SNMPV3_VERSION);
  }

  /** Octets of a response whose bindings take `n` octets: arithmetic on field lengths alone. */
  function ReplySize(f: Frame, s: Security, salt: bytes, requestId: i32, n: nat): nat
    requires Encodable(f, s)
  {
    SealedSize(s, OwnWrapping(f, s, salt), ElementSize(IntegerElementSize(requestId) + 6 + ElementSize(n)))
  }

  lemma ReplySizeExact(c: Primitives, f: Frame, s: Security, salt: bytes, requestId: i32, varbinds: seq<Varbind>)
    requires c.Lawful() && SecuredResponse(c, f, s, salt, Response(requestId, 0, 0, varbinds)).Some?
    ensures |SecuredResponse(c, f, s, salt, Response(requestId, 0, 0, varbinds)).value| ==
            ReplySize(f, s, salt, requestId, |ConcatVarbinds(varbinds)|)
  {
    hide Tlv, Integer, ElementSize, IntegerElementSize, ConcatVarbinds, Sealed, SealedSize, OwnWrapping;
    var list := VarbindList(varbinds);
    ElementSizeExact(TAG_SEQUENCE, ConcatVarbinds(varbinds));
    IntegerSizeExact(requestId);
    ZeroSize();
    ElementSizeExact(Pdus.TAG_RESPONSE, Integer(requestId) + (Integer(0) + (Integer(0) + list)));
    SealedSizeExact(c, s, OwnWrapping(f, s, salt), ResponsePdu(Response(requestId, 0, 0, varbinds)));
  }

  lemma ZeroSize()
    ensures |Integer(0)| == 3
  {
    IntegerSizeExact(0);
  }

  lemma ElementSizeMono(m: nat, n: nat)
    requires m <= n
    ensures ElementSize(m) <= ElementSize(n)
  {
    Bulk.LengthOfLengthExact(m);
    Bulk.LengthOfLengthExact(n);
    LengthSizeMono(m, n);
  }

  /** More octets of bindings never make a shorter reply, so a size limit is a limit on the bindings. */
  lemma ReplySizeMono(f: Frame, s: Security, salt: bytes, requestId: i32, m: nat, n: nat)
    requires Encodable(f, s) && m <= n
    ensures ReplySize(f, s, salt, requestId, m) <= ReplySize(f, s, salt, requestId, n)
  {
    hide ElementSize, IntegerElementSize, UsmSize, HeaderSize;
    var w := OwnWrapping(f, s, salt);
    var a, b := IntegerElementSize(requestId) + 6 + ElementSize(m), IntegerElementSize(requestId) + 6 + ElementSize(n);
    ElementSizeMono(m, n);
    ElementSizeMono(a, b);
    var context := ElementSize(|w.contextEngineId|) + ElementSize(|w.contextName|);
    ElementSizeMono(context + ElementSize(a), context + ElementSize(b));
    var x, y := ScopedSize(w, ElementSize(a)), ScopedSize(w, ElementSize(b));
    ElementSizeMono(x, y);
    var p, q := if s.priv.Some? then ElementSize(x) else x, if s.priv.Some? then ElementSize(y) else y;
    var fixed := 3 + HeaderSize(w.header) + ElementSize(UsmSize(w.usm, MacLenOf(s)));
    ElementSizeMono(fixed + p, fixed + q);
  }

  /**
    * The size limit is kept exactly when the octets of the non-repeaters' answers leave room for the
    * envelope: rows are never the cause of an overrun.
    */
  lemma BulkFitsIffHeadsFit(c: Primitives, f: Frame, s: Security, salt: bytes,
                            m: Entries, id: i32, q: Bulk.BulkRequest, cap: u32, maxSize: nat)
    requires c.Lawful() && |salt| <= 8 && SmallFrame(f) && 484 <= maxSize <= 0xFFFF
    requires SecuredResponse(c, f, s, salt, BulkResponse(m, id, q, cap, maxSize)).Some?
    ensures |SecuredResponse(c, f, s, salt, BulkResponse(m, id, q, cap, maxSize)).value| <= maxSize <==>
            ReplySize(f, s, salt, id, |ConcatVarbinds(Bulk.Heads(m, q))|) <= maxSize
  {
    hide Sealed, Bulk.CommittedRows, Bulk.Heads, Bulk.BulkVarbinds, ConcatVarbinds, ReplySize, Encodable;
    var all, heads := Bulk.BulkVarbinds(m, q, cap, maxSize), Bulk.Heads(m, q);
    ReplySizeExact(c, f, s, salt, id, all);
    HeadsWithinBulk(m, q, cap, maxSize);
    if Bulk.CommittedRows(m, q, cap, maxSize) > 0 {
      CommittedRowsFit(c, f, s, salt, m, id, q, cap, maxSize);
      ReplySizeMono(f, s, salt, id, |ConcatVarbinds(heads)|, |ConcatVarbinds(all)|);
    }
  }

  lemma HeadsWithinBulk(m: Entries, q: Bulk.BulkRequest, cap: u32, maxSize: nat)
    ensures |ConcatVarbinds(Bulk.Heads(m, q))| <= |ConcatVarbinds(Bulk.BulkVarbinds(m, q, cap, maxSize))|
    ensures Bulk.CommittedRows(m, q, cap, maxSize) == 0 ==> Bulk.BulkVarbinds(m, q, cap, maxSize) == Bulk.Heads(m, q)
  {
    hide Bulk.CommittedRows, Bulk.Heads, Bulk.Rows, ConcatVarbinds;
    var heads, rows := Bulk.Heads(m, q), Bulk.Rows(m, Bulk.Columns(q), Bulk.CommittedRows(m, q, cap, maxSize));
    ConcatVarbindsAppend(heads, rows);
    Bulk.NoRows(m, Bulk.Columns(q), 0, 0);
    assert heads + [] == heads;
  }

  lemma ResponseAtLeast(c: Primitives, f: Frame, r: Response)
    requires SecuredResponse(c, f, Security(None, None), [], r).Some?
    ensures |SecuredResponse(c, f, Security(None, None), [], r).value| >= |ConcatVarbinds(r.varbinds)|
  {
    hide Integer, HeaderBytes, UsmBytes, ConcatVarbinds, EncodedLength;
  }

  /** A 600-octet value behind one non-repeater overruns a limit of 484. */
  lemma NonRepeatersOverrun(c: Primitives, f: Frame, id: i32, cap: u32)
    requires Encodable(f, Security(None, None))
    ensures var m: Entries := map[[1, 3] := OctetString(Zeros(600))];
            var q := Bulk.BulkRequest(1, 0, [Varbind([0, 0], Unspecified)]);
            var sent := SecuredResponse(c, f, Security(None, None), [], BulkResponse(m, id, q, cap, 484));
            sent.Some? && |sent.value| > 484
  {
    hide MessageBytes, ScopedBytes, Pdus.PduBytes, Tlv, ConcatVarbinds, Resolve;
    var m: Entries := map[[1, 3] := OctetString(Zeros(600))];
    var q := Bulk.BulkRequest(1, 0, [Varbind([0, 0], Unspecified)]);
    var vb := Varbind([1, 3], Bound(OctetString(Zeros(600))));
    SingleEntryNext(m, vb);
    assert Bulk.Heads(m, q) == [vb];
    assert Bulk.BulkVarbinds(m, q, cap, 484) == [vb];
    SingleVarbind(vb);
    assert FlagsByte(Security(None, None)).Some?;
    ResponseAtLeast(c, f, BulkResponse(m, id, q, cap, 484));
  }

  lemma SingleEntryNext(m: Entries, vb: Varbind)
    requires vb == Varbind([1, 3], Bound(OctetString(Zeros(600)))) && m == map[[1, 3] := OctetString(Zeros(600))]
    ensures Resolve(m, [0, 0]) == vb
  {
    assert Less([0, 0], [1, 3]);
    assert [1, 3] in Above(m, [0, 0]);
  }

  lemma SingleVarbind(vb: Varbind)
    requires vb == Varbind([1, 3], Bound(OctetString(Zeros(600))))
    ensures |ConcatVarbinds([vb])| > 600
  {
    hide Tlv, OidTlv;
    assert [vb][1..] == [];
  }
}
