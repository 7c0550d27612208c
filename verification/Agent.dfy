/** Properties of the whole agent: what the pipeline admits, what it counts, what it answers. */
module Agent {
  import opened Bytes
  import opened Oids
  import opened Ber
  import opened Varbinds
  import opened Mib
  import opened Envelope
  import opened Usm
  import opened Outbound
  import opened Dispatch
  import Pdus
  import Bulk
  import Boots
  import Framing

  // ----- the gate -----

  /** What a message must satisfy to reach a handler with `pdu`, with no order among the conditions. */
  predicate Authorised(c: Primitives, e: Engine, m: Inbound, pdu: Pdus.InboundPdu)
  {
    && m.securityModel == USM_SECURITY_MODEL
    && m.authEngineId != [] && m.engineId == e.engineId && m.contextName == []
    && (e.user.Some? ==> m.userName == e.user.value.name)
    && LevelOf(m.flags).Some? && e.floor.Rank() <= LevelOf(m.flags).value.Rank() <= Ceiling(e.user).Rank()
    && (IsPriv(m.flags) <==> m.scoped.Cipher?)
    && (UserAuth(e).Some? ==>
          HmacValid(c, UserAuth(e).value, m) && InTimeWindow(m.authBoots, m.authTime, e.boots, e.time))
    && (match m.scoped
        case PlainPdu(p) => p == pdu
        case Cipher(_) => Recovered(c, e, m) == Some((e.engineId, [], pdu)))
  }

  /** The ordered pipeline admits exactly the authorised messages, always under the default context. */
  lemma GateExact(c: Primitives, e: Engine, m: Inbound)
    ensures forall pdu :: Authorised(c, e, m, pdu) <==> GateOf(c, e, m) == Admit(pdu, [])
    ensures GateOf(c, e, m).Admit? ==> GateOf(c, e, m).contextName == []
  {
    hide HmacValid, Recovered, InTimeWindow, ShouldReject, LevelOf, Ceiling;
    LevelWindow(e.user, e.floor, m.flags);
  }

  /** Without authorisation neither the MIB nor the salt can influence the answer. */
  lemma MibGated(c: Primitives, e: Engine, counters: Counters, frame: bytes,
                 mib: Entries, mib': Entries, salt: bytes, salt': bytes)
    requires InboundOf(frame).Ok? ==> forall pdu :: !Authorised(c, e, InboundOf(frame).value, pdu)
    ensures Process(c, e, counters, mib, salt, frame) == Process(c, e, counters, mib', salt', frame)
  {
    hide Authorised, GateOf, InboundOf, Settle, Reply;
    if InboundOf(frame).Ok? { GateExact(c, e, InboundOf(frame).value); }
  }

  // ----- the counters -----

  /** The counter a frame moves, if any. */
  function CountedBy(c: Primitives, e: Engine, frame: bytes): Option<Counter>
  {
    match InboundOf(frame)
    case Err(_) => None
    case Ok(m) =>
      match GateOf(c, e, m)
      case Refuse(Count(k)) => Some(k)
      case _ => None
  }

  /** The counters after a frame: one of them up by one, or all as before. */
  lemma CounterMoves(c: Primitives, e: Engine, counters: Counters, mib: Entries, salt: bytes, frame: bytes)
    ensures Process(c, e, counters, mib, salt, frame).0 ==
            match CountedBy(c, e, frame) case None => counters case Some(k) => counters.Bump(k)
  {
    hide GateOf, InboundOf, Reply, SecuredReport, Counters.Bump;
  }

  /** A frame moves at most one counter, by one; then the answer is its Report or silence, never a MIB response. */
  lemma OneCounterPerFrame(c: Primitives, e: Engine, counters: Counters, mib: Entries, salt: bytes, frame: bytes)
    ensures var (after, answer) := Process(c, e, counters, mib, salt, frame);
            match CountedBy(c, e, frame)
            case None => after == counters
            case Some(k) =>
              after == counters.Bump(k) && InboundOf(frame).Ok? &&
              (forall pdu :: !Authorised(c, e, InboundOf(frame).value, pdu)) &&
              var m := InboundOf(frame).value;
              (answer.Some? <==> IsReportable(m.flags) && e.boots < TWO_31 && e.time < TWO_31) &&
              (answer.Some? ==>
                 answer == SecuredReport(c, m.msgId, e.engineId, e.boots, e.time, CounterOid(k), after.Get(k)))
  {
    hide Authorised, GateOf, InboundOf, Reply, MessageBytes, ScopedBytes, ReportPdu;
    if InboundOf(frame).Ok? { GateExact(c, e, InboundOf(frame).value); }
  }

  /** One frame with the engine state, store contents and salt of its moment. */
  datatype Arrival = Arrival(engine: Engine, mib: Entries, salt: bytes, frame: bytes)

  function CountersAfter(c: Primitives, counters: Counters, run: seq<Arrival>): Counters
  {
    if run == [] then counters
    else
      var last := run[|run| - 1];
      Process(c, last.engine, CountersAfter(c, counters, run[..|run| - 1]), last.mib, last.salt, last.frame).0
  }

  lemma {:induction false} CountersMonotone(c: Primitives, counters: Counters, run: seq<Arrival>, i: nat, k: Counter)
    requires i <= |run|
    ensures CountersAfter(c, counters, run[..i]).Get(k) <= CountersAfter(c, counters, run).Get(k)
    decreases |run|
  {
    hide Process, CountedBy, Counters.Bump, Counters.Get;
    if i < |run| {
      var front, last := run[..|run| - 1], run[|run| - 1];
      CountersMonotone(c, counters, front, i, k);
      assert front[..i] == run[..i];
      CounterMoves(c, last.engine, CountersAfter(c, counters, front), last.mib, last.salt, last.frame);
    } else {
      assert run[..i] == run;
    }
  }

  // ----- Reports -----

  /** What a receiver reads from a Report: the counter's OID and its value. */
  function ReportedValue(sent: bytes): Option<(Oid, u32)>
  {
    match ParseEnvelope(sent)
    case Err(_) => None
    case Ok(m) => if m.scoped.Plaintext? then ReportedIn(m.scoped.rawPdu) else None
  }

  function ReportedIn(rawPdu: bytes): Option<(Oid, u32)>
  {
    match Pdus.ParsePdu(rawPdu)
    case Ok(Standard(tag, _, list)) =>
      if tag != Pdus.TAG_REPORT then None else
      (match DecodeVarbinds(list)
       case Ok(vbs) =>
         if |vbs| == 1 && vbs[0].value.Bound? && vbs[0].value.value.Counter32?
         then Some((vbs[0].oid, vbs[0].value.value.counter)) else None
       case Err(_) => None)
    case _ => None
  }

  /** A receiver of a Report reads the engine's boots and time, the counter's OID and the counted value. */
  lemma ReportDecodes(c: Primitives, msgId: i32, engineId: bytes, boots: u32, time: u32, counter: Oid, value: u32)
    requires c.Lawful() && msgId >= 0 && |engineId| <= 32 && boots < TWO_31 && time < TWO_31
    ensures var sent := SecuredReport(c, msgId, engineId, boots, time, counter, value);
            sent.Some? && ReportedValue(sent.value) == Some((counter, value)) &&
            var m := ParseEnvelope(sent.value);
            m.Ok? && m.value.header == Header(msgId, 65535, 0, 3) &&
            m.value.usm == Envelope.Usm(engineId, boots, time, [], [], []) && m.value.scoped.Plaintext? &&
            m.value.scoped.contextEngineId == engineId && m.value.scoped.contextName == [] &&
            var pdu := Pdus.ParsePdu(m.value.scoped.rawPdu);
            pdu.Ok? && pdu.value.requestId == msgId
  {
    hide MessageBytes, ScopedBytes, ParseEnvelope, Pdus.ParsePdu, Pdus.PduBytes, DecodeVarbinds, VarbindList,
         Pdus.IsSequenceTlv;
    var f := Frame(msgId, engineId, [], [], boots, time);
    var vbs := [Varbind(counter, Bound(Counter32(value)))];
    ReportSize(msgId, counter, value);
    var w := OwnWrapping(f, Security(None, None), []);
    SealedDecodes(c, Security(None, None), w, ReportPdu(msgId, counter, value));
    Pdus.VarbindListIsSequence(vbs);
    Pdus.PduRoundTrip(Pdus.TAG_REPORT, msgId, 0, 0, VarbindList(vbs));
    VarbindListRoundTrip(vbs);
  }

  /** A counted frame is answered iff its sender asks for a Report, and the Report carries the new value. */
  lemma CountedIsReported(c: Primitives, e: Engine, counters: Counters, mib: Entries, salt: bytes, frame: bytes)
    requires c.Lawful() && |e.engineId| <= 32 && CountedBy(c, e, frame).Some?
    ensures var k := CountedBy(c, e, frame).value;
            var (after, answer) := Process(c, e, counters, mib, salt, frame);
            after == counters.Bump(k) && InboundOf(frame).Ok? &&
            (answer.Some? <==> IsReportable(InboundOf(frame).value.flags) && e.boots < TWO_31 && e.time < TWO_31) &&
            (answer.Some? ==> ReportedValue(answer.value) == Some((CounterOid(k), after.Get(k))))
  {
    hide Process, CountedBy, InboundOf, ReportedValue, SecuredReport, Authorised, Primitives.Lawful;
    OneCounterPerFrame(c, e, counters, mib, salt, frame);
    DecodedRanges(frame);
    if Process(c, e, counters, mib, salt, frame).1.Some? {
      var k, m := CountedBy(c, e, frame).value, InboundOf(frame).value;
      ReportDecodes(c, m.msgId, e.engineId, e.boots, e.time, CounterOid(k), counters.Bump(k).Get(k));
    }
  }

  /** The answer to arrival `i` of a run. */
  function AnswerAt(c: Primitives, counters: Counters, run: seq<Arrival>, i: nat): Option<bytes>
    requires i < |run|
  {
    Process(c, run[i].engine, CountersAfter(c, counters, run[..i]), run[i].mib, run[i].salt, run[i].frame).1
  }

  /** Over any run, the values in the Reports sent for one counter strictly increase until it saturates. */
  lemma ReportedValuesIncrease(c: Primitives, counters: Counters, run: seq<Arrival>, i: nat, j: nat, k: Counter)
    requires c.Lawful() && i < j < |run| && |run[i].engine.engineId| <= 32 && |run[j].engine.engineId| <= 32
    requires CountedBy(c, run[i].engine, run[i].frame) == Some(k) == CountedBy(c, run[j].engine, run[j].frame)
    requires AnswerAt(c, counters, run, i).Some? && AnswerAt(c, counters, run, j).Some?
    ensures var earlier := ReportedValue(AnswerAt(c, counters, run, i).value);
            var later := ReportedValue(AnswerAt(c, counters, run, j).value);
            earlier.Some? && later.Some? && earlier.value.0 == later.value.0 == CounterOid(k) &&
            (earlier.value.1 < later.value.1 || later.value.1 == TWO_32 - 1)
  {
    hide Process, CountedBy, Counters.Bump, Counters.Get, ReportedValue, InboundOf, Primitives.Lawful, CounterOid;
    var upToI := run[..i + 1];
    assert upToI[..i] == run[..i] && run[..j][..i + 1] == upToI;
    CountersMonotone(c, counters, run[..j], i + 1, k);
    var a, b := run[i], run[j];
    CountedIsReported(c, a.engine, CountersAfter(c, counters, run[..i]), a.mib, a.salt, a.frame);
    CountedIsReported(c, b.engine, CountersAfter(c, counters, run[..j]), b.mib, b.salt, b.frame);
  }

  // ----- authentication -----

  /** On every decoded message the zeroing is in range and touches the field alone. */
  lemma ZeroingIsExact(frame: bytes)
    requires InboundOf(frame).Ok? && InboundOf(frame).value.authOffset.Some?
    ensures var m := InboundOf(frame).value;
            var at, n := m.authOffset.value, |m.authParams|;
            m.authParams != [] && IsSliceAt(frame, at, m.authParams) &&
            Zeroed(frame, at, n) == Splice(frame, at, Zeros(n)) &&
            Splice(Zeroed(frame, at, n), at, m.authParams) == frame
  {
    hide ParseEnvelope, ScopedOfWire, Splice;
    OffsetLocatesAuthParams(frame);
    var m := InboundOf(frame).value;
    SpliceUndo(frame, m.authOffset.value, m.authParams, Zeros(|m.authParams|));
  }

  /** The verifier hashes exactly the octets the signer hashed, so a signed message verifies under its own key. */
  lemma SignedMessageVerifies(c: Primitives, s: Security, w: Wrapping, rawPdu: bytes)
    requires c.Lawful() && Addressable(w, rawPdu) && s.auth.Some? && Sealed(c, s, w, rawPdu).Some?
    requires w.header.msgId >= 0 && w.header.maxSize >= MIN_MSG_MAX_SIZE && |w.usm.userName| <= MSG_USER_NAME_MAX_LENGTH
    ensures var sent := Sealed(c, s, w, rawPdu).value;
            ParseEnvelope(sent).Ok? &&
            var m := ParseEnvelope(sent).value;
            m.authOffset.Some? &&
            var hashed := Zeroed(sent, m.authOffset.value, |m.usm.authParams|);
            hashed == Placeholder(s, w, PayloadOf(c, s, w, rawPdu).value) &&
            c.VerifyMac(s.auth.value.protocol, s.auth.value.key, hashed, m.usm.authParams)
  {
    hide MessageBytes, ParseEnvelope, AuthPosition, WireScoped, PayloadOf, Splice;
    SealedDecodes(c, s, w, rawPdu);
    var payload := PayloadOf(c, s, w, rawPdu).value;
    var u, zeros := w.usm.(authParams := AuthParamsOf(c, s, w, payload).value), Zeros(MacLenOf(s));
    assert u.(authParams := zeros) == w.usm.(authParams := zeros);
    SigningIsSplice(w.header, u, payload, s.priv.Some?, zeros);
  }

  /**
    * For an agent with auth credentials: if any two stores or salts make a difference to what a frame
    * does, the frame is its zeroed form with that form's MAC under the agent's key spliced in, and its
    * stamp is in the window.
    */
  lemma OnlyAuthenticFramesReadTheStore(c: Primitives, e: Engine, counters: Counters, frame: bytes,
                                        mib: Entries, mib': Entries, salt: bytes, salt': bytes)
    requires UserAuth(e).Some?
    requires Process(c, e, counters, mib, salt, frame) != Process(c, e, counters, mib', salt', frame)
    ensures InboundOf(frame).Ok? && InboundOf(frame).value.authOffset.Some?
    ensures var cred, m := UserAuth(e).value, InboundOf(frame).value;
            var at := m.authOffset.value;
            var hashed := Zeroed(frame, at, cred.protocol.MacLen());
            var mac := c.mac(cred.protocol, cred.key, hashed);
            |mac| == cred.protocol.MacLen() && at + |mac| <= |frame| && frame == Splice(hashed, at, mac) &&
            InTimeWindow(m.authBoots, m.authTime, e.boots, e.time)
  {
    hide Process, InboundOf, InTimeWindow, Recovered, LevelOf, Ceiling, Splice, Zeroed;
    if InboundOf(frame).Err? || forall pdu :: !Authorised(c, e, InboundOf(frame).value, pdu) {
      MibGated(c, e, counters, frame, mib, mib', salt, salt');
    } else {
      DecodedRanges(frame);
      ZeroingIsExact(frame);
    }
  }

  // ----- agents as the builder makes them -----

  /** The dispatch state of an agent built from `config`. */
  function BuiltEngine(config: SecurityConfig, engineId: bytes, boots: u32, time: u32): Engine
  {
    Engine(engineId, boots, time, config.ConfiguredUser(), config.Floor())
  }

  /** Requests are admitted at the configured level only, and replies are flagged with that level. */
  lemma OneLevelBothWays(config: SecurityConfig, c: Primitives, e: Engine, m: Inbound, pdu: Pdus.InboundPdu)
    requires config.Consistent() && e == BuiltEngine(config, e.engineId, e.boots, e.time)
    requires Authorised(c, e, m, pdu)
    ensures LevelOf(m.flags) == Some(config.Floor())
    ensures FlagsByte(ReplySecurity(e)).Some? && LevelOf(FlagsByte(ReplySecurity(e)).value) == Some(config.Floor())
    ensures config.Floor() != NoAuthNoPriv ==>
              m.userName == e.user.value.name && HmacValid(c, UserAuth(e).value, m) &&
              InTimeWindow(m.authBoots, m.authTime, e.boots, e.time)
  {
    hide HmacValid, Recovered, InTimeWindow;
  }

  lemma DecodedRanges(frame: bytes)
    requires InboundOf(frame).Ok?
    ensures var m := InboundOf(frame).value;
            m.msgId >= 0 && m.maxSize >= MIN_MSG_MAX_SIZE && |m.userName| <= MSG_USER_NAME_MAX_LENGTH && m.raw == frame
  {
    hide Expect, ExpectInteger, ParseTlv, ParseHeader, ParseUsm, ParseScopedData, ScopedOfWire;
  }

  // ----- messages on the wire -----

  /** A message whose header and user name decode; in the clear it carries request `p`, else any ciphertext. */
  predicate OnWire(w: Wrapping, payload: bytes, encrypted: bool, p: Pdus.InboundPdu)
  {
    && w.header.msgId >= 0 && w.header.maxSize >= MIN_MSG_MAX_SIZE && |w.usm.userName| <= MSG_USER_NAME_MAX_LENGTH
    && |WireBytes(w, payload, encrypted)| < TWO_64
    && (!encrypted ==> Writable(p) && payload == ScopedOf(w, Pdus.RequestBytes(p)) &&
                       |payload| < TWO_64 && |VarbindList(p.varbinds)| + 18 < TWO_64)
  }

  predicate Writable(p: Pdus.InboundPdu)
  {
    p.GetBulkRequest? ==> p.nonRepeaters < TWO_31 && p.maxRepetitions < TWO_31
  }

  function WireBytes(w: Wrapping, payload: bytes, encrypted: bool): bytes
  {
    MessageBytes(w.header, w.usm, payload, encrypted)
  }

  /** The record such a message decodes to. */
  function Arrived(w: Wrapping, payload: bytes, encrypted: bool, p: Pdus.InboundPdu): Inbound
  {
    Inbound(w.header.msgId, w.header.maxSize, w.header.securityModel, w.header.flags,
            if encrypted then w.usm.engineId else w.contextEngineId, if encrypted then [] else w.contextName,
            w.usm.userName, if encrypted then Cipher(payload) else PlainPdu(p),
            w.usm.engineId, WireUnsigned(w.usm.engineBoots), WireUnsigned(w.usm.engineTime), w.usm.authParams,
            if |w.usm.privParams| == 8 then Some(w.usm.privParams) else None,
            WireBytes(w, payload, encrypted),
            if w.usm.authParams == [] then None else Some(|AuthPrefix(w.header, w.usm, payload, encrypted)|))
  }

  lemma WireDecodes(w: Wrapping, payload: bytes, encrypted: bool, p: Pdus.InboundPdu)
    requires OnWire(w, payload, encrypted, p)
    ensures InboundOf(WireBytes(w, payload, encrypted)) == Ok(Arrived(w, payload, encrypted, p))
  {
    hide MessageBytes, ScopedBytes, ParseEnvelope, AuthPosition, AuthPrefix, ParseScopedData, Octets,
         Pdus.RequestBytes, Pdus.ParseInbound;
    EnvelopeRoundTrip(w.header, w.usm, payload, encrypted);
    MessageSplit(w.header, w.usm, payload, encrypted);
    if encrypted {
      assert |payload| < TWO_64 by { PayloadShorter(w, payload); }
      EncryptedRoundTrip(payload);
    } else {
      ScopedRoundTrip(w.contextEngineId, w.contextName, Pdus.RequestBytes(p));
      Pdus.RequestRoundTrip(p);
    }
  }

  lemma PayloadShorter(w: Wrapping, payload: bytes)
    ensures |payload| <= |WireBytes(w, payload, true)|
  {
    hide HeaderBytes, UsmBytes, Integer;
  }

  /** The MAC field holds the MAC, under these credentials, of the message with the field zeroed. */
  predicate SignedBy(c: Primitives, cred: AuthCredentials, w: Wrapping, payload: bytes, encrypted: bool)
  {
    var n := cred.protocol.MacLen();
    var blank := WireBytes(w.(usm := w.usm.(authParams := Zeros(n))), payload, encrypted);
    |cred.key| == cred.protocol.KeyLen() && |w.usm.authParams| == n &&
    w.usm.authParams == c.mac(cred.protocol, cred.key, blank)
  }

  lemma ArrivedHmac(c: Primitives, cred: AuthCredentials, w: Wrapping, payload: bytes, encrypted: bool,
                    p: Pdus.InboundPdu)
    ensures HmacValid(c, cred, Arrived(w, payload, encrypted, p)) <==> SignedBy(c, cred, w, payload, encrypted)
  {
    hide MessageBytes, AuthPosition, AuthPrefix, Splice;
    MessageSplit(w.header, w.usm, payload, encrypted);
    SigningIsSplice(w.header, w.usm, payload, encrypted, Zeros(|w.usm.authParams|));
  }

  // ----- defective messages -----

  /** What the counter stands for is in order, told from the fields of the message. */
  predicate Meets(c: Primitives, e: Engine, w: Wrapping, payload: bytes, encrypted: bool, p: Pdus.InboundPdu,
                  k: Counter)
  {
    match k
    case UnknownSecurityModels => w.header.securityModel == USM_SECURITY_MODEL
    case UnknownEngineIds =>
      w.usm.engineId != [] && (if encrypted then w.usm.engineId else w.contextEngineId) == e.engineId
    case UnknownUserNames => e.user.Some? ==> w.usm.userName == e.user.value.name
    case UnsupportedSecLevels =>
      LevelOf(w.header.flags).Some? && e.floor.Rank() <= LevelOf(w.header.flags).value.Rank() <= Ceiling(e.user).Rank()
    case WrongDigests => UserAuth(e).Some? ==> SignedBy(c, UserAuth(e).value, w, payload, encrypted)
    case NotInTimeWindows =>
      UserAuth(e).Some? ==>
        InTimeWindow(WireUnsigned(w.usm.engineBoots), WireUnsigned(w.usm.engineTime), e.boots, e.time)
    case DecryptionErrors => encrypted ==> Recovered(c, e, Arrived(w, payload, encrypted, p)).Some?
  }

  /** The order in which the standards have a message checked (sections 7.2 of RFC 3412 and 3.2 of RFC 3414). */
  function Order(k: Counter): nat
  {
    match k
    case UnknownSecurityModels => 0
    case UnknownEngineIds => 1
    case UnknownUserNames => 2
    case UnsupportedSecLevels => 3
    case WrongDigests => 4
    case NotInTimeWindows => 5
    case DecryptionErrors => 6
  }

  /**
    * From octets to octets: of all the defects of a message the first in order is counted, once, and
    * exactly a sender who sets reportableFlag reads that counter and its new value from the answer.
    */
  lemma FirstDefectIsReported(c: Primitives, e: Engine, w: Wrapping, payload: bytes, encrypted: bool,
                              p: Pdus.InboundPdu, k: Counter, counters: Counters, mib: Entries, salt: bytes)
    requires c.Lawful() && |e.engineId| <= 32
    requires OnWire(w, payload, encrypted, p) && !Meets(c, e, w, payload, encrypted, p, k)
    requires forall j :: Order(j) < Order(k) ==> Meets(c, e, w, payload, encrypted, p, j)
    requires Order(k) > 3 ==> (IsPriv(w.header.flags) <==> encrypted)
    requires Order(k) > 5 && !encrypted ==> w.contextName == []
    ensures var (after, answer) := Process(c, e, counters, mib, salt, WireBytes(w, payload, encrypted));
            after == counters.Bump(k) &&
            (answer.Some? <==> IsReportable(w.header.flags) && e.boots < TWO_31 && e.time < TWO_31) &&
            (answer.Some? ==> ReportedValue(answer.value) == Some((CounterOid(k), after.Get(k))))
  {
    hide Process, InboundOf, ReportedValue, Primitives.Lawful, CounterOid, OnWire, GateOf, Meets, WireBytes, AuthPrefix,
         Counters.Bump, Counters.Get, IsReportable, IsPriv;
    WireDecodes(w, payload, encrypted, p);
    FirstDefectDecides(c, e, w, payload, encrypted, p, k);
    CountedIsReported(c, e, counters, mib, salt, WireBytes(w, payload, encrypted));
  }

  lemma FirstDefectDecides(c: Primitives, e: Engine, w: Wrapping, payload: bytes, encrypted: bool, p: Pdus.InboundPdu,
                           k: Counter)
    requires !Meets(c, e, w, payload, encrypted, p, k)
    requires forall j :: Order(j) < Order(k) ==> Meets(c, e, w, payload, encrypted, p, j)
    requires Order(k) > 3 ==> (IsPriv(w.header.flags) <==> encrypted)
    requires Order(k) > 5 && !encrypted ==> w.contextName == []
    ensures GateOf(c, e, Arrived(w, payload, encrypted, p)) == Refuse(Count(k))
  {
    hide HmacValid, SignedBy, Recovered, InTimeWindow, WireBytes, AuthPrefix, LevelOf, ShouldReject;
    LevelWindow(e.user, e.floor, w.header.flags);
    PrivacyNeedsKey(e, w.header.flags);
    hide Ceiling;
    if UserAuth(e).Some? { ArrivedHmac(c, UserAuth(e).value, w, payload, encrypted, p); }
    assert Order(k) > 0 ==> Meets(c, e, w, payload, encrypted, p, UnknownSecurityModels);
    assert Order(k) > 1 ==> Meets(c, e, w, payload, encrypted, p, UnknownEngineIds);
    assert Order(k) > 2 ==> Meets(c, e, w, payload, encrypted, p, UnknownUserNames);
    assert Order(k) > 3 ==> Meets(c, e, w, payload, encrypted, p, UnsupportedSecLevels);
    assert Order(k) > 4 ==> Meets(c, e, w, payload, encrypted, p, WrongDigests);
    assert Order(k) > 5 ==> Meets(c, e, w, payload, encrypted, p, NotInTimeWindows);
  }

  /** A level with privacy that the ceiling admits comes with a privacy key. */
  lemma PrivacyNeedsKey(e: Engine, flags: byte)
    ensures LevelOf(flags).Some? && LevelOf(flags).value.Rank() <= Ceiling(e.user).Rank() && IsPriv(flags) ==>
              UserPriv(e).Some?
  {}

  // ----- silent discards -----

  lemma DropIsSilent(c: Primitives, e: Engine, m: Inbound, counters: Counters, mib: Entries, salt: bytes, frame: bytes)
    requires InboundOf(frame) == Ok(m) && GateOf(c, e, m) == Refuse(Drop)
    ensures Process(c, e, counters, mib, salt, frame) == (counters, None)
  {
    hide InboundOf, GateOf, Reply;
  }

  /** Octets that do not decode are dropped without counter or answer. */
  lemma MalformedIsSilent(c: Primitives, e: Engine, counters: Counters, mib: Entries, salt: bytes, frame: bytes)
    requires InboundOf(frame).Err?
    ensures Process(c, e, counters, mib, salt, frame) == (counters, None)
  {
    hide InboundOf, GateOf, Reply;
  }

  /** privFlag and payload disagree. */
  predicate FlagMismatch(w: Wrapping, encrypted: bool) { IsPriv(w.header.flags) != encrypted }

  /** Another context than the default one, in the clear or inside the ciphertext. */
  predicate OtherContext(c: Primitives, e: Engine, w: Wrapping, payload: bytes, encrypted: bool, p: Pdus.InboundPdu)
  {
    var inner := Arrived(w, payload, encrypted, p);
    if encrypted
    then Recovered(c, e, inner).Some? &&
         Recovered(c, e, inner).value.0 == e.engineId && Recovered(c, e, inner).value.1 != []
    else w.contextName != []
  }

  /** A ciphertext that decrypts to a PDU for another engine. */
  predicate ForeignInside(c: Primitives, e: Engine, w: Wrapping, payload: bytes, encrypted: bool, p: Pdus.InboundPdu)
  {
    encrypted && Recovered(c, e, Arrived(w, payload, encrypted, p)).Some? &&
    Recovered(c, e, Arrived(w, payload, encrypted, p)).value.0 != e.engineId
  }

  ghost predicate MeetsBefore(c: Primitives, e: Engine, w: Wrapping, payload: bytes, encrypted: bool,
                              p: Pdus.InboundPdu, order: nat)
  {
    forall k :: Order(k) < order ==> Meets(c, e, w, payload, encrypted, p, k)
  }

  lemma MismatchGate(c: Primitives, e: Engine, w: Wrapping, payload: bytes, encrypted: bool, p: Pdus.InboundPdu)
    requires MeetsBefore(c, e, w, payload, encrypted, p, 4) && FlagMismatch(w, encrypted)
    ensures GateOf(c, e, Arrived(w, payload, encrypted, p)) == Refuse(Drop)
  {
    hide SignedBy, Recovered, InTimeWindow, WireBytes, AuthPrefix, LevelOf, ShouldReject, Ceiling, AuthVerdict,
         TimeVerdict, ContextVerdict, DecryptGate;
    LevelWindow(e.user, e.floor, w.header.flags);
    assert Order(UnknownSecurityModels) < 4 && Order(UnknownEngineIds) < 4;
    assert Order(UnknownUserNames) < 4 && Order(UnsupportedSecLevels) < 4;
  }

  /** The checks of the message itself, where no counter is to blame. */
  lemma CleanChecks(c: Primitives, e: Engine, w: Wrapping, payload: bytes, encrypted: bool, p: Pdus.InboundPdu)
    requires MeetsBefore(c, e, w, payload, encrypted, p, 7) && !FlagMismatch(w, encrypted)
    ensures Checks(c, e, Arrived(w, payload, encrypted, p)) == if encrypted || w.contextName == [] then Pass else Drop
    ensures encrypted ==> UserPriv(e).Some? && Recovered(c, e, Arrived(w, payload, encrypted, p)).Some?
  {
    hide HmacValid, SignedBy, Recovered, InTimeWindow, WireBytes, AuthPrefix, LevelOf, ShouldReject;
    LevelWindow(e.user, e.floor, w.header.flags);
    PrivacyNeedsKey(e, w.header.flags);
    hide Ceiling;
    if UserAuth(e).Some? { ArrivedHmac(c, UserAuth(e).value, w, payload, encrypted, p); }
    assert Order(UnknownSecurityModels) < 7 && Order(UnknownEngineIds) < 7 && Order(UnknownUserNames) < 7;
    assert Order(UnsupportedSecLevels) < 7 && Order(WrongDigests) < 7 && Order(NotInTimeWindows) < 7;
    assert Order(DecryptionErrors) < 7;
  }

  /** What is left to decide where no counter is to blame: the inner engine, the context, or the handler. */
  lemma CleanGate(c: Primitives, e: Engine, w: Wrapping, payload: bytes, encrypted: bool, p: Pdus.InboundPdu)
    requires MeetsBefore(c, e, w, payload, encrypted, p, 7) && !FlagMismatch(w, encrypted)
    ensures encrypted ==> Recovered(c, e, Arrived(w, payload, encrypted, p)).Some?
    ensures GateOf(c, e, Arrived(w, payload, encrypted, p)) ==
            if ForeignInside(c, e, w, payload, encrypted, p) then Refuse(Count(UnknownEngineIds))
            else if OtherContext(c, e, w, payload, encrypted, p) then Refuse(Drop)
            else if encrypted then Admit(Recovered(c, e, Arrived(w, payload, encrypted, p)).value.2, [])
            else Admit(p, [])
  {
    hide Recovered, WireBytes, AuthPrefix, Checks, MeetsBefore, FlagMismatch;
    CleanChecks(c, e, w, payload, encrypted, p);
  }

  /** A payload that privFlag does not announce, or does announce and is not there, is dropped in silence. */
  lemma FlagMismatchIsSilent(c: Primitives, e: Engine, w: Wrapping, payload: bytes, encrypted: bool,
                             p: Pdus.InboundPdu, counters: Counters, mib: Entries, salt: bytes)
    requires OnWire(w, payload, encrypted, p) && FlagMismatch(w, encrypted)
    requires MeetsBefore(c, e, w, payload, encrypted, p, 4)
    ensures Process(c, e, counters, mib, salt, WireBytes(w, payload, encrypted)) == (counters, None)
  {
    hide Process, InboundOf, GateOf, MeetsBefore, OnWire, Arrived, WireBytes;
    WireDecodes(w, payload, encrypted, p);
    MismatchGate(c, e, w, payload, encrypted, p);
    DropIsSilent(c, e, Arrived(w, payload, encrypted, p), counters, mib, salt, WireBytes(w, payload, encrypted));
  }

  /** A request for another context, in the clear or encrypted, is dropped in silence. */
  lemma OtherContextIsSilent(c: Primitives, e: Engine, w: Wrapping, payload: bytes, encrypted: bool,
                             p: Pdus.InboundPdu, counters: Counters, mib: Entries, salt: bytes)
    requires OnWire(w, payload, encrypted, p) && !FlagMismatch(w, encrypted)
    requires MeetsBefore(c, e, w, payload, encrypted, p, 7) && OtherContext(c, e, w, payload, encrypted, p)
    ensures Process(c, e, counters, mib, salt, WireBytes(w, payload, encrypted)) == (counters, None)
  {
    hide Process, InboundOf, GateOf, MeetsBefore, OnWire, Arrived, WireBytes, FlagMismatch, Recovered;
    WireDecodes(w, payload, encrypted, p);
    CleanGate(c, e, w, payload, encrypted, p);
    DropIsSilent(c, e, Arrived(w, payload, encrypted, p), counters, mib, salt, WireBytes(w, payload, encrypted));
  }

  /** An agent without a privacy key drops every ciphertext in silence. */
  lemma NoKeyIsSilent(c: Primitives, e: Engine, w: Wrapping, payload: bytes, p: Pdus.InboundPdu,
                      counters: Counters, mib: Entries, salt: bytes)
    requires OnWire(w, payload, true, p) && UserPriv(e).None? && MeetsBefore(c, e, w, payload, true, p, 4)
    ensures Process(c, e, counters, mib, salt, WireBytes(w, payload, true)) == (counters, None)
  {
    hide Process, OnWire, WireBytes, AuthPrefix, LevelOf, Ceiling;
    assert Order(UnsupportedSecLevels) < 4;
    PrivacyNeedsKey(e, w.header.flags);
    FlagMismatchIsSilent(c, e, w, payload, true, p, counters, mib, salt);
  }

  /** A ciphertext for another engine moves unknownEngineIDs and is reported like any other defect. */
  lemma ForeignInsideIsReported(c: Primitives, e: Engine, w: Wrapping, payload: bytes, p: Pdus.InboundPdu,
                                counters: Counters, mib: Entries, salt: bytes)
    requires c.Lawful() && |e.engineId| <= 32 && OnWire(w, payload, true, p) && !FlagMismatch(w, true)
    requires MeetsBefore(c, e, w, payload, true, p, 7) && ForeignInside(c, e, w, payload, true, p)
    ensures var (after, answer) := Process(c, e, counters, mib, salt, WireBytes(w, payload, true));
            after == counters.Bump(UnknownEngineIds) &&
            (answer.Some? <==> IsReportable(w.header.flags) && e.boots < TWO_31 && e.time < TWO_31) &&
            (answer.Some? ==>
               ReportedValue(answer.value) == Some((CounterOid(UnknownEngineIds), after.Get(UnknownEngineIds))))
  {
    hide Process, InboundOf, ReportedValue, Primitives.Lawful, CounterOid, OnWire, GateOf, MeetsBefore, WireBytes,
         AuthPrefix, Counters.Bump, Counters.Get, IsReportable, FlagMismatch, Recovered, ForeignInside;
    WireDecodes(w, payload, true, p);
    CleanGate(c, e, w, payload, true, p);
    CountedIsReported(c, e, counters, mib, salt, WireBytes(w, payload, true));
  }

  /** Every refused message has a first defect, a flag mismatch, a foreign inside or another context. */
  lemma EveryRefusalIsCovered(c: Primitives, e: Engine, w: Wrapping, payload: bytes, encrypted: bool,
                              p: Pdus.InboundPdu)
    requires GateOf(c, e, Arrived(w, payload, encrypted, p)).Refuse?
    ensures || (exists k :: !Meets(c, e, w, payload, encrypted, p, k) &&
                            MeetsBefore(c, e, w, payload, encrypted, p, Order(k)))
            || ForeignInside(c, e, w, payload, encrypted, p) || OtherContext(c, e, w, payload, encrypted, p)
            || FlagMismatch(w, encrypted)
  {
    hide GateOf, Arrived, Meets, FlagMismatch, ForeignInside, OtherContext;
    if !FlagMismatch(w, encrypted) && MeetsBefore(c, e, w, payload, encrypted, p, 7) {
      CleanGate(c, e, w, payload, encrypted, p);
    }
    if !MeetsBefore(c, e, w, payload, encrypted, p, 7) {
      var k :| !Meets(c, e, w, payload, encrypted, p, k);
      var first := FirstUnmet(c, e, w, payload, encrypted, p, k);
    }
  }

  lemma {:induction false} FirstUnmet(c: Primitives, e: Engine, w: Wrapping, payload: bytes, encrypted: bool,
                                      p: Pdus.InboundPdu, k: Counter) returns (first: Counter)
    requires !Meets(c, e, w, payload, encrypted, p, k)
    ensures !Meets(c, e, w, payload, encrypted, p, first) && MeetsBefore(c, e, w, payload, encrypted, p, Order(first))
    decreases Order(k)
  {
    hide Meets;
    first := k;
    if !MeetsBefore(c, e, w, payload, encrypted, p, Order(k)) {
      var j :| Order(j) < Order(k) && !Meets(c, e, w, payload, encrypted, p, j);
      first := FirstUnmet(c, e, w, payload, encrypted, p, j);
    }
  }

  // ----- end to end -----

  /**
    * A manager's request for the agent: any msgMaxSize from 484, any reportableFlag and reserved bits,
    * the default context, the agent's level and user, and a timely stamp where the agent checks it.
    */
  predicate ProperRequest(e: Engine, w: Wrapping, p: Pdus.InboundPdu)
  {
    && w.usm.engineId != [] && (UserPriv(e).Some? ==> w.usm.engineId == e.engineId)
    && ProperButForEngineId(e, w, p)
  }

  predicate ProperButForEngineId(e: Engine, w: Wrapping, p: Pdus.InboundPdu)
  {
    && w.header.msgId >= 0 && w.header.maxSize >= MIN_MSG_MAX_SIZE && w.header.securityModel == USM_SECURITY_MODEL
    && LevelOf(w.header.flags) == Some(e.floor)
    && |w.usm.userName| <= MSG_USER_NAME_MAX_LENGTH && (e.user.Some? ==> w.usm.userName == e.user.value.name)
    && w.contextEngineId == e.engineId && w.contextName == []
    && (UserAuth(e).Some? ==>
          InTimeWindow(WireUnsigned(w.usm.engineBoots), WireUnsigned(w.usm.engineTime), e.boots, e.time))
    && (UserPriv(e).Some? ==> |w.usm.privParams| == 8)
    && Writable(p) && FieldSizes(w.usm) + |w.contextEngineId| + |VarbindList(p.varbinds)| + 0x2_0000 < TWO_64
  }

  lemma RequestSizes(e: Engine, w: Wrapping, p: Pdus.InboundPdu)
    requires ProperButForEngineId(e, w, p)
    ensures Addressable(w, Pdus.RequestBytes(p))
  {
    hide Pdus.PduBytes, VarbindList, LengthSize, InTimeWindow;
    HeaderCosts();
    var list := VarbindList(p.varbinds);
    match p {
      case GetRequest(id, _) => PduWithin(Pdus.TAG_GET_REQUEST, id, 0, 0, list, TWO_64 - 1, 10);
      case GetNextRequest(id, _) => PduWithin(Pdus.TAG_GET_NEXT_REQUEST, id, 0, 0, list, TWO_64 - 1, 10);
      case SetRequest(id, _) => PduWithin(Pdus.TAG_SET_REQUEST, id, 0, 0, list, TWO_64 - 1, 10);
      case GetBulkRequest(id, n, r, _) => PduWithin(Pdus.TAG_GET_BULK_REQUEST, id, n, r, list, TWO_64 - 1, 10);
    }
  }

  /** The wrapping with the MAC that sealing puts in. */
  function Stamped(c: Primitives, s: Security, w: Wrapping, payload: bytes): Wrapping
    requires AuthParamsOf(c, s, w, payload).Some?
  {
    w.(usm := w.usm.(authParams := AuthParamsOf(c, s, w, payload).value))
  }

  /** A sealed message as its receiver finds it: printed, decodable, signed with the sealer's key. */
  lemma SealedOnWire(c: Primitives, s: Security, w: Wrapping, p: Pdus.InboundPdu)
    requires c.Lawful() && Writable(p) && Addressable(w, Pdus.RequestBytes(p))
    requires |VarbindList(p.varbinds)| + 18 < TWO_64
    requires w.header.msgId >= 0 && w.header.maxSize >= MIN_MSG_MAX_SIZE && |w.usm.userName| <= MSG_USER_NAME_MAX_LENGTH
    requires Sealed(c, s, w, Pdus.RequestBytes(p)).Some?
    ensures var payload := PayloadOf(c, s, w, Pdus.RequestBytes(p)).value;
            var stamped := Stamped(c, s, w, payload);
            Sealed(c, s, w, Pdus.RequestBytes(p)).value == WireBytes(stamped, payload, s.priv.Some?) &&
            OnWire(stamped, payload, s.priv.Some?, p) &&
            (s.auth.Some? ==> SignedBy(c, s.auth.value, stamped, payload, s.priv.Some?))
  {
    hide MessageBytes, ScopedBytes, Pdus.RequestBytes, VarbindList, AesIv, AuthPosition, Splice;
    SealedSizes(c, s, w, Pdus.RequestBytes(p));
    var payload := PayloadOf(c, s, w, Pdus.RequestBytes(p)).value;
    var u, a := w.usm.(authParams := Zeros(MacLenOf(s))), AuthParamsOf(c, s, w, payload).value;
    SigningIsSplice(w.header, u, payload, s.priv.Some?, a);
    assert u.(authParams := a) == Stamped(c, s, w, payload).usm;
  }

  /** A consistent configuration can seal every request. */
  lemma RequestSeals(config: SecurityConfig, c: Primitives, e: Engine, w: Wrapping, rawPdu: bytes)
    requires config.Consistent() && e == BuiltEngine(config, e.engineId, e.boots, e.time)
    ensures Sealed(c, ReplySecurity(e), w, rawPdu).Some? && PayloadOf(c, ReplySecurity(e), w, rawPdu).Some?
  {
    hide MessageBytes, ScopedBytes, AesIv;
  }

  /** Decryption under the agent's own key gives the request back. */
  lemma RequestRecovered(config: SecurityConfig, c: Primitives, e: Engine, w: Wrapping, p: Pdus.InboundPdu, mac: bytes)
    requires c.Lawful() && config.Consistent() && e == BuiltEngine(config, e.engineId, e.boots, e.time)
    requires ProperButForEngineId(e, w, p) && UserPriv(e).Some?
    requires PayloadOf(c, ReplySecurity(e), w, Pdus.RequestBytes(p)).Some?
    ensures var payload := PayloadOf(c, ReplySecurity(e), w, Pdus.RequestBytes(p)).value;
            var stamped := w.(usm := w.usm.(authParams := mac));
            Recovered(c, e, Arrived(stamped, payload, true, p)) == Some((e.engineId, [], p))
  {
    hide ScopedBytes, Pdus.RequestBytes, ParseScopedPdu, AesIv, InTimeWindow, Pdus.ParseInbound, WireBytes, AuthPrefix;
    RequestSizes(e, w, p);
    Pdus.RequestRoundTrip(p);
    SealedSizes(c, ReplySecurity(e), w, Pdus.RequestBytes(p));
    ScopedRoundTrip(w.contextEngineId, w.contextName, Pdus.RequestBytes(p));
  }

  /** What becomes of a sealed request in the agent's decoder: the record, its MAC and its plaintext. */
  lemma RequestArrives(config: SecurityConfig, c: Primitives, e: Engine, w: Wrapping, p: Pdus.InboundPdu)
    requires c.Lawful() && config.Consistent() && e == BuiltEngine(config, e.engineId, e.boots, e.time)
    requires ProperButForEngineId(e, w, p)
    ensures var s, raw := ReplySecurity(e), Pdus.RequestBytes(p);
            Sealed(c, s, w, raw).Some? && PayloadOf(c, s, w, raw).Some? &&
            var payload := PayloadOf(c, s, w, raw).value;
            AuthParamsOf(c, s, w, payload).Some? &&
            var m := Arrived(Stamped(c, s, w, payload), payload, s.priv.Some?, p);
            InboundOf(Sealed(c, s, w, raw).value) == Ok(m) &&
            (s.auth.Some? ==> HmacValid(c, s.auth.value, m)) &&
            (s.priv.Some? ==> Recovered(c, e, m) == Some((e.engineId, [], p)))
  {
    hide Pdus.RequestBytes, InboundOf, PayloadOf, Primitives.Lawful, InTimeWindow, Recovered, Placeholder,
         HmacValid, SignedBy, WireBytes, AuthPrefix, VarbindList, Arrived, OnWire;
    var s, raw := ReplySecurity(e), Pdus.RequestBytes(p);
    RequestSeals(config, c, e, w, raw);
    RequestSizes(e, w, p);
    SealedOnWire(c, s, w, p);
    var payload := PayloadOf(c, s, w, raw).value;
    var stamped, enc := Stamped(c, s, w, payload), s.priv.Some?;
    WireDecodes(stamped, payload, enc, p);
    if enc { RequestRecovered(config, c, e, w, p, stamped.usm.authParams); }
    if s.auth.Some? { ArrivedHmac(c, s.auth.value, stamped, payload, enc, p); }
  }

  /** Every proper request, at any configured security level, reaches its handler unchanged. */
  lemma ProperRequestIsServed(config: SecurityConfig, c: Primitives, e: Engine, w: Wrapping, p: Pdus.InboundPdu,
                              counters: Counters, mib: Entries, salt: bytes)
    requires c.Lawful() && config.Consistent() && e == BuiltEngine(config, e.engineId, e.boots, e.time)
    requires ProperRequest(e, w, p)
    ensures var sent := Sealed(c, ReplySecurity(e), w, Pdus.RequestBytes(p));
            sent.Some? && InboundOf(sent.value).Ok? &&
            var m := InboundOf(sent.value).value;
            m.msgId == w.header.msgId && m.userName == w.usm.userName && Authorised(c, e, m, p) &&
            Process(c, e, counters, mib, salt, sent.value) ==
            (counters, Reply(c, e, m, [], salt, Handle(mib, w.header.maxSize, p)))
  {
    hide Sealed, Pdus.RequestBytes, InboundOf, PayloadOf, AuthParamsOf, Primitives.Lawful, InTimeWindow, Recovered,
         GateOf, Handle, Reply, HmacValid, WireBytes, AuthPrefix, VarbindList, FieldSizes;
    RequestArrives(config, c, e, w, p);
    var m := InboundOf(Sealed(c, ReplySecurity(e), w, Pdus.RequestBytes(p)).value).value;
    assert Authorised(c, e, m, p);
    GateExact(c, e, m);
  }

  // ----- the authoritative engine ID -----

  /**
    * Of requests proper but for msgAuthoritativeEngineID, an agent with privacy admits exactly those
    * that name it, and one without privacy all that name any engine.
    */
  lemma EngineIdComparedIffEncrypted(config: SecurityConfig, c: Primitives, e: Engine, w: Wrapping, p: Pdus.InboundPdu)
    requires c.Lawful() && config.Consistent() && e == BuiltEngine(config, e.engineId, e.boots, e.time)
    requires ProperButForEngineId(e, w, p)
    ensures var sent := Sealed(c, ReplySecurity(e), w, Pdus.RequestBytes(p));
            sent.Some? && InboundOf(sent.value).Ok? && InboundOf(sent.value).value.authEngineId == w.usm.engineId &&
            (GateOf(c, e, InboundOf(sent.value).value) == Admit(p, []) <==>
             w.usm.engineId != [] && (UserPriv(e).Some? ==> w.usm.engineId == e.engineId))
  {
    hide Sealed, Pdus.RequestBytes, InboundOf, PayloadOf, AuthParamsOf, Primitives.Lawful, InTimeWindow, Recovered,
         HmacValid, WireBytes, AuthPrefix, VarbindList, FieldSizes, LevelOf, DecryptGate;
    RequestArrives(config, c, e, w, p);
    var m := InboundOf(Sealed(c, ReplySecurity(e), w, Pdus.RequestBytes(p)).value).value;
    if w.usm.engineId != [] && (UserPriv(e).Some? ==> w.usm.engineId == e.engineId) {
      ProperRequestIsServed(config, c, e, w, p, NO_COUNTS, map[], []);
      GateExact(c, e, m);
    }
  }

  const NO_COUNTS := Counters(0, 0, 0, 0, 0, 0, 0)

  /** A plaintext request that names another engine as authoritative, and is admitted. */
  lemma ForeignEngineIdAdmitted(c: Primitives, e: Engine, foreign: bytes, id: i32)
    requires c.Lawful() && e == BuiltEngine(NoSecurity, e.engineId, e.boots, e.time) && |e.engineId| <= 32
    requires foreign != [] && foreign != e.engineId && |foreign| <= 32
    ensures var u := Envelope.Usm(foreign, 0, 0, [], [], []);
            var scoped := ScopedBytes(e.engineId, [], Pdus.RequestBytes(Pdus.GetRequest(id, [])));
            var frame := MessageBytes(Header(0, 484, 4, USM_SECURITY_MODEL), u, scoped, false);
            InboundOf(frame).Ok? && InboundOf(frame).value.authEngineId == foreign &&
            GateOf(c, e, InboundOf(frame).value) == Admit(Pdus.GetRequest(id, []), [])
  {
    hide Pdus.RequestBytes, InboundOf, Primitives.Lawful, GateOf, MessageBytes, ScopedBytes;
    var u := Envelope.Usm(foreign, 0, 0, [], [], []);
    var w := Wrapping(Header(0, 484, 4, USM_SECURITY_MODEL), u, e.engineId, []);
    var p := Pdus.GetRequest(id, []);
    assert |VarbindList([])| < 10 by { TlvSize(TAG_SEQUENCE, []); }
    assert ProperButForEngineId(e, w, p);
    EngineIdComparedIffEncrypted(NoSecurity, c, e, w, p);
  }

  /** Any admitted ciphertext names this engine; any admitted plaintext record would pass naming any other. */
  lemma AdmittedEngineId(c: Primitives, e: Engine, frame: bytes, pdu: Pdus.InboundPdu)
    requires InboundOf(frame).Ok? && Authorised(c, e, InboundOf(frame).value, pdu)
    ensures InboundOf(frame).value.scoped.Cipher? ==> InboundOf(frame).value.authEngineId == e.engineId
    ensures InboundOf(frame).value.scoped.PlainPdu? ==>
              forall id :: id != [] ==> Authorised(c, e, InboundOf(frame).value.(authEngineId := id), pdu)
  {
    hide ParseEnvelope, Pdus.ParseInbound, InTimeWindow, LevelOf, Recovered;
  }

  // ----- the answer -----

  /** What a receiver finds in a response: everything but the MAC field, which is checked apart. */
  datatype Reading = Reading(header: Header, usm: Envelope.Usm, contextEngineId: bytes, contextName: bytes,
                             response: Response)

  /** A receiver with credentials `s` opens a response. */
  function Opened(c: Primitives, s: Security, sent: bytes): Option<Reading>
  {
    match ParseEnvelope(sent)
    case Err(_) => None
    case Ok(m) =>
      var scoped :- ScopedIn(c, s, m);
      if !scoped.Plaintext? then None else
      var response :- ResponseIn(scoped.rawPdu);
      Some(Reading(m.header, m.usm.(authParams := []), scoped.contextEngineId, scoped.contextName, response))
  }

  function ScopedIn(c: Primitives, s: Security, m: Message): Option<ScopedData>
  {
    match m.scoped
    case Plaintext(_, _, _) => Some(m.scoped)
    case Encrypted(ciphertext) =>
      var cred :- s.priv;
      var iv := AesIv(WireUnsigned(m.usm.engineBoots), WireUnsigned(m.usm.engineTime), m.usm.privParams);
      var plaintext :- c.Decrypt(cred.protocol, cred.key, iv, ciphertext);
      match ParseScopedPdu(plaintext) case Ok(scoped) => Some(scoped) case Err(_) => None
  }

  /** A Response-PDU with all its fields. */
  function ResponseIn(rawPdu: bytes): Option<Response>
  {
    var e :- ParseTlv(rawPdu);
    if e.tag != 0xA2 || e.rest != [] then None else
    match ExpectInteger(e.value)
    case Err(_) => None
    case Ok((id, s1)) =>
      match ExpectInteger(s1)
      case Err(_) => None
      case Ok((status, s2)) =>
        match ExpectInteger(s2)
        case Err(_) => None
        case Ok((index, list)) =>
          if index < 0 || DecodeVarbinds(list).Err? then None
          else Some(Response(id, status, index, DecodeVarbinds(list).value))
  }

  lemma ResponseReadBack(r: Response)
    requires r.errorIndex < TWO_31 && |VarbindList(r.varbinds)| + 18 < TWO_64
    ensures ResponseIn(ResponsePdu(r)) == Some(r)
  {
    hide Tlv, Integer, ExpectInteger, ParseTlv, VarbindList, DecodeVarbinds;
    var list, index: i32 := VarbindList(r.varbinds), r.errorIndex;
    IntegerSize(r.requestId); IntegerSize(r.errorStatus); IntegerSize(index);
    ParseTlvOfTlv(0xA2, Integer(r.requestId) + (Integer(r.errorStatus) + (Integer(index) + list)), []);
    assert ResponsePdu(r) + [] == ResponsePdu(r);
    ExpectIntegerOfInteger(r.requestId, Integer(r.errorStatus) + (Integer(index) + list));
    ExpectIntegerOfInteger(r.errorStatus, Integer(index) + list);
    ExpectIntegerOfInteger(index, list);
    VarbindListRoundTrip(r.varbinds);
  }

  predicate WellKeyed(e: Engine) { e.user.Some? ==> e.user.value.WellFormed() }

  /** A reply is sent iff engine boots and time fit the wire. */
  lemma ReplyExists(c: Primitives, e: Engine, m: Inbound, name: bytes, salt: bytes, r: Response)
    requires WellKeyed(e) && r.errorIndex < TWO_31
    ensures Reply(c, e, m, name, salt, r).Some? <==> e.boots < TWO_31 && e.time < TWO_31
  {
    hide MessageBytes, ScopedBytes, ResponsePdu, AesIv;
  }

  /** Everything a reply says: identifiers, level, engine state, user, salt, default context, response. */
  predicate RightReading(e: Engine, msgId: i32, userName: bytes, salt: bytes, r: Response, o: Reading)
  {
    && o.header.msgId == msgId && o.header.maxSize == 65535 && o.header.securityModel == 3
    && LevelOf(o.header.flags) == Some(Ceiling(e.user)) && !IsReportable(o.header.flags)
    && o.usm.engineId == e.engineId && o.usm.engineBoots == e.boots && o.usm.engineTime == e.time
    && o.usm.userName == userName && o.usm.privParams == (if UserPriv(e).Some? then salt else [])
    && o.contextEngineId == e.engineId && o.contextName == [] && o.response == r
  }

  /** The MAC of a message verifies under the agent's credentials, where there are any. */
  predicate Verifies(c: Primitives, e: Engine, sent: bytes)
  {
    UserAuth(e).Some? ==>
      ParseEnvelope(sent).Ok? &&
      var cred, m := UserAuth(e).value, ParseEnvelope(sent).value;
      m.authOffset.Some? &&
      c.VerifyMac(cred.protocol, cred.key, Zeroed(sent, m.authOffset.value, |m.usm.authParams|), m.usm.authParams)
  }

  /** The requester verifies and opens the reply, encrypted or not, and finds the handler's response in it. */
  lemma ReplyOpens(c: Primitives, e: Engine, m: Inbound, salt: bytes, r: Response)
    requires c.Lawful() && WellKeyed(e) && e.boots < TWO_31 && e.time < TWO_31 && |salt| <= 8 && r.errorIndex < TWO_31
    requires m.msgId >= 0 && |m.userName| <= MSG_USER_NAME_MAX_LENGTH
    requires Fits(ReplyFrame(e, m, []), |VarbindList(r.varbinds)| + 0x1_0000)
    ensures Reply(c, e, m, [], salt, r).Some?
    ensures var sent := Reply(c, e, m, [], salt, r).value;
            Opened(c, ReplySecurity(e), sent).Some? && Verifies(c, e, sent) &&
            RightReading(e, m.msgId, m.userName, salt, r, Opened(c, ReplySecurity(e), sent).value)
  {
    hide MessageBytes, ScopedBytes, ParseEnvelope, ParseScopedPdu, Pdus.PduBytes, ResponseIn, Zeroed,
         VarbindList, AesIv, LengthSize, AuthPosition, Placeholder;
    ReplyExists(c, e, m, [], salt, r);
    var f, s, pdu := ReplyFrame(e, m, []), ReplySecurity(e), ResponsePdu(r);
    var w, list := OwnWrapping(f, s, salt), VarbindList(r.varbinds);
    HeaderCosts();
    PduWithin(Pdus.TAG_RESPONSE, r.requestId, r.errorStatus, r.errorIndex, list, TWO_64 - 1, 10);
    SealedDecodes(c, s, w, pdu);
    if s.auth.Some? { SignedMessageVerifies(c, s, w, pdu); }
    SealedSizes(c, s, w, pdu);
    ScopedRoundTrip(w.contextEngineId, w.contextName, pdu);
    ResponseReadBack(r);
  }

  /** From the manager and back: every proper request is answered with what its handler returns for it. */
  lemma ProperRequestIsAnswered(config: SecurityConfig, c: Primitives, e: Engine, w: Wrapping, p: Pdus.InboundPdu,
                                counters: Counters, mib: Entries, salt: bytes)
    requires c.Lawful() && config.Consistent() && e == BuiltEngine(config, e.engineId, e.boots, e.time)
    requires ProperRequest(e, w, p) && e.boots < TWO_31 && e.time < TWO_31 && |e.engineId| <= 32 && |salt| <= 8
    requires |VarbindList(Handle(mib, w.header.maxSize, p).varbinds)| + 0x4_0000 < TWO_64
    ensures var s := ReplySecurity(e);
            var sent := Sealed(c, s, w, Pdus.RequestBytes(p));
            sent.Some? &&
            var (after, answer) := Process(c, e, counters, mib, salt, sent.value);
            after == counters && answer.Some? && Verifies(c, e, answer.value) && Opened(c, s, answer.value).Some? &&
            RightReading(e, w.header.msgId, w.usm.userName, salt, Handle(mib, w.header.maxSize, p),
                         Opened(c, s, answer.value).value)
    ensures Ceiling(e.user) == e.floor
  {
    BuiltAgentHasOneLevel(config, 0);
    hide Sealed, Pdus.RequestBytes, InboundOf, Primitives.Lawful, Process, Reply, Opened, HandleGet, HandleGetNext,
         Authorised, VarbindList, BulkResponse, InTimeWindow, RightReading, Verifies, Ceiling, LevelOf;
    ProperRequestIsServed(config, c, e, w, p, counters, mib, salt);
    var m := InboundOf(Sealed(c, ReplySecurity(e), w, Pdus.RequestBytes(p)).value).value;
    AnswersInNumbers(mib, w.header.maxSize, p);
    ReplyOpens(c, e, m, salt, Handle(mib, w.header.maxSize, p));
  }

  // ----- answers on the wire -----

  /** Any answer of at most 65535 octets is cut out of the manager's stream as one frame. */
  lemma AnswerIsOneFrame(c: Primitives, s: Security, w: Wrapping, rawPdu: bytes, more: bytes)
    requires Sealed(c, s, w, rawPdu).Some? && |Sealed(c, s, w, rawPdu).value| <= MAX_FRAME_SIZE
    ensures Framing.NextFrame(Sealed(c, s, w, rawPdu).value + more) == Framing.Complete(Sealed(c, s, w, rawPdu).value)
  {
    hide MessageContents, Tlv, AesIv;
    var payload := PayloadOf(c, s, w, rawPdu).value;
    var u := w.usm.(authParams := AuthParamsOf(c, s, w, payload).value);
    Framing.WrittenElementIsFramed(MessageContents(w.header, u, payload, s.priv.Some?), more);
  }

  /**
    * An admitted GETBULK whose non-repeaters' estimate is within the budget, in particular one with a
    * committed row, is answered, in one frame no longer than the sender's msgMaxSize and the agent's limit.
    */
  lemma BulkAnswerWithinNegotiatedSize(c: Primitives, e: Engine, counters: Counters, mib: Entries, salt: bytes,
                                       frame: bytes, id: i32, n: u32, r: u32, vbs: seq<Varbind>, more: bytes)
    requires c.Lawful() && |salt| <= 8 && |e.engineId| <= 32
    requires InboundOf(frame).Ok? && GateOf(c, e, InboundOf(frame).value).Admit?
    requires GateOf(c, e, InboundOf(frame).value).pdu == Pdus.GetBulkRequest(id, n, r, vbs)
    requires var limit := EffectiveMaxSize(InboundOf(frame).value.maxSize);
             var q := Bulk.BulkRequest(n, r, vbs);
             Bulk.CommittedRows(mib, q, MAX_BULK_REPETITIONS, limit) > 0 ||
             Bulk.Estimate(Bulk.Heads(mib, q)) <= Bulk.Budget(limit)
    ensures var answer := Process(c, e, counters, mib, salt, frame).1;
            (WellKeyed(e) ==> (answer.Some? <==> e.boots < TWO_31 && e.time < TWO_31)) &&
            (answer.Some? ==> |answer.value| <= InboundOf(frame).value.maxSize && |answer.value| <= MAX_FRAME_SIZE &&
                              Framing.NextFrame(answer.value + more) == Framing.Complete(answer.value))
  {
    hide InboundOf, GateOf, Sealed, Bulk.CommittedRows, Bulk.Estimate, Bulk.Heads, Bulk.Budget, Bulk.BulkVarbinds,
         Primitives.Lawful, Settle, ResponsePdu, Framing.NextFrame, WellKeyed;
    DecodedRanges(frame);
    var m := InboundOf(frame).value;
    GateExact(c, e, m);
    var limit := EffectiveMaxSize(m.maxSize);
    var q := Bulk.BulkRequest(n, r, vbs);
    var f, s, response := ReplyFrame(e, m, []), ReplySecurity(e), BulkResponse(mib, id, q, MAX_BULK_REPETITIONS, limit);
    if WellKeyed(e) { ReplyExists(c, e, m, [], salt, response); }
    if SecuredResponse(c, f, s, salt, response).Some? {
      CommittedRowsFit(c, f, s, salt, mib, id, q, MAX_BULK_REPETITIONS, limit);
      AnswerIsOneFrame(c, s, OwnWrapping(f, s, salt), ResponsePdu(response), more);
    }
  }

  // ----- replay -----

  /**
    * Whatever errors and crashes lie between: a frame that an agent with credentials admits in one boot
    * epoch is refused in every later epoch of the engine, whatever the store, the user or the time.
    */
  lemma NoFrameIsReplayed(c: Primitives, d: Boots.Disk, actions: seq<Boots.Action>, i: nat, j: nat,
                          e: Engine, later: Engine, frame: bytes)
    requires Boots.Sound(d) && Boots.SameEngine(actions, e.engineId) && i < j < |Boots.OkValues(d, actions)|
    requires e.boots == Boots.OkValues(d, actions)[i] && later.boots == Boots.OkValues(d, actions)[j]
    requires UserAuth(e).Some? && UserAuth(later).Some?
    requires InboundOf(frame).Ok? && GateOf(c, e, InboundOf(frame).value).Admit?
    ensures GateOf(c, later, InboundOf(frame).value).Refuse?
    ensures forall counters, mib, mib', salt, salt' ::
              Process(c, later, counters, mib, salt, frame) == Process(c, later, counters, mib', salt', frame)
  {
    hide InboundOf, GateOf, Process, HmacValid, Recovered, LevelOf, Ceiling, Boots.OkValues, Boots.Sound;
    var m := InboundOf(frame).value;
    GateExact(c, e, m);
    GateExact(c, later, m);
    Boots.BootsStrictlyIncrease(d, e.engineId, actions);
    assert forall pdu :: !Authorised(c, later, m, pdu);
    forall counters, mib, mib', salt, salt'
      ensures Process(c, later, counters, mib, salt, frame) == Process(c, later, counters, mib', salt', frame)
    {
      MibGated(c, later, counters, frame, mib, mib', salt, salt');
    }
  }
}
