/** The validation pipeline for one inbound frame (section 7.2 of RFC 3412, section 3.2 of RFC 3414). */
module Dispatch {
  import opened Bytes
  import opened Oids
  import opened Ber
  import opened Varbinds
  import opened Mib
  import opened Envelope
  import opened Usm
  import opened Outbound
  import Pdus
  import Bulk

  const MAX_BULK_REPETITIONS: u32 := 100
  const MAX_FRAME_SIZE := 0xFFFF
  const NOT_WRITABLE: i32 := 17

  // ----- counters -----

  datatype Counter =
    | UnknownSecurityModels | UnknownEngineIds | UnknownUserNames | UnsupportedSecLevels
    | WrongDigests | NotInTimeWindows | DecryptionErrors

  function CounterOid(k: Counter): Oid
  {
    match k
    case UnknownSecurityModels => [1, 3, 6, 1, 6, 3, 11, 2, 1, 1, 0]
    case UnsupportedSecLevels => [1, 3, 6, 1, 6, 3, 15, 1, 1, 1, 0]
    case NotInTimeWindows => [1, 3, 6, 1, 6, 3, 15, 1, 1, 2, 0]
    case UnknownUserNames => [1, 3, 6, 1, 6, 3, 15, 1, 1, 3, 0]
    case UnknownEngineIds => [1, 3, 6, 1, 6, 3, 15, 1, 1, 4, 0]
    case WrongDigests => [1, 3, 6, 1, 6, 3, 15, 1, 1, 5, 0]
    case DecryptionErrors => [1, 3, 6, 1, 6, 3, 15, 1, 1, 6, 0]
  }

  /** snmpUnknownSecurityModels.0 and the six usmStats counters by their arcs (section 5 of RFC 3414). */
  lemma CounterOids(j: Counter, k: Counter)
    ensures CounterOid(UnknownSecurityModels) == [1, 3, 6, 1, 6, 3, 11, 2, 1, 1, 0]
    ensures k != UnknownSecurityModels ==>
              CounterOid(k) == [1, 3, 6, 1, 6, 3, 15, 1, 1,
                                if k == UnsupportedSecLevels then 1 else if k == NotInTimeWindows then 2
                                else if k == UnknownUserNames then 3 else if k == UnknownEngineIds then 4
                                else if k == WrongDigests then 5 else 6, 0]
    ensures CounterOid(j) == CounterOid(k) ==> j == k
  {
    var a, b := CounterOid(j), CounterOid(k);
    assert |a| == |b| == 11 && (a == b ==> a[6] == b[6] && a[9] == b[9]);
  }

  function SaturatingIncrement(n: u32): u32 { if n < TWO_32 - 1 then n + 1 else n }

  datatype Counters = Counters(
    unknownSecurityModels: u32, unknownEngineIds: u32, unknownUserNames: u32, unsupportedSecLevels: u32,
    wrongDigests: u32, notInTimeWindows: u32, decryptionErrors: u32)
  {
    function Get(k: Counter): u32
    {
      match k
      case UnknownSecurityModels => unknownSecurityModels
      case UnknownEngineIds => unknownEngineIds
      case UnknownUserNames => unknownUserNames
      case UnsupportedSecLevels => unsupportedSecLevels
      case WrongDigests => wrongDigests
      case NotInTimeWindows => notInTimeWindows
      case DecryptionErrors => decryptionErrors
    }

    /** The selected counter moves by one unless saturated; no other counter moves. */
    function Bump(k: Counter): (r: Counters)
      ensures r.Get(k) == if Get(k) < 0xFFFF_FFFF then Get(k) + 1 else 0xFFFF_FFFF
      ensures forall j :: j != k ==> r.Get(j) == Get(j)
    {
      match k
      case UnknownSecurityModels => this.(unknownSecurityModels := SaturatingIncrement(unknownSecurityModels))
      case UnknownEngineIds => this.(unknownEngineIds := SaturatingIncrement(unknownEngineIds))
      case UnknownUserNames => this.(unknownUserNames := SaturatingIncrement(unknownUserNames))
      case UnsupportedSecLevels => this.(unsupportedSecLevels := SaturatingIncrement(unsupportedSecLevels))
      case WrongDigests => this.(wrongDigests := SaturatingIncrement(wrongDigests))
      case NotInTimeWindows => this.(notInTimeWindows := SaturatingIncrement(notInTimeWindows))
      case DecryptionErrors => this.(decryptionErrors := SaturatingIncrement(decryptionErrors))
    }
  }

  // ----- the decoded message -----

  datatype InboundScoped = PlainPdu(pdu: Pdus.InboundPdu) | Cipher(ciphertext: bytes)

  datatype Inbound = Inbound(
    msgId: i32, maxSize: i32, securityModel: i32, flags: byte,
    engineId: bytes, contextName: bytes, userName: bytes, scoped: InboundScoped,
    authEngineId: bytes, authBoots: u32, authTime: u32, authParams: bytes, privSalt: Option<bytes>,
    raw: bytes, authOffset: Option<nat>)

  function ScopedOfWire(m: Message): BerResult<(bytes, bytes, InboundScoped)>
  {
    match m.scoped
    case Plaintext(engineId, name, rawPdu) =>
      var pdu :- Pdus.ParseInbound(rawPdu);
      Ok((engineId, name, PlainPdu(pdu)))
    case Encrypted(ciphertext) => Ok((m.usm.engineId, [], Cipher(ciphertext)))
  }

  /** `decode_v3_message`: until decryption the authoritative engine ID stands in for the context engine ID. */
  function InboundOf(frame: bytes): BerResult<Inbound>
  {
    var m :- ParseEnvelope(frame);
    var (engineId, name, scoped) :- ScopedOfWire(m);
    Ok(Inbound(m.header.msgId, m.header.maxSize, m.header.securityModel, m.header.flags,
               engineId, name, m.usm.userName, scoped,
               m.usm.engineId, WireUnsigned(m.usm.engineBoots), WireUnsigned(m.usm.engineTime),
               m.usm.authParams, if |m.usm.privParams| == 8 then Some(m.usm.privParams) else None,
               frame, m.authOffset))
  }

  method DecodeV3Message(frame: bytes) returns (r: BerResult<Inbound>)
    ensures r == InboundOf(frame)
  {
    hide ParseEnvelope, Pdus.ParsePdu, Pdus.ToInbound;
    var m :- DecodeV3Envelope(frame);
    var engineId, name, scoped := m.usm.engineId, [], Cipher([]);
    match m.scoped {
      case Plaintext(contextEngineId, contextName, rawPdu) =>
        var decoded :- Pdus.DecodePdu(rawPdu);
        var pdu :- Pdus.ToInbound(decoded);
        engineId, name, scoped := contextEngineId, contextName, PlainPdu(pdu);
      case Encrypted(ciphertext) =>
        scoped := Cipher(ciphertext);
    }
    r := Ok(Inbound(m.header.msgId, m.header.maxSize, m.header.securityModel, m.header.flags,
                    engineId, name, m.usm.userName, scoped,
                    m.usm.engineId, WireUnsigned(m.usm.engineBoots), WireUnsigned(m.usm.engineTime),
                    m.usm.authParams, if |m.usm.privParams| == 8 then Some(m.usm.privParams) else None,
                    frame, m.authOffset));
  }

  // ----- message authentication -----

  /** The message with the field at `offset` zeroed; a range outside the message leaves it unchanged. */
  function Zeroed(raw: bytes, offset: nat, length: nat): (r: bytes)
    ensures |r| == |raw|
  {
    if offset + length <= |raw| then Splice(raw, offset, Zeros(length)) else raw
  }

  method ZeroAuthParamsInMessage(raw: bytes, offset: nat, length: nat) returns (zeroed: bytes)
    ensures zeroed == Zeroed(raw, offset, length)
  {
    var copy := new byte[|raw|](i requires 0 <= i < |raw| => raw[i]);
    if offset + length <= |raw| {
      var i := offset;
      while i < offset + length
        invariant offset <= i <= offset + length
        invariant forall j :: offset <= j < i ==> copy[j] == 0
        invariant forall j :: 0 <= j < |raw| && !(offset <= j < i) ==> copy[j] == raw[j]
      {
        copy[i] := 0;
        i := i + 1;
      }
    }
    zeroed := copy[..];
    assert zeroed == Zeroed(raw, offset, length);
  }

  predicate HmacValid(c: Primitives, cred: AuthCredentials, m: Inbound)
  {
    m.authOffset.Some? &&
    c.VerifyMac(cred.protocol, cred.key, Zeroed(m.raw, m.authOffset.value, |m.authParams|), m.authParams)
  }

  // ----- the checks -----

  /** The agent's own state as one frame sees it. */
  datatype Engine = Engine(engineId: bytes, boots: u32, time: u32, user: Option<User>, floor: SecurityLevel)

  datatype Verdict = Pass | Count(counter: Counter) | Drop

  function UserAuth(e: Engine): Option<AuthCredentials> { if e.user.Some? then e.user.value.auth else None }

  function UserPriv(e: Engine): Option<PrivCredentials> { if e.user.Some? then e.user.value.priv else None }

  function EnvelopeVerdict(e: Engine, m: Inbound): Verdict
  {
    if m.securityModel != USM_SECURITY_MODEL then Count(UnknownSecurityModels)
    else if m.authEngineId == [] then Count(UnknownEngineIds)
    else if m.engineId != e.engineId then Count(UnknownEngineIds)
    else Pass
  }

  function UserVerdict(e: Engine, m: Inbound): Verdict
  {
    if e.user.None? || m.userName == e.user.value.name then Pass else Count(UnknownUserNames)
  }

  function LevelVerdict(e: Engine, m: Inbound): Verdict
  {
    if ShouldReject(e.user, e.floor, LevelOf(m.flags)) then Count(UnsupportedSecLevels) else Pass
  }

  function PrivFlagVerdict(m: Inbound): Verdict
  {
    if IsPriv(m.flags) == m.scoped.Cipher? then Pass else Drop
  }

  function AuthVerdict(c: Primitives, e: Engine, m: Inbound): Verdict
  {
    if UserAuth(e).None? || HmacValid(c, UserAuth(e).value, m) then Pass else Count(WrongDigests)
  }

  function TimeVerdict(e: Engine, m: Inbound): Verdict
  {
    if UserAuth(e).None? || InTimeWindow(m.authBoots, m.authTime, e.boots, e.time) then Pass
    else Count(NotInTimeWindows)
  }

  function ContextVerdict(m: Inbound): Verdict { if m.contextName == [] then Pass else Drop }

  function First(a: Verdict, b: Verdict): Verdict { if a == Pass then b else a }

  /** The seven checks in pipeline order. */
  function Checks(c: Primitives, e: Engine, m: Inbound): Verdict
  {
    First(EnvelopeVerdict(e, m), First(UserVerdict(e, m), First(LevelVerdict(e, m), First(PrivFlagVerdict(m),
      First(AuthVerdict(c, e, m), First(TimeVerdict(e, m), ContextVerdict(m)))))))
  }

  datatype Gate = Admit(pdu: Pdus.InboundPdu, contextName: bytes) | Refuse(verdict: Verdict)

  /** The scoped PDU inside a ciphertext, when it can be recovered. */
  function Recovered(c: Primitives, e: Engine, m: Inbound): (r: Option<(bytes, bytes, Pdus.InboundPdu)>)
    requires m.scoped.Cipher?
    ensures r.Some? ==> UserPriv(e).Some?
  {
    var cred :- UserPriv(e);
    var salt :- m.privSalt;
    var plaintext :- c.Decrypt(cred.protocol, cred.key, AesIv(m.authBoots, m.authTime, salt), m.scoped.ciphertext);
    match ParseScopedPdu(plaintext)
    case Err(_) => None
    case Ok(scoped) =>
      match Pdus.ParseInbound(scoped.rawPdu)
      case Err(_) => None
      case Ok(pdu) => Some((scoped.contextEngineId, scoped.contextName, pdu))
  }

  function DecryptGate(c: Primitives, e: Engine, m: Inbound): (g: Gate)
    requires m.scoped.Cipher?
    ensures g.Refuse? ==> g.verdict != Pass
    ensures UserPriv(e).None? ==> g == Refuse(Drop)
  {
    if UserPriv(e).None? then Refuse(Drop)
    else match Recovered(c, e, m)
         case None => Refuse(Count(DecryptionErrors))
         case Some((engineId, name, pdu)) =>
           if engineId != e.engineId then Refuse(Count(UnknownEngineIds))
           else if name != [] then Refuse(Drop)
           else Admit(pdu, name)
  }

  function GateOf(c: Primitives, e: Engine, m: Inbound): (g: Gate)
    ensures g.Refuse? ==> g.verdict != Pass
  {
    var v := Checks(c, e, m);
    if v != Pass then Refuse(v)
    else match m.scoped
         case PlainPdu(pdu) => Admit(pdu, m.contextName)
         case Cipher(_) => DecryptGate(c, e, m)
  }

  // ----- the handlers -----

  function HandleGet(mib: Entries, requested: seq<Varbind>): (r: seq<Varbind>)
    ensures |r| == |requested| && forall i :: 0 <= i < |r| ==> r[i].oid == requested[i].oid
    ensures forall i :: 0 <= i < |r| && r[i].oid in mib ==> r[i].value == Bound(mib[r[i].oid])
    ensures forall i :: 0 <= i < |r| && r[i].oid !in mib ==> r[i].value == NoSuchObject
  {
    seq(|requested|, i requires 0 <= i < |requested| =>
      Varbind(requested[i].oid, if requested[i].oid in mib then Bound(mib[requested[i].oid]) else NoSuchObject))
  }

  function EffectiveMaxSize(maxSize: i32): nat
  {
    Bulk.Min(if maxSize < 0 then 0 else maxSize, MAX_FRAME_SIZE)
  }

  function Handle(mib: Entries, maxSize: i32, pdu: Pdus.InboundPdu): Response
  {
    match pdu
    case GetRequest(id, vbs) => Response(id, 0, 0, HandleGet(mib, vbs))
    case GetNextRequest(id, vbs) => Response(id, 0, 0, HandleGetNext(mib, vbs))
    case GetBulkRequest(id, n, r, vbs) =>
      BulkResponse(mib, id, Bulk.BulkRequest(n, r, vbs), MAX_BULK_REPETITIONS, EffectiveMaxSize(maxSize))
    case SetRequest(id, vbs) => Response(id, NOT_WRITABLE, 1, vbs)
  }

  /** What each request is answered with: its identifier, the error fields in numbers, and every binding. */
  lemma AnswersInNumbers(mib: Entries, maxSize: i32, p: Pdus.InboundPdu)
    ensures var r := Handle(mib, maxSize, p);
            r.requestId == p.requestId &&
            match p
            case GetRequest(_, vbs) =>
              r.errorStatus == 0 && r.errorIndex == 0 && |r.varbinds| == |vbs| &&
              forall i :: 0 <= i < |vbs| ==>
                r.varbinds[i] == Varbind(vbs[i].oid, if vbs[i].oid in mib then Bound(mib[vbs[i].oid]) else NoSuchObject)
            case GetNextRequest(_, vbs) =>
              r.errorStatus == 0 && r.errorIndex == 0 && |r.varbinds| == |vbs| &&
              forall i :: 0 <= i < |vbs| ==> r.varbinds[i] == Resolve(mib, vbs[i].oid)
            case GetBulkRequest(_, n, m, vbs) =>
              r.errorStatus == 0 && r.errorIndex == 0 &&
              exists k :: Bulk.IsBulkResponse(mib, n, m, 100, vbs, SmallerLimit(maxSize), r.varbinds, k)
            case SetRequest(_, vbs) => r == Response(p.requestId, 17, 1, vbs)
  {
    hide Resolve, Bulk.IsBulkResponse, Bulk.BulkVarbinds, Bulk.CommittedRows;
    match p {
      case GetBulkRequest(_, n, m, vbs) =>
        var q, limit := Bulk.BulkRequest(n, m, vbs), SmallerLimit(maxSize);
        assert limit == EffectiveMaxSize(maxSize);
        Bulk.BulkIsByIndex(mib, q, MAX_BULK_REPETITIONS, limit);
        var k := Bulk.CommittedRows(mib, q, MAX_BULK_REPETITIONS, limit);
        assert Bulk.IsBulkResponse(mib, n, m, 100, vbs, limit, Handle(mib, maxSize, p).varbinds, k);
      case _ =>
    }
  }

  /** The sender's msgMaxSize, but at most 65535. */
  function SmallerLimit(maxSize: i32): nat { if maxSize < 0 then 0 else if maxSize > 65535 then 65535 else maxSize }

  function ReplyFrame(e: Engine, m: Inbound, contextName: bytes): Frame
  {
    Frame(m.msgId, e.engineId, m.userName, contextName, e.boots, e.time)
  }

  function ReplySecurity(e: Engine): Security { Security(UserAuth(e), UserPriv(e)) }

  function Reply(c: Primitives, e: Engine, m: Inbound, contextName: bytes, salt: bytes, r: Response): Option<bytes>
  {
    SecuredResponse(c, ReplyFrame(e, m, contextName), ReplySecurity(e), salt, r)
  }

  // ----- one frame -----

  /** Counters and answer after a verdict other than `Pass`. */
  function Settle(c: Primitives, e: Engine, counters: Counters, m: Inbound, v: Verdict): (Counters, Option<bytes>)
  {
    match v
    case Count(k) =>
      var bumped := counters.Bump(k);
      (bumped,
       if IsReportable(m.flags)
       then SecuredReport(c, m.msgId, e.engineId, e.boots, e.time, CounterOid(k), bumped.Get(k))
       else None)
    case _ => (counters, None)
  }

  function Process(c: Primitives, e: Engine, counters: Counters, mib: Entries, salt: bytes, frame: bytes)
    : (Counters, Option<bytes>)
  {
    match InboundOf(frame)
    case Err(_) => (counters, None)
    case Ok(m) =>
      match GateOf(c, e, m)
      case Refuse(v) => Settle(c, e, counters, m, v)
      case Admit(pdu, name) => (counters, Reply(c, e, m, name, salt, Handle(mib, m.maxSize, pdu)))
  }

  /** An answer addressable in 64 bits, which memory enforces in the program. */
  predicate AnswerFits(c: Primitives, e: Engine, mib: Entries, frame: bytes)
  {
    InboundOf(frame).Ok? && GateOf(c, e, InboundOf(frame).value).Admit? ==>
      var m, gate := InboundOf(frame).value, GateOf(c, e, InboundOf(frame).value);
      Fits(ReplyFrame(e, m, gate.contextName), |VarbindList(Handle(mib, m.maxSize, gate.pdu).varbinds)| + 0x1_0000)
  }

  // ----- the pipeline as the dispatch context runs it -----

  datatype Reject = Report(encoded: bytes) | Discard

  function AsAnswer(r: Reject): Option<bytes> { match r case Report(b) => Some(b) case Discard => None }

  /** Counters and rejection after one check with verdict `v`. */
  function Checked(c: Primitives, e: Engine, counters: Counters, m: Inbound, v: Verdict): (Counters, Option<Reject>)
  {
    if v == Pass then (counters, None)
    else
      var (after, answer) := Settle(c, e, counters, m, v);
      (after, Some(if answer.Some? then Report(answer.value) else Discard))
  }

  class DispatchContext {
    const primitives: Primitives
    const engine: Engine
    var counters: Counters

    constructor (primitives: Primitives, engine: Engine, counters: Counters)
      ensures this.primitives == primitives && this.engine == engine && this.counters == counters
    {
      this.primitives, this.engine, this.counters := primitives, engine, counters;
    }

    /** Keyed primitives that keep their lengths, and an engine ID as its constructor admits it. */
    ghost predicate Valid() { primitives.Lawful() && |engine.engineId| <= 32 }

    /** Counts first, then reports the counted value or stays silent. */
    method EmitReportResponse(k: Counter, m: Inbound) returns (r: Reject)
      requires Valid()
      modifies this
      ensures (counters, Some(r)) == Checked(primitives, engine, old(counters), m, Count(k))
    {
      counters := counters.Bump(k);
      if !IsReportable(m.flags) {
        return Discard;
      }
      var encoded := EncodeV3Report(primitives, m.msgId, engine.engineId, engine.boots, engine.time,
                                    CounterOid(k), counters.Get(k));
      r := if encoded.Some? then Report(encoded.value) else Discard;
    }

    method Conclude(v: Verdict, m: Inbound) returns (r: Option<Reject>)
      requires Valid()
      modifies this
      ensures (counters, r) == Checked(primitives, engine, old(counters), m, v)
    {
      match v {
        case Pass => r := None;
        case Drop => r := Some(Discard);
        case Count(k) =>
          var rejection := EmitReportResponse(k, m);
          r := Some(rejection);
      }
    }

    method CheckMessageEnvelope(m: Inbound) returns (r: Option<Reject>)
      requires Valid()
      modifies this
      ensures (counters, r) == Checked(primitives, engine, old(counters), m, EnvelopeVerdict(engine, m))
    {
      hide Settle;
      if m.securityModel != USM_SECURITY_MODEL {
        r := Conclude(Count(UnknownSecurityModels), m);
        return;
      }
      if m.authEngineId == [] {
        r := Conclude(Count(UnknownEngineIds), m);
        return;
      }
      if m.engineId != engine.engineId {
        r := Conclude(Count(UnknownEngineIds), m);
        return;
      }
      r := None;
    }

    method VerifyAuthentication(m: Inbound) returns (r: Option<Reject>)
      requires Valid()
      modifies this
      ensures (counters, r) == Checked(primitives, engine, old(counters), m, AuthVerdict(primitives, engine, m))
    {
      hide Settle;
      var cred := UserAuth(engine);
      if cred.None? {
        return None;
      }
      var valid := VerifyHmac(cred.value, m);
      if !valid {
        r := Conclude(Count(WrongDigests), m);
        return;
      }
      r := None;
    }

    /** An absent offset counts as a failed verification. */
    method VerifyHmac(cred: AuthCredentials, m: Inbound) returns (valid: bool)
      ensures valid == HmacValid(primitives, cred, m)
    {
      if m.authOffset.None? {
        return false;
      }
      var zeroed := ZeroAuthParamsInMessage(m.raw, m.authOffset.value, |m.authParams|);
      valid := primitives.VerifyMac(cred.protocol, cred.key, zeroed, m.authParams);
    }

    /** The checks in order; the first that fails decides, and no later one runs. */
    method RunChecks(m: Inbound) returns (r: Option<Reject>)
      requires Valid()
      modifies this
      ensures (counters, r) == Checked(primitives, engine, old(counters), m, Checks(primitives, engine, m))
    {
      hide Settle, EnvelopeVerdict, UserVerdict, LevelVerdict, PrivFlagVerdict, AuthVerdict, TimeVerdict,
           ContextVerdict;
      r := CheckMessageEnvelope(m);
      if r.Some? { return; }
      r := Conclude(UserVerdict(engine, m), m);
      if r.Some? { return; }
      r := Conclude(LevelVerdict(engine, m), m);
      if r.Some? { return; }
      r := Conclude(PrivFlagVerdict(m), m);
      if r.Some? { return; }
      r := VerifyAuthentication(m);
      if r.Some? { return; }
      r := Conclude(TimeVerdict(engine, m), m);
      if r.Some? { return; }
      r := Conclude(ContextVerdict(m), m);
    }

    /** `decrypt_scoped_pdu`. */
    method DecryptScopedPdu(m: Inbound) returns (gate: Gate, r: Option<Reject>)
      requires Valid()
      requires m.scoped.Cipher?
      modifies this
      ensures gate == DecryptGate(primitives, engine, m)
      ensures gate.Refuse? ==> (counters, r) == Checked(primitives, engine, old(counters), m, gate.verdict)
      ensures gate.Admit? ==> counters == old(counters)
    {
      hide Settle, ParseScopedPdu, Pdus.ParsePdu, Pdus.ToInbound, AesIv;
      r := None;
      var cred := UserPriv(engine);
      if cred.None? {
        gate := Refuse(Drop);
        r := Conclude(Drop, m);
        return;
      }
      var decoded := DecodeDecrypted(cred.value, m);
      if decoded.None? {
        gate := Refuse(Count(DecryptionErrors));
        r := Conclude(Count(DecryptionErrors), m);
        return;
      }
      if decoded.value.0 != engine.engineId {
        gate := Refuse(Count(UnknownEngineIds));
        r := Conclude(Count(UnknownEngineIds), m);
        return;
      }
      if decoded.value.1 != [] {
        gate := Refuse(Drop);
        r := Conclude(Drop, m);
        return;
      }
      gate := Admit(decoded.value.2, decoded.value.1);
    }

    /** Assembles the initialisation vector, decrypts and decodes. */
    method DecodeDecrypted(cred: PrivCredentials, m: Inbound) returns (r: Option<(bytes, bytes, Pdus.InboundPdu)>)
      requires m.scoped.Cipher? && UserPriv(engine) == Some(cred)
      ensures r == Recovered(primitives, engine, m)
    {
      hide ParseScopedPdu, Pdus.ParsePdu, Pdus.ToInbound, AesIv;
      var salt :- m.privSalt;
      var iv := AesIv(m.authBoots, m.authTime, salt);
      var plaintext :- primitives.Decrypt(cred.protocol, cred.key, iv, m.scoped.ciphertext);
      var scoped := DecodeScopedPdu(plaintext);
      if scoped.Err? {
        return None;
      }
      var decoded := Pdus.DecodePdu(scoped.value.rawPdu);
      if decoded.Err? {
        return None;
      }
      var pdu := Pdus.ToInbound(decoded.value);
      r := if pdu.Ok? then Some((scoped.value.contextEngineId, scoped.value.contextName, pdu.value)) else None;
    }

    /** `process_snmpv3_request`: one frame in, at most one answer out. */
    method ProcessSnmpv3Request(frame: bytes, mib: Entries, salt: bytes) returns (answer: Option<bytes>)
      requires Valid() && |salt| <= 8 && AnswerFits(primitives, engine, mib, frame)
      modifies this
      ensures (counters, answer) == Process(primitives, engine, old(counters), mib, salt, frame)
    {
      hide Settle, InboundOf, Checks, DecryptGate, Handle, SecuredResponse, Fits, Primitives.Lawful;
      var decoded := DecodeV3Message(frame);
      if decoded.Err? {
        return None;
      }
      var m := decoded.value;
      var rejection := RunChecks(m);
      if rejection.Some? {
        return AsAnswer(rejection.value);
      }
      var gate: Gate;
      match m.scoped {
        case PlainPdu(pdu) => gate := Admit(pdu, m.contextName);
        case Cipher(_) => gate, rejection := DecryptScopedPdu(m);
      }
      if gate.Refuse? {
        return AsAnswer(rejection.value);
      }
      var response := DispatchPdu(mib, m.maxSize, gate.pdu);
      var f := Frame(m.msgId, engine.engineId, m.userName, gate.contextName, engine.boots, engine.time);
      answer := EncodeV3Response(primitives, f, Security(UserAuth(engine), UserPriv(engine)), salt, response);
    }

    method DispatchPdu(mib: Entries, maxSize: i32, pdu: Pdus.InboundPdu) returns (response: Response)
      ensures response == Handle(mib, maxSize, pdu)
    {
      hide Bulk.BulkVarbinds;
      match pdu {
        case GetBulkRequest(id, n, k, vbs) =>
          var limit := EffectiveMaxSize(maxSize);
          var varbinds := Bulk.HandleGetBulk(mib, Bulk.BulkRequest(n, k, vbs), MAX_BULK_REPETITIONS, limit);
          response := Response(id, 0, 0, varbinds);
        case GetRequest(id, vbs) =>
          response := Response(id, 0, 0, HandleGet(mib, vbs));
        case GetNextRequest(id, vbs) =>
          response := Response(id, 0, 0, HandleGetNext(mib, vbs));
        case SetRequest(id, vbs) =>
          response := Response(id, NOT_WRITABLE, 1, vbs);
      }
    }
  }
}
