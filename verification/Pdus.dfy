/** PDU structures and the inbound requests (section 3 of RFC 3416). */
module Pdus {
  import opened Bytes
  import opened Ber
  import opened Varbinds

  const TAG_GET_REQUEST: byte := 0xA0
  const TAG_GET_NEXT_REQUEST: byte := 0xA1
  const TAG_RESPONSE: byte := 0xA2
  const TAG_SET_REQUEST: byte := 0xA3
  const TAG_GET_BULK_REQUEST: byte := 0xA5
  const TAG_INFORM_REQUEST: byte := 0xA6
  const TAG_TRAP: byte := 0xA7
  const TAG_REPORT: byte := 0xA8

  predicate IsStandardTag(tag: byte)
  {
    tag in {TAG_GET_REQUEST, TAG_GET_NEXT_REQUEST, TAG_RESPONSE, TAG_SET_REQUEST,
            TAG_INFORM_REQUEST, TAG_TRAP, TAG_REPORT}
  }

  datatype DecodedPdu =
    | Standard(tag: byte, requestId: i32, rawVarbindList: bytes)
    | Bulk(requestId: i32, nonRepeaters: i32, maxRepetitions: i32, rawVarbindList: bytes)

  // ----- encoding -----

  /** Every PDU is three INTEGERs and a VarBindList under its context tag. */
  function PduBytes(tag: byte, a: i32, b: i32, c: i32, list: bytes): bytes
  {
    Tlv(tag, Integer(a) + (Integer(b) + (Integer(c) + list)))
  }

  method WritePdu(tag: byte, a: i32, b: i32, c: i32, list: bytes) returns (out: bytes)
    requires |list| + 18 < TWO_64
    ensures out == PduBytes(tag, a, b, c, list)
  {
    hide Tlv, Integer;
    var inner := new BerWriter();
    inner.WriteInteger(a);
    inner.WriteInteger(b);
    inner.WriteInteger(c);
    inner.WriteRaw(list);
    assert inner.buffer == Integer(a) + (Integer(b) + (Integer(c) + list));
    IntegerSize(a); IntegerSize(b); IntegerSize(c);
    var outer := new BerWriter();
    outer.WriteTlv(tag, inner.buffer);
    out := outer.buffer;
  }

  method EncodePdu(tag: byte, requestId: i32, errorStatus: i32, errorIndex: i32, list: bytes)
    returns (r: BerResult<bytes>)
    requires |list| + 18 < TWO_64
    ensures r == if IsStandardTag(tag) then Ok(PduBytes(tag, requestId, errorStatus, errorIndex, list))
                 else Err(Malformed)
  {
    if !IsStandardTag(tag) {
      return Err(Malformed);
    }
    var out := WritePdu(tag, requestId, errorStatus, errorIndex, list);
    r := Ok(out);
  }

  method EncodeBulkPdu(requestId: i32, nonRepeaters: i32, maxRepetitions: i32, list: bytes) returns (out: bytes)
    requires |list| + 18 < TWO_64
    ensures out == PduBytes(TAG_GET_BULK_REQUEST, requestId, nonRepeaters, maxRepetitions, list)
  {
    out := WritePdu(TAG_GET_BULK_REQUEST, requestId, nonRepeaters, maxRepetitions, list);
  }

  // ----- decoding -----

  /** Exactly one SEQUENCE element and nothing after it. */
  predicate IsSequenceTlv(s: bytes)
  {
    var e := Expect(s, TAG_SEQUENCE);
    e.Ok? && e.value.1 == []
  }

  function ParsePdu(s: bytes): BerResult<DecodedPdu>
  {
    match ParseTlv(s)
    case None => Err(Malformed)
    case Some(e) =>
      if e.rest != [] then Err(Malformed) else
      var (a, s1) :- ExpectInteger(e.value);
      if e.tag != TAG_GET_BULK_REQUEST && !IsStandardTag(e.tag) then Err(Malformed) else
      var (b, s2) :- ExpectInteger(s1);
      var (c, list) :- ExpectInteger(s2);
      if !IsSequenceTlv(list) then Err(Malformed)
      else if e.tag == TAG_GET_BULK_REQUEST then Ok(Bulk(a, b, c, list))
      else Ok(Standard(e.tag, a, list))
  }

  method ReadValidatedVarbindList(reader: BerReader) returns (r: BerResult<bytes>)
    requires reader.Valid()
    modifies reader
    ensures r.Ok? <==> IsSequenceTlv(old(reader.Remaining()))
    ensures r.Ok? ==> r.value == old(reader.Remaining())
    ensures r.Err? ==> r.error == Malformed
  {
    if reader.IsEmpty() {
      return Err(Malformed);
    }
    var raw := reader.Remaining();
    var list :- reader.ReadSequence();
    r := if reader.IsEmpty() then Ok(raw) else Err(Malformed);
  }

  method DecodePdu(raw: bytes) returns (r: BerResult<DecodedPdu>)
    ensures r == ParsePdu(raw)
  {
    hide ParseTlv, ExpectInteger, IsSequenceTlv;
    var outer := new BerReader(raw, 0);
    assert outer.Remaining() == raw;
    var tag :- outer.PeekTag();
    var pdu :- outer.ReadConstructed(tag);
    assert pdu.Remaining() == pdu.input;
    if !outer.IsEmpty() {
      return Err(Malformed);
    }
    var requestId :- pdu.ReadInteger();
    if tag == TAG_GET_BULK_REQUEST {
      var nonRepeaters :- pdu.ReadInteger();
      var maxRepetitions :- pdu.ReadInteger();
      var list :- ReadValidatedVarbindList(pdu);
      r := Ok(Bulk(requestId, nonRepeaters, maxRepetitions, list));
    } else if IsStandardTag(tag) {
      var _ :- pdu.ReadInteger();
      var _ :- pdu.ReadInteger();
      var list :- ReadValidatedVarbindList(pdu);
      r := Ok(Standard(tag, requestId, list));
    } else {
      r := Err(Malformed);
    }
  }

  /** Decoding undoes encoding exactly for recognised tags over one SEQUENCE element. */
  lemma PduRoundTrip(tag: byte, a: i32, b: i32, c: i32, list: bytes)
    requires |list| + 18 < TWO_64
    ensures ParsePdu(PduBytes(tag, a, b, c, list)) ==
            if !IsSequenceTlv(list) then Err(Malformed)
            else if tag == TAG_GET_BULK_REQUEST then Ok(Bulk(a, b, c, list))
            else if IsStandardTag(tag) then Ok(Standard(tag, a, list))
            else Err(Malformed)
  {
    hide Tlv, Integer, ExpectInteger, ParseTlv, IsSequenceTlv;
    IntegerSize(a); IntegerSize(b); IntegerSize(c);
    var contents := Integer(a) + (Integer(b) + (Integer(c) + list));
    ParseTlvOfTlv(tag, contents, []);
    assert PduBytes(tag, a, b, c, list) + [] == PduBytes(tag, a, b, c, list);
    ExpectIntegerOfInteger(a, Integer(b) + (Integer(c) + list));
    ExpectIntegerOfInteger(b, Integer(c) + list);
    ExpectIntegerOfInteger(c, list);
  }

  // ----- inbound requests -----

  datatype InboundPdu =
    | GetRequest(requestId: i32, varbinds: seq<Varbind>)
    | GetNextRequest(requestId: i32, varbinds: seq<Varbind>)
    | GetBulkRequest(requestId: i32, nonRepeaters: u32, maxRepetitions: u32, varbinds: seq<Varbind>)
    | SetRequest(requestId: i32, varbinds: seq<Varbind>)

  function ClampNegative(n: i32): u32 { if n < 0 then 0 else n }

  function ToInbound(d: DecodedPdu): BerResult<InboundPdu>
  {
    match d
    case Standard(tag, requestId, list) =>
      if tag == TAG_GET_REQUEST then var vbs :- DecodeVarbinds(list); Ok(GetRequest(requestId, vbs))
      else if tag == TAG_GET_NEXT_REQUEST then var vbs :- DecodeVarbinds(list); Ok(GetNextRequest(requestId, vbs))
      else if tag == TAG_SET_REQUEST then var vbs :- DecodeVarbinds(list); Ok(SetRequest(requestId, vbs))
      else Err(Malformed)
    case Bulk(requestId, nonRepeaters, maxRepetitions, list) =>
      var vbs :- DecodeVarbinds(list);
      Ok(GetBulkRequest(requestId, ClampNegative(nonRepeaters), ClampNegative(maxRepetitions), vbs))
  }

  function ParseInbound(raw: bytes): BerResult<InboundPdu>
  {
    var d :- ParsePdu(raw);
    ToInbound(d)
  }

  /** The wire form of a request; the error fields of a standard request are zero. */
  function RequestBytes(p: InboundPdu): bytes
    requires p.GetBulkRequest? ==> p.nonRepeaters < TWO_31 && p.maxRepetitions < TWO_31
  {
    match p
    case GetRequest(id, vbs) => PduBytes(TAG_GET_REQUEST, id, 0, 0, VarbindList(vbs))
    case GetNextRequest(id, vbs) => PduBytes(TAG_GET_NEXT_REQUEST, id, 0, 0, VarbindList(vbs))
    case SetRequest(id, vbs) => PduBytes(TAG_SET_REQUEST, id, 0, 0, VarbindList(vbs))
    case GetBulkRequest(id, n, m, vbs) => PduBytes(TAG_GET_BULK_REQUEST, id, n, m, VarbindList(vbs))
  }

  lemma VarbindListIsSequence(vbs: seq<Varbind>)
    requires |VarbindList(vbs)| < TWO_64
    ensures IsSequenceTlv(VarbindList(vbs))
  {
    hide Tlv;
    ExpectOfTlv(TAG_SEQUENCE, ConcatVarbinds(vbs), []);
    assert VarbindList(vbs) + [] == VarbindList(vbs);
  }

  /** Every inbound request reaches the agent with its identifier, bulk fields and bindings intact. */
  lemma RequestRoundTrip(p: InboundPdu)
    requires p.GetBulkRequest? ==> p.nonRepeaters < TWO_31 && p.maxRepetitions < TWO_31
    requires |VarbindList(p.varbinds)| + 18 < TWO_64
    ensures ParseInbound(RequestBytes(p)) == Ok(p)
  {
    hide PduBytes, ParsePdu, VarbindList, DecodeVarbinds, IsSequenceTlv;
    var list := VarbindList(p.varbinds);
    VarbindListIsSequence(p.varbinds);
    VarbindListRoundTrip(p.varbinds);
    match p {
      case GetRequest(id, _) => PduRoundTrip(TAG_GET_REQUEST, id, 0, 0, list);
      case GetNextRequest(id, _) => PduRoundTrip(TAG_GET_NEXT_REQUEST, id, 0, 0, list);
      case SetRequest(id, _) => PduRoundTrip(TAG_SET_REQUEST, id, 0, 0, list);
      case GetBulkRequest(id, n, m, _) => PduRoundTrip(TAG_GET_BULK_REQUEST, id, n, m, list);
    }
  }

  /** Any 32-bit fields are accepted, negative ones as zero: a GETBULK arrives as written iff neither is negative. */
  lemma BulkFieldsClamped(id: i32, nonRepeaters: i32, maxRepetitions: i32, vbs: seq<Varbind>)
    requires |VarbindList(vbs)| + 18 < TWO_64
    ensures var r := ParseInbound(PduBytes(TAG_GET_BULK_REQUEST, id, nonRepeaters, maxRepetitions, VarbindList(vbs)));
            r.Ok? && r.value.GetBulkRequest? && r.value.requestId == id && r.value.varbinds == vbs &&
            (nonRepeaters < 0 ==> r.value.nonRepeaters == 0) && (maxRepetitions < 0 ==> r.value.maxRepetitions == 0) &&
            (r.value.nonRepeaters == nonRepeaters as int && r.value.maxRepetitions == maxRepetitions as int <==>
             nonRepeaters >= 0 && maxRepetitions >= 0)
  {
    hide PduBytes, ParsePdu, VarbindList, DecodeVarbinds, IsSequenceTlv;
    VarbindListIsSequence(vbs);
    VarbindListRoundTrip(vbs);
    PduRoundTrip(TAG_GET_BULK_REQUEST, id, nonRepeaters, maxRepetitions, VarbindList(vbs));
  }

  /** The first octet of each PDU in numbers (section 3 of RFC 3416). */
  lemma PduTags(p: InboundPdu, a: i32, b: i32, c: i32, list: bytes)
    requires p.GetBulkRequest? ==> p.nonRepeaters < TWO_31 && p.maxRepetitions < TWO_31
    ensures RequestBytes(p)[0] ==
            match p case GetRequest(_, _) => 0xA0 case GetNextRequest(_, _) => 0xA1 case SetRequest(_, _) => 0xA3
                    case GetBulkRequest(_, _, _, _) => 0xA5
    ensures PduBytes(TAG_RESPONSE, a, b, c, list)[0] == 0xA2 && PduBytes(TAG_REPORT, a, b, c, list)[0] == 0xA8
  {
    hide Integer, VarbindList, EncodedLength;
  }

  /** A PDU with anything behind it is rejected, and so is a list with anything behind it. */
  lemma TrailingOctetsRejected(tag: byte, a: i32, b: i32, c: i32, vbs: seq<Varbind>, more: bytes)
    requires |VarbindList(vbs)| + |more| + 18 < TWO_64 && more != []
    ensures ParsePdu(PduBytes(tag, a, b, c, VarbindList(vbs)) + more).Err?
    ensures ParsePdu(PduBytes(tag, a, b, c, VarbindList(vbs) + more)).Err?
  {
    hide Tlv, Integer, ExpectInteger, ParseTlv, VarbindList, Expect;
    var list := VarbindList(vbs);
    IntegerSize(a); IntegerSize(b); IntegerSize(c);
    ParseTlvOfTlv(tag, Integer(a) + (Integer(b) + (Integer(c) + list)), more);
    assert !IsSequenceTlv(list + more) by { ListEndsPdu(vbs, more); }
    PduRoundTrip(tag, a, b, c, list + more);
  }

  lemma ListEndsPdu(vbs: seq<Varbind>, more: bytes)
    requires |VarbindList(vbs)| < TWO_64
    ensures IsSequenceTlv(VarbindList(vbs) + more) <==> more == []
  {
    hide Tlv, ParseTlv;
    ExpectOfTlv(TAG_SEQUENCE, ConcatVarbinds(vbs), more);
  }
}
