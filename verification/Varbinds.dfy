/** Variable bindings and their BER form (section 3 of RFC 3416, section 7.1 of RFC 2578). */
module Varbinds {
  import opened Bytes
  import opened Oids
  import opened Ber
  import BerInteger
  import BerOid

  const TAG_NO_SUCH_OBJECT: byte := 0x80
  const TAG_NO_SUCH_INSTANCE: byte := 0x81
  const TAG_END_OF_MIB_VIEW: byte := 0x82
  const TAG_IP_ADDRESS: byte := 0x40
  const TAG_COUNTER32: byte := 0x41
  const TAG_GAUGE32: byte := 0x42
  const TAG_TIMETICKS: byte := 0x43
  const TAG_OPAQUE: byte := 0x44
  const TAG_COUNTER64: byte := 0x46

  type Ipv4 = s: bytes | |s| == 4 witness [0, 0, 0, 0]

  datatype Value =
    | Integer32(int32: i32)
    | ObjectIdentifier(oid: Oid)
    | IpAddress(address: Ipv4)
    | OctetString(octets: bytes)
    | Counter32(counter: u32)
    | Counter64(counter64: u64)
    | Gauge32(gauge: u32)
    | TimeTicks(ticks: u32)
    | Opaque(opaqueOctets: bytes)

  datatype VarbindValue = Bound(value: Value) | Unspecified | NoSuchObject | NoSuchInstance | EndOfMibView

  datatype Varbind = Varbind(oid: Oid, value: VarbindValue)

  /** The value as the structural layer sees it: APPLICATION types stay raw. */
  datatype DecodedValue =
    | DUnspecified | DNoSuchObject | DNoSuchInstance | DEndOfMibView
    | DInteger(v: i32) | DOctetString(octets: bytes) | DObjectIdentifier(oid: Oid)
    | DRaw(tag: byte, contents: bytes)

  datatype DecodedVarbind = DecodedVarbind(name: Oid, value: DecodedValue)

  // ----- encoding -----

  function ValueContents(v: VarbindValue): (byte, bytes)
  {
    match v
    case Unspecified => (TAG_NULL, [])
    case NoSuchObject => (TAG_NO_SUCH_OBJECT, [])
    case NoSuchInstance => (TAG_NO_SUCH_INSTANCE, [])
    case EndOfMibView => (TAG_END_OF_MIB_VIEW, [])
    case Bound(Integer32(n)) => (TAG_INTEGER, BerInteger.EncodeSigned(n))
    case Bound(OctetString(s)) => (TAG_OCTET_STRING, s)
    case Bound(ObjectIdentifier(o)) => (TAG_OID, BerOid.EncodedOid(o))
    case Bound(IpAddress(a)) => (TAG_IP_ADDRESS, a)
    case Bound(Counter32(n)) => (TAG_COUNTER32, BerInteger.EncodeUnsigned32(n))
    case Bound(Gauge32(n)) => (TAG_GAUGE32, BerInteger.EncodeUnsigned32(n))
    case Bound(TimeTicks(n)) => (TAG_TIMETICKS, BerInteger.EncodeUnsigned32(n))
    case Bound(Opaque(s)) => (TAG_OPAQUE, s)
    case Bound(Counter64(n)) => (TAG_COUNTER64, BerInteger.EncodeUnsigned64(n))
  }

  function ValueTlv(v: VarbindValue): bytes { Tlv(ValueContents(v).0, ValueContents(v).1) }

  function VarbindBytes(vb: Varbind): (s: bytes)
    ensures |s| >= 2
  {
    Sequence(OidTlv(vb.oid) + ValueTlv(vb.value))
  }

  /** The tags of sections 2 and 3 of RFC 3416 in numbers, with the contents written under them. */
  lemma ValueTags(v: VarbindValue)
    ensures ValueTlv(v) ==
            match v
            case Unspecified => Tlv(0x05, [])
            case NoSuchObject => Tlv(0x80, [])
            case NoSuchInstance => Tlv(0x81, [])
            case EndOfMibView => Tlv(0x82, [])
            case Bound(Integer32(n)) => Tlv(0x02, BerInteger.EncodeSigned(n))
            case Bound(OctetString(s)) => Tlv(0x04, s)
            case Bound(ObjectIdentifier(o)) => Tlv(0x06, BerOid.EncodedOid(o))
            case Bound(IpAddress(a)) => Tlv(0x40, a)
            case Bound(Counter32(n)) => Tlv(0x41, BerInteger.EncodeUnsigned32(n))
            case Bound(Gauge32(n)) => Tlv(0x42, BerInteger.EncodeUnsigned32(n))
            case Bound(TimeTicks(n)) => Tlv(0x43, BerInteger.EncodeUnsigned32(n))
            case Bound(Opaque(s)) => Tlv(0x44, s)
            case Bound(Counter64(n)) => Tlv(0x46, BerInteger.EncodeUnsigned64(n))
  {
    hide Tlv, BerInteger.EncodeSigned, BerInteger.EncodeUnsigned32, BerInteger.EncodeUnsigned64, BerOid.EncodedOid;
  }

  function ConcatVarbinds(vbs: seq<Varbind>): bytes
  {
    if vbs == [] then [] else VarbindBytes(vbs[0]) + ConcatVarbinds(vbs[1..])
  }

  function VarbindList(vbs: seq<Varbind>): bytes { Sequence(ConcatVarbinds(vbs)) }

  lemma {:induction false} ConcatVarbindsAppend(a: seq<Varbind>, b: seq<Varbind>)
    ensures ConcatVarbinds(a + b) == ConcatVarbinds(a) + ConcatVarbinds(b)
  {
    hide VarbindBytes;
    if a == [] {
      assert a + b == b;
    } else {
      ConcatVarbindsAppend(a[1..], b);
      assert (a + b)[1..] == a[1..] + b;
    }
  }

  /** `encode_varbinds`: each binding into its own SEQUENCE, all of them into the list. */
  method EncodeVarbinds(vbs: seq<Varbind>) returns (out: bytes)
    requires |VarbindList(vbs)| < TWO_64
    ensures out == VarbindList(vbs)
  {
    hide VarbindBytes, Tlv;
    var list := new BerWriter();
    var i := 0;
    while i < |vbs|
      invariant 0 <= i <= |vbs|
      invariant list.buffer == ConcatVarbinds(vbs[..i])
    {
      ghost var vb := vbs[i];
      assert vbs[..i + 1] == vbs[..i] + [vb] && vbs == vbs[..i + 1] + vbs[i + 1..];
      ConcatVarbindsAppend(vbs[..i], [vb]);
      ConcatVarbindsAppend(vbs[..i + 1], vbs[i + 1..]);
      assert [vb][1..] == [] && ConcatVarbinds([vb]) == VarbindBytes(vb) + [];
      assert |ConcatVarbinds(vbs)| < TWO_64;
      var one := EncodeVarbind(vbs[i]);
      list.WriteRaw(one);
      i := i + 1;
    }
    assert vbs[..|vbs|] == vbs;
    var outer := new BerWriter();
    outer.WriteTlv(TAG_SEQUENCE, list.buffer);
    out := outer.buffer;
  }

  method EncodeVarbind(vb: Varbind) returns (out: bytes)
    requires |VarbindBytes(vb)| < TWO_64
    ensures out == VarbindBytes(vb)
  {
    hide ValueContents, Tlv, OidTlv;
    var inner := new BerWriter();
    inner.WriteOid(vb.oid);
    var (tag, contents) := ValueContents(vb.value);
    inner.WriteTlv(tag, contents);
    assert inner.buffer == OidTlv(vb.oid) + ValueTlv(vb.value);
    var outer := new BerWriter();
    outer.WriteTlv(TAG_SEQUENCE, inner.buffer);
    assert outer.buffer == VarbindBytes(vb);
    out := outer.buffer;
  }

  // ----- decoding -----

  /** The value CHOICE; nothing may follow it inside the binding. */
  function ParseValue(s: bytes): BerResult<DecodedValue>
  {
    match ParseTlv(s)
    case None => Err(Malformed)
    case Some(e) =>
      var v :- InterpretValue(e.tag, e.value);
      if e.rest == [] then Ok(v) else Err(Malformed)
  }

  function InterpretValue(tag: byte, value: bytes): BerResult<DecodedValue>
  {
    if tag == TAG_NULL then if value == [] then Ok(DUnspecified) else Err(Malformed)
    else if tag == TAG_NO_SUCH_OBJECT then if value == [] then Ok(DNoSuchObject) else Err(Malformed)
    else if tag == TAG_NO_SUCH_INSTANCE then if value == [] then Ok(DNoSuchInstance) else Err(Malformed)
    else if tag == TAG_END_OF_MIB_VIEW then if value == [] then Ok(DEndOfMibView) else Err(Malformed)
    else if tag == TAG_INTEGER then
      match BerInteger.DecodeSigned(value) case Some(n) => Ok(DInteger(n)) case None => Err(Malformed)
    else if tag == TAG_OCTET_STRING then Ok(DOctetString(value))
    else if tag == TAG_OID then
      match BerOid.DecodedOid(value) case Some(o) => Ok(DObjectIdentifier(o)) case None => Err(Malformed)
    else Ok(DRaw(tag, value))
  }

  function ParseVarbinds(s: bytes): BerResult<seq<DecodedVarbind>>
    decreases |s|
  {
    if s == [] then Ok([]) else
    var (first, rest) :- ParseVarbind(s);
    var more :- ParseVarbinds(rest);
    Ok([first] + more)
  }

  function ParseVarbind(s: bytes): (r: BerResult<(DecodedVarbind, bytes)>)
    ensures r.Ok? ==> |r.value.1| < |s|
  {
    var (contents, rest) :- Expect(s, TAG_SEQUENCE);
    var (name, valueTlv) :- ExpectOid(contents);
    var value :- ParseValue(valueTlv);
    Ok((DecodedVarbind(name, value), rest))
  }

  function ParseVarbindList(s: bytes): BerResult<seq<DecodedVarbind>>
  {
    var (contents, rest) :- Expect(s, TAG_SEQUENCE);
    if rest == [] then ParseVarbinds(contents) else Err(Malformed)
  }

  method DecodeVarbindValue(reader: BerReader) returns (r: BerResult<DecodedValue>)
    requires reader.Valid()
    modifies reader
    ensures r.Ok? <==> ParseValue(old(reader.Remaining())).Ok?
    ensures r.Ok? ==> r == ParseValue(old(reader.Remaining()))
  {
    var element :- reader.ReadTlv();
    var v :- InterpretValue(element.0, element.1);
    r := if reader.IsEmpty() then Ok(v) else Err(Malformed);
  }

  method DecodeVarbind(list: BerReader) returns (r: BerResult<DecodedVarbind>)
    requires list.Valid()
    modifies list
    ensures list.Valid()
    ensures r.Ok? <==> ParseVarbind(old(list.Remaining())).Ok?
    ensures r.Ok? ==> ParseVarbind(old(list.Remaining())) == Ok((r.value, list.Remaining()))
  {
    hide Expect, ExpectOid, ParseValue;
    var item :- list.ReadSequence();
    assert item.Remaining() == item.input;
    var name :- item.ReadOid();
    var value :- DecodeVarbindValue(item);
    r := Ok(DecodedVarbind(name, value));
  }

  method DecodeVarbindList(raw: bytes) returns (r: BerResult<seq<DecodedVarbind>>)
    ensures r.Ok? <==> ParseVarbindList(raw).Ok?
    ensures r.Ok? ==> r == ParseVarbindList(raw)
  {
    hide Expect, ParseVarbind;
    var outer := new BerReader(raw, 0);
    assert outer.Remaining() == raw;
    var list :- outer.ReadSequence();
    if !outer.IsEmpty() {
      return Err(Malformed);
    }
    assert list.Remaining() == list.input;
    var varbinds: seq<DecodedVarbind> := [];
    ghost var all := ParseVarbinds(list.input);
    while !list.IsEmpty()
      invariant list.Valid()
      invariant all.Ok? <==> ParseVarbinds(list.Remaining()).Ok?
      invariant all.Ok? ==> all.value == varbinds + ParseVarbinds(list.Remaining()).value
      decreases |list.input| - list.position
    {
      var first :- DecodeVarbind(list);
      assert all.Ok? ==> all.value == varbinds + ([first] + ParseVarbinds(list.Remaining()).value);
      varbinds := varbinds + [first];
    }
    assert list.Remaining() == [] && varbinds + [] == varbinds;
    r := Ok(varbinds);
  }

  /** Promotes a structural value to its SMIv2 type. */
  function ToValue(d: DecodedValue): BerResult<VarbindValue>
  {
    match d
    case DUnspecified => Ok(Unspecified)
    case DNoSuchObject => Ok(NoSuchObject)
    case DNoSuchInstance => Ok(NoSuchInstance)
    case DEndOfMibView => Ok(EndOfMibView)
    case DInteger(n) => Ok(Bound(Integer32(n)))
    case DOctetString(s) => Ok(Bound(OctetString(s)))
    case DObjectIdentifier(o) => Ok(Bound(ObjectIdentifier(o)))
    case DRaw(tag, s) =>
      if tag == TAG_IP_ADDRESS then if |s| == 4 then Ok(Bound(IpAddress(s))) else Err(Malformed)
      else if tag == TAG_OPAQUE then Ok(Bound(Opaque(s)))
      else if tag == TAG_COUNTER64 then
        match BerInteger.DecodeUnsigned64(s) case Some(n) => Ok(Bound(Counter64(n))) case None => Err(Malformed)
      else match BerInteger.DecodeUnsigned32(s)
           case None => Err(Malformed)
           case Some(n) =>
             if tag == TAG_COUNTER32 then Ok(Bound(Counter32(n)))
             else if tag == TAG_GAUGE32 then Ok(Bound(Gauge32(n)))
             else if tag == TAG_TIMETICKS then Ok(Bound(TimeTicks(n)))
             else Err(Malformed)
  }

  function PromoteAll(ds: seq<DecodedVarbind>): BerResult<seq<Varbind>>
  {
    if ds == [] then Ok([]) else
    var v :- ToValue(ds[0].value);
    var more :- PromoteAll(ds[1..]);
    Ok([Varbind(ds[0].name, v)] + more)
  }

  /** `decode_varbind_list_to_varbinds`. */
  function DecodeVarbinds(raw: bytes): BerResult<seq<Varbind>>
  {
    var ds :- ParseVarbindList(raw);
    PromoteAll(ds)
  }

  // ----- round trip -----

  function Structural(v: VarbindValue): DecodedValue
  {
    match v
    case Unspecified => DUnspecified
    case NoSuchObject => DNoSuchObject
    case NoSuchInstance => DNoSuchInstance
    case EndOfMibView => DEndOfMibView
    case Bound(Integer32(n)) => DInteger(n)
    case Bound(OctetString(s)) => DOctetString(s)
    case Bound(ObjectIdentifier(o)) => DObjectIdentifier(o)
    case Bound(_) => DRaw(ValueContents(v).0, ValueContents(v).1)
  }

  lemma ValueRoundTrip(v: VarbindValue)
    ensures InterpretValue(ValueContents(v).0, ValueContents(v).1) == Ok(Structural(v))
    ensures ToValue(Structural(v)) == Ok(v)
  {
    hide BerInteger.EncodeSigned, BerInteger.EncodeUnsigned32, BerInteger.EncodeUnsigned64, BerOid.EncodedOid;
    hide BerInteger.DecodeSigned, BerInteger.DecodeUnsigned32, BerInteger.DecodeUnsigned64, BerOid.DecodedOid;
    match v {
      case Bound(Integer32(n)) => BerInteger.SignedRoundTrip(n);
      case Bound(ObjectIdentifier(o)) => BerOid.OidRoundTrip(o);
      case Bound(Counter32(n)) => BerInteger.UnsignedRoundTrip(n);
      case Bound(Gauge32(n)) => BerInteger.UnsignedRoundTrip(n);
      case Bound(TimeTicks(n)) => BerInteger.UnsignedRoundTrip(n);
      case Bound(Counter64(n)) => BerInteger.UnsignedRoundTrip(n);
      case _ =>
    }
  }

  lemma ParseValueOfValue(v: VarbindValue)
    requires |ValueContents(v).1| < TWO_64
    ensures ParseValue(ValueTlv(v)) == Ok(Structural(v))
  {
    ValueRoundTrip(v);
    ParseTlvOfTlv(ValueContents(v).0, ValueContents(v).1, []);
    assert ValueTlv(v) + [] == ValueTlv(v);
  }

  lemma ParseVarbindOfVarbind(vb: Varbind, rest: bytes)
    requires |VarbindBytes(vb)| < TWO_64
    ensures ParseVarbind(VarbindBytes(vb) + rest) == Ok((DecodedVarbind(vb.oid, Structural(vb.value)), rest))
  {
    hide Expect, ExpectOid, ParseValue, Tlv, ValueContents, OidTlv;
    var contents := OidTlv(vb.oid) + ValueTlv(vb.value);
    ParseValueOfValue(vb.value);
    ExpectOidOfOid(vb.oid, ValueTlv(vb.value));
    ExpectOfTlv(TAG_SEQUENCE, contents, rest);
  }

  lemma {:induction false} VarbindsRoundTrip(vbs: seq<Varbind>)
    requires |ConcatVarbinds(vbs)| < TWO_64
    ensures var p := ParseVarbinds(ConcatVarbinds(vbs));
            p.Ok? && PromoteAll(p.value) == Ok(vbs)
  {
    hide VarbindBytes, ParseVarbind, ToValue, Structural;
    if vbs != [] {
      var vb, rest := vbs[0], ConcatVarbinds(vbs[1..]);
      ValueRoundTrip(vb.value);
      assert ConcatVarbinds(vbs) != [];
      ParseVarbindOfVarbind(vb, rest);
      VarbindsRoundTrip(vbs[1..]);
      var p := ParseVarbinds(ConcatVarbinds(vbs)).value;
      assert p[1..] == ParseVarbinds(rest).value;
      assert [vb] + vbs[1..] == vbs;
    }
  }

  /** Every list of bindings, of every value type, survives encoding and decoding. */
  lemma VarbindListRoundTrip(vbs: seq<Varbind>)
    requires |VarbindList(vbs)| < TWO_64
    ensures DecodeVarbinds(VarbindList(vbs)) == Ok(vbs)
  {
    VarbindsRoundTrip(vbs);
    ExpectOfTlv(TAG_SEQUENCE, ConcatVarbinds(vbs), []);
    assert VarbindList(vbs) + [] == VarbindList(vbs);
  }

  /** A binding holds a name and one value; with anything behind the value it is rejected. */
  lemma BindingEndsWithValue(vb: Varbind, more: bytes, rest: bytes)
    requires more != [] && |OidTlv(vb.oid) + (ValueTlv(vb.value) + more)| < TWO_64
    ensures ParseVarbind(Sequence(OidTlv(vb.oid) + (ValueTlv(vb.value) + more)) + rest).Err?
  {
    hide Expect, ExpectOid, Tlv, ValueContents, OidTlv, ParseTlv, InterpretValue;
    ExpectOfTlv(TAG_SEQUENCE, OidTlv(vb.oid) + (ValueTlv(vb.value) + more), rest);
    ExpectOidOfOid(vb.oid, ValueTlv(vb.value) + more);
    assert |ValueContents(vb.value).1| <= |ValueTlv(vb.value)|;
    ParseTlvOfTlv(ValueContents(vb.value).0, ValueContents(vb.value).1, more);
  }

  /** Which contents each tag admits, in numbers; any tag not listed names no value. */
  lemma ValueAdmitted(tag: byte, contents: bytes)
    ensures var d := InterpretValue(tag, contents);
            (d.Ok? && ToValue(d.value).Ok?) <==>
            if tag in {0x05, 0x80, 0x81, 0x82} then contents == []
            else if tag == 0x02 then BerInteger.DecodeSigned(contents).Some?
            else if tag == 0x06 then BerOid.DecodedOid(contents).Some?
            else if tag == 0x40 then |contents| == 4
            else if tag in {0x41, 0x42, 0x43} then BerInteger.DecodeUnsigned32(contents).Some?
            else if tag == 0x46 then BerInteger.DecodeUnsigned64(contents).Some?
            else tag == 0x04 || tag == 0x44
  {
    hide BerInteger.DecodeSigned, BerInteger.DecodeUnsigned32, BerInteger.DecodeUnsigned64, BerOid.DecodedOid;
  }
}
