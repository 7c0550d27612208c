/** BER lengths, TLV elements, the reading cursor and the writing buffer (X.690 section 8.1). */
module Ber {
  import opened Bytes
  import opened Oids
  import BerInteger
  import BerOid

  const TAG_INTEGER: byte := 0x02
  const TAG_OCTET_STRING: byte := 0x04
  const TAG_NULL: byte := 0x05
  const TAG_OID: byte := 0x06
  const TAG_SEQUENCE: byte := 0x30

  /** Only the version mismatch is told apart from the other parse failures. */
  datatype BerError = Malformed | WrongVersion

  type BerResult<T> = Result<T, BerError>

  // ----- specification: lengths -----

  /**
    * Short form up to 127, otherwise a count octet and the significant octets.
    * A length of the 64-bit target has at most eight of them; the `else` arm only
    * makes the function total on numbers that are not lengths.
    */
  function EncodedLength(n: nat): (s: bytes)
    ensures 1 <= |s|
  {
    if n <= 127 then [n]
    else var d := Digits(n); [if |d| < 127 then 0x80 + |d| else 0xFF] + d
  }

  function ParseLength(s: bytes): (r: Option<(nat, bytes)>)
    ensures r.Some? ==> |r.value.1| < |s| && r.value.1 == s[|s| - |r.value.1|..]
  {
    if s == [] then None
    else if !High(s[0]) then Some((s[0], s[1..]))
    else
      var count := s[0] - 0x80;
      if s[0] == 0xFF || count == 0 || count > 8 || 1 + count > |s| then None
      else Some((Be(s[1..1 + count]), s[1 + count..]))
  }

  // ----- specification: elements -----

  function Tlv(tag: byte, value: bytes): (s: bytes)
    ensures |s| >= |value| + 2
  {
    [tag] + EncodedLength(|value|) + value
  }

  /** The first element of an octet string and the octets after it. */
  datatype Element = Element(tag: byte, value: bytes, rest: bytes)

  function ParseTlv(s: bytes): (r: Option<Element>)
    ensures r.Some? ==> var e := r.value;
                        |e.value| + |e.rest| + 2 <= |s| && e.tag == s[0] &&
                        IsSliceAt(s, |s| - |e.rest| - |e.value|, e.value) && IsSuffix(s, e.rest)
  {
    if s == [] then None else
    var (n, contents) :- ParseLength(s[1..]);
    if n > |contents| then None
    else Some(Element(s[0], contents[..n], contents[n..]))
  }

  /** Contents and remainder of an element that must carry `tag`. */
  function Expect(s: bytes, tag: byte): (r: BerResult<(bytes, bytes)>)
    ensures r.Ok? ==> |r.value.0| + |r.value.1| + 2 <= |s| &&
                      IsSliceAt(s, |s| - |r.value.1| - |r.value.0|, r.value.0) && IsSuffix(s, r.value.1)
    ensures r.Err? ==> r.error == Malformed
  {
    match ParseTlv(s)
    case None => Err(Malformed)
    case Some(e) => if e.tag == tag then Ok((e.value, e.rest)) else Err(Malformed)
  }

  function ExpectInteger(s: bytes): (r: BerResult<(i32, bytes)>)
    ensures r.Ok? ==> |r.value.1| < |s| && IsSuffix(s, r.value.1)
    ensures r.Err? ==> r.error == Malformed
  {
    var (value, rest) :- Expect(s, TAG_INTEGER);
    match BerInteger.DecodeSigned(value)
    case None => Err(Malformed)
    case Some(v) => Ok((v, rest))
  }

  function ExpectOid(s: bytes): (r: BerResult<(Oid, bytes)>)
    ensures r.Err? ==> r.error == Malformed
  {
    var (value, rest) :- Expect(s, TAG_OID);
    match BerOid.DecodedOid(value)
    case None => Err(Malformed)
    case Some(v) => Ok((v, rest))
  }

  function Integer(v: i32): bytes { Tlv(TAG_INTEGER, BerInteger.EncodeSigned(v)) }

  function Octets(s: bytes): bytes { Tlv(TAG_OCTET_STRING, s) }

  function OidTlv(o: Oid): bytes { Tlv(TAG_OID, BerOid.EncodedOid(o)) }

  function Sequence(contents: bytes): bytes { Tlv(TAG_SEQUENCE, contents) }

  // ----- round trips and canonical form -----

  lemma DigitCount(n: nat)
    requires n < TWO_64
    ensures |Digits(n)| <= 8
  {
    Pow256Values();
    DigitsBound(n, 8);
  }

  /** Reading inverts writing for every `usize` length. */
  lemma LengthRoundTrip(n: usize, rest: bytes)
    ensures ParseLength(EncodedLength(n) + rest) == Some((n, rest))
  {
    var s := EncodedLength(n) + rest;
    if n <= 127 {
      assert s[1..] == rest;
    } else {
      var d := Digits(n);
      DigitCount(n);
      DigitsCorrect(n);
      assert s[1..1 + |d|] == d && s[1 + |d|..] == rest;
    }
  }

  /** No accepted length field for `n` is shorter than the one written. */
  lemma LengthShortest(s: bytes)
    requires ParseLength(s).Some?
    ensures var (n, rest) := ParseLength(s).value;
            n < TWO_64 && |EncodedLength(n)| <= |s| - |rest|
  {
    if High(s[0]) {
      var count := s[0] - 0x80;
      var field := s[1..1 + count];
      BeBound(field);
      Pow256Values();
      Pow256Mono(count, 8);
      DigitsBound(Be(field), count);
    }
  }

  lemma ParseTlvOfTlv(tag: byte, value: bytes, rest: bytes)
    requires |value| < TWO_64
    ensures ParseTlv(Tlv(tag, value) + rest) == Some(Element(tag, value, rest))
  {
    TlvTail(tag, EncodedLength(|value|), value, rest);
    LengthRoundTrip(|value|, value + rest);
  }

  lemma TlvTail(tag: byte, length: bytes, value: bytes, rest: bytes)
    ensures var s := [tag] + length + value + rest;
            s[0] == tag && s[1..] == length + (value + rest)
    ensures (value + rest)[..|value|] == value && (value + rest)[|value|..] == rest
  {}

  lemma ExpectOfTlv(tag: byte, value: bytes, rest: bytes)
    requires |value| < TWO_64
    ensures Expect(Tlv(tag, value) + rest, tag) == Ok((value, rest))
  {
    ParseTlvOfTlv(tag, value, rest);
  }

  lemma ExpectIntegerOfInteger(v: i32, rest: bytes)
    ensures ExpectInteger(Integer(v) + rest) == Ok((v, rest))
  {
    BerInteger.EncodeSignedCorrect(v);
    BerInteger.SignedRoundTrip(v);
    ExpectOfTlv(TAG_INTEGER, BerInteger.EncodeSigned(v), rest);
  }

  lemma ExpectOidOfOid(o: Oid, rest: bytes)
    ensures ExpectOid(OidTlv(o) + rest) == Ok((o, rest))
  {
    BerOid.EncodedOidBound(o);
    BerOid.OidRoundTrip(o);
    ExpectOfTlv(TAG_OID, BerOid.EncodedOid(o), rest);
  }

  // ----- sizes -----

  function LengthSize(n: nat): nat { |EncodedLength(n)| }

  lemma LengthSizeMono(m: nat, n: nat)
    requires m <= n
    ensures LengthSize(m) <= LengthSize(n)
  {
    if n > 127 {
      DigitsMono(1, n);
      if m > 127 { DigitsMono(m, n); }
    }
  }

  lemma LengthSizeBound(n: nat)
    requires n < 0x1_0000
    ensures LengthSize(n) <= 3
  {
    Pow256Values();
    DigitsBound(n, 2);
  }

  lemma TlvSize(tag: byte, value: bytes)
    ensures |Tlv(tag, value)| == 1 + LengthSize(|value|) + |value|
    ensures |value| < 0x1_0000 ==> |Tlv(tag, value)| <= |value| + 4
    ensures |value| <= 127 ==> |Tlv(tag, value)| == |value| + 2
  {
    if |value| < 0x1_0000 { LengthSizeBound(|value|); }
  }

  /** Exactly what is read as a length: short form, or one to eight octets behind 0x81 to 0x88, all present. */
  lemma LengthAccepts(s: bytes)
    ensures ParseLength(s).Some? <==>
            s != [] && (s[0] < 0x80 || (0x81 <= s[0] <= 0x88 && |s| >= 1 + (s[0] - 0x80)))
    ensures ParseLength(s).Some? ==>
              ParseLength(s).value == if s[0] < 0x80 then (s[0] as nat, s[1..])
                                      else (Be(s[1..s[0] - 0x7F]), s[s[0] - 0x7F..])
  {}

  /** An element with up to 127 octets of contents is its tag, their number and the contents. */
  lemma ShortElement(tag: byte, value: bytes)
    requires |value| <= 127
    ensures Tlv(tag, value) == [tag, |value|] + value
  {}

  /** Octets behind an element change nothing about it. */
  lemma ElementExtends(s: bytes, more: bytes)
    requires ParseTlv(s).Some?
    ensures ParseTlv(s + more) == Some(ParseTlv(s).value.(rest := ParseTlv(s).value.rest + more))
  {
    var e, all := ParseTlv(s).value, s + more;
    var (n, contents) := ParseLength(s[1..]).value;
    assert all[1..] == s[1..] + more;
    LengthExtends(s[1..], more);
    assert (contents + more)[..n] == contents[..n] && (contents + more)[n..] == contents[n..] + more;
  }

  lemma LengthExtends(s: bytes, more: bytes)
    requires ParseLength(s).Some?
    ensures ParseLength(s + more) == Some((ParseLength(s).value.0, ParseLength(s).value.1 + more))
  {
    var field := if High(s[0]) then s[0] - 0x7F else 1;
    assert (s + more)[1..field] == s[1..field] && (s + more)[field..] == s[field..] + more;
  }

  /** Up to `limit` octets of contents, tag and length field take at most `k` octets. */
  lemma TlvWithin(tag: byte, value: bytes, limit: nat, k: nat)
    requires |value| <= limit && 1 + LengthSize(limit) <= k
    ensures |Tlv(tag, value)| <= |value| + k
  {
    LengthSizeMono(|value|, limit);
  }

  lemma IntegerSize(v: i32)
    ensures |Integer(v)| <= 6
  {
    BerInteger.EncodeSignedCorrect(v);
    TlvSize(TAG_INTEGER, BerInteger.EncodeSigned(v));
  }

  // ----- the writing buffer -----

  /** `encode_length`: appends the length field for `length` to `dest`. */
  method EncodeLength(dest: bytes, length: usize) returns (out: bytes)
    ensures out == dest + EncodedLength(length)
  {
    if length <= 127 {
      out := dest + [length];
    } else {
      SignificantOctets(length);
      hide Digits, BitLength, ToBe;
      var lengthBytes := ToBe(length, 8);
      var leadingZeroBytes := (64 - BitLength(length)) / 8;
      var significant := lengthBytes[leadingZeroBytes..];
      out := dest + [0x80 + |significant|] + significant;
      assert out == dest + ([0x80 + |significant|] + significant);
    }
  }

  /** Counting leading zero bits finds the significant octets of a 64-bit length. */
  lemma SignificantOctets(n: usize)
    ensures BitLength(n) <= 64 && |Digits(n)| <= 8 && |ToBe(n, 8)| == 8
    ensures (64 - BitLength(n)) / 8 == 8 - |Digits(n)| && ToBe(n, 8)[8 - |Digits(n)|..] == Digits(n)
  {
    hide Digits, BitLength, ToBe;
    Pow256Values();
    ToBeDigits(n, 8);
    BitLengthDigits(n);
    BitLength64(n);
  }

  lemma BitLength64(n: usize)
    ensures BitLength(n) <= 64
  {
    DigitCount(n);
    BitLengthDigits(n);
  }

  class BerWriter {
    var buffer: bytes

    constructor ()
      ensures buffer == []
    {
      buffer := [];
    }

    method WriteRaw(s: bytes)
      modifies this
      ensures buffer == old(buffer) + s
    {
      buffer := buffer + s;
    }

    method WriteTlv(tag: byte, value: bytes)
      requires |value| < TWO_64
      modifies this
      ensures buffer == old(buffer) + Tlv(tag, value)
    {
      hide EncodedLength;
      buffer := buffer + [tag];
      buffer := EncodeLength(buffer, |value|);
      buffer := buffer + value;
    }

    method WriteInteger(v: i32)
      modifies this
      ensures buffer == old(buffer) + Integer(v)
    {
      BerInteger.EncodeSignedCorrect(v);
      WriteTlv(TAG_INTEGER, BerInteger.EncodeSigned(v));
    }

    method WriteOctetString(s: bytes)
      requires |s| < TWO_64
      modifies this
      ensures buffer == old(buffer) + Octets(s)
    {
      WriteTlv(TAG_OCTET_STRING, s);
    }

    method WriteOid(o: Oid)
      modifies this
      ensures buffer == old(buffer) + OidTlv(o)
    {
      BerOid.EncodedOidBound(o);
      var encoded := BerOid.EncodeOid(o);
      WriteTlv(TAG_OID, encoded);
    }
  }

  // ----- the reading cursor -----

  class BerReader {
    const input: bytes
    const baseOffset: nat
    var position: nat

    ghost predicate Valid()
      reads this
    {
      position <= |input|
    }

    constructor (input: bytes, baseOffset: nat)
      ensures Valid() && position == 0 && this.input == input && this.baseOffset == baseOffset
    {
      this.input := input;
      this.baseOffset := baseOffset;
      position := 0;
    }

    function Remaining(): bytes
      requires Valid()
      reads this
    {
      input[position..]
    }

    /** Absolute offset of the cursor in the outermost message. */
    function Offset(): nat
      reads this
    {
      baseOffset + position
    }

    predicate IsEmpty()
      reads this
    {
      position >= |input|
    }

    method PeekTag() returns (r: BerResult<byte>)
      requires Valid()
      ensures r == if Remaining() == [] then Err(Malformed) else Ok(Remaining()[0])
    {
      r := if position < |input| then Ok(input[position]) else Err(Malformed);
    }

    method ReadTag() returns (r: BerResult<byte>)
      requires Valid()
      modifies this
      ensures Valid()
      ensures r.Ok? <==> old(Remaining()) != []
      ensures r.Ok? ==> r.value == old(Remaining())[0] && Remaining() == old(Remaining())[1..]
    {
      var tag :- PeekTag();
      position := position + 1;
      assert input[position..] == old(Remaining())[1..];
      r := Ok(tag);
    }

    method ReadLength() returns (r: BerResult<nat>)
      requires Valid()
      modifies this
      ensures Valid()
      ensures r.Ok? <==> ParseLength(old(Remaining())).Some?
      ensures r.Ok? ==> ParseLength(old(Remaining())) == Some((r.value, Remaining()))
    {
      if position >= |input| {
        return Err(Malformed);
      }
      var firstByte := input[position];
      position := position + 1;
      assert input[position..] == old(Remaining())[1..];
      if !High(firstByte) {
        return Ok(firstByte);
      }
      assert [firstByte] + Remaining() == old(Remaining());
      r := ReadLongFormLength(firstByte);
    }

    method ReadLongFormLength(firstByte: byte) returns (r: BerResult<nat>)
      requires Valid() && High(firstByte)
      modifies this
      ensures Valid()
      ensures r.Ok? <==> ParseLength([firstByte] + old(Remaining())).Some?
      ensures r.Ok? ==> ParseLength([firstByte] + old(Remaining())) == Some((r.value, Remaining()))
    {
      ghost var s := [firstByte] + Remaining();
      if firstByte == 0xFF {
        return Err(Malformed);
      }
      var extra := firstByte - 0x80;
      if extra == 0 || extra > 8 {
        return Err(Malformed);
      }
      if position + extra > |input| {
        return Err(Malformed);
      }
      var lengthBytes := input[position..position + extra];
      assert s[1..1 + extra] == lengthBytes && s[1 + extra..] == input[position + extra..];
      position := position + extra;
      var length := 0;
      var i := 0;
      while i < extra
        invariant 0 <= i <= extra
        invariant length == Be(lengthBytes[..i])
      {
        assert lengthBytes[..i + 1][..i] == lengthBytes[..i];
        length := length * 256 + lengthBytes[i];
        i := i + 1;
        // at most eight octets are accumulated, so the checked arithmetic never overflows
        assert length < TWO_64 by {
          BeBound(lengthBytes[..i]);
          Pow256Values();
          Pow256Mono(i, 8);
        }
      }
      assert lengthBytes[..extra] == lengthBytes;
      r := Ok(length);
    }

    method ReadTlv() returns (r: BerResult<(byte, bytes)>)
      requires Valid()
      modifies this
      ensures Valid()
      ensures r.Ok? <==> ParseTlv(old(Remaining())).Some?
      ensures r.Ok? ==> ParseTlv(old(Remaining())) == Some(Element(r.value.0, r.value.1, Remaining()))
    {
      var tag :- ReadTag();
      var length :- ReadLength();
      if position + length > |input| {
        return Err(Malformed);
      }
      var value := input[position..position + length];
      assert Remaining()[..length] == value && Remaining()[length..] == input[position + length..];
      position := position + length;
      r := Ok((tag, value));
    }

    method ReadExpectedTlv(expectedTag: byte) returns (r: BerResult<bytes>)
      requires Valid()
      modifies this
      ensures Valid()
      ensures r.Ok? <==> Expect(old(Remaining()), expectedTag).Ok?
      ensures r.Ok? ==> Expect(old(Remaining()), expectedTag) == Ok((r.value, Remaining()))
      ensures r.Err? ==> r.error == Malformed
    {
      var element := ReadTlv();
      if element.Err? {
        return Err(Malformed);
      }
      var (tag, value) := element.value;
      if tag != expectedTag {
        return Err(Malformed);
      }
      r := Ok(value);
    }

    /** The sub-reader covers the contents and knows where they start in the message. */
    method ReadConstructed(expectedTag: byte) returns (r: BerResult<BerReader>)
      requires Valid()
      modifies this
      ensures Valid()
      ensures r.Ok? <==> Expect(old(Remaining()), expectedTag).Ok?
      ensures r.Ok? ==> fresh(r.value) && r.value.Valid() && r.value.position == 0
      ensures r.Ok? ==> Expect(old(Remaining()), expectedTag) == Ok((r.value.input, Remaining()))
      ensures r.Ok? ==> r.value.baseOffset + |r.value.input| == Offset()
      ensures r.Err? ==> r.error == Malformed
    {
      var contents :- ReadExpectedTlv(expectedTag);
      var sub := new BerReader(contents, baseOffset + position - |contents|);
      r := Ok(sub);
    }

    method ReadSequence() returns (r: BerResult<BerReader>)
      requires Valid()
      modifies this
      ensures Valid()
      ensures r.Ok? <==> Expect(old(Remaining()), TAG_SEQUENCE).Ok?
      ensures r.Ok? ==> fresh(r.value) && r.value.Valid() && r.value.position == 0
      ensures r.Ok? ==> Expect(old(Remaining()), TAG_SEQUENCE) == Ok((r.value.input, Remaining()))
      ensures r.Ok? ==> r.value.baseOffset + |r.value.input| == Offset()
      ensures r.Err? ==> r.error == Malformed
    {
      r := ReadConstructed(TAG_SEQUENCE);
    }

    method ReadInteger() returns (r: BerResult<i32>)
      requires Valid()
      modifies this
      ensures Valid()
      ensures r.Ok? <==> ExpectInteger(old(Remaining())).Ok?
      ensures r.Ok? ==> ExpectInteger(old(Remaining())) == Ok((r.value, Remaining()))
      ensures r.Err? ==> r.error == Malformed
    {
      var value :- ReadExpectedTlv(TAG_INTEGER);
      var v := BerInteger.DecodeSigned(value);
      r := if v.Some? then Ok(v.value) else Err(Malformed);
    }

    method ReadOctetString() returns (r: BerResult<bytes>)
      requires Valid()
      modifies this
      ensures Valid()
      ensures r.Ok? <==> Expect(old(Remaining()), TAG_OCTET_STRING).Ok?
      ensures r.Ok? ==> Expect(old(Remaining()), TAG_OCTET_STRING) == Ok((r.value, Remaining()))
      ensures r.Err? ==> r.error == Malformed
    {
      r := ReadExpectedTlv(TAG_OCTET_STRING);
    }

    method ReadOid() returns (r: BerResult<Oid>)
      requires Valid()
      modifies this
      ensures Valid()
      ensures r.Ok? <==> ExpectOid(old(Remaining())).Ok?
      ensures r.Ok? ==> ExpectOid(old(Remaining())) == Ok((r.value, Remaining()))
      ensures r.Err? ==> r.error == Malformed
    {
      var value :- ReadExpectedTlv(TAG_OID);
      var o := BerOid.DecodeOid(value);
      r := if o.Some? then Ok(o.value) else Err(Malformed);
    }
  }
}
