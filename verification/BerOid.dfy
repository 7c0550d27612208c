/** OBJECT IDENTIFIER contents octets (X.690 section 8.19). */
module BerOid {
  import opened Bytes
  import opened Oids

  // ----- base-128 sub-identifiers: specification -----

  /** The continuation octets of `v`, most significant group first, no leading empty group. */
  function Continuation(v: nat): bytes
  {
    if v == 0 then [] else Continuation(v / 128) + [128 + v % 128]
  }

  function Base128(v: nat): (s: bytes)
    ensures s != []
  {
    Continuation(v / 128) + [v % 128]
  }

  /** The number written by the low seven bits of each octet. */
  function Value128(s: bytes): nat
  {
    if s == [] then 0 else Value128(s[..|s| - 1]) * 128 + s[|s| - 1] % 128
  }

  /** Length of the first sub-identifier of `s`, when it is complete. */
  function FirstLength(s: bytes): (r: Option<nat>)
    ensures r.Some? ==> 1 <= r.value <= |s| && !High(s[r.value - 1]) && forall i :: 0 <= i < r.value - 1 ==> High(s[i])
    ensures r.None? ==> forall i :: 0 <= i < |s| ==> High(s[i])
  {
    if s == [] then None
    else if !High(s[0]) then Some(1)
    else var n :- FirstLength(s[1..]); Some(n + 1)
  }

  /** The value a 64-bit accumulator holds after the first sub-identifier, and its length. */
  function DecodeFirst(s: bytes): (r: Option<(u64, nat)>)
    ensures r.Some? ==> 1 <= r.value.1 <= |s|
  {
    var n :- FirstLength(s);
    Some((Value128(s[..n]) % TWO_64, n))
  }

  // ----- base-128 sub-identifiers: the loops -----

  type septet = n: nat | n < 128

  /** Seven-bit groups of `v`, least significant first. */
  function Groups(v: nat): seq<septet>
  {
    if v == 0 then [] else [v % 128] + Groups(v / 128)
  }

  /** Groups emitted from the last to the first, each marked as continued. */
  function EmitMarked(g: seq<septet>): bytes
  {
    if g == [] then [] else EmitMarked(g[1..]) + [128 + g[0] as int]
  }

  lemma {:induction false} EmitGroups(v: nat)
    ensures EmitMarked(Groups(v)) == Continuation(v)
  {
    if v > 0 {
      EmitGroups(v / 128);
      assert Groups(v)[1..] == Groups(v / 128);
    }
  }

  /** Octets emitted once the groups at `index` and above are written. */
  function Emitted(g: seq<septet>, index: nat): bytes
    requires index <= |g|
  {
    if index == 0 && g != [] then EmitMarked(g[1..]) + [g[0]] else EmitMarked(g[index..])
  }

  lemma EmitStep(g: seq<septet>, index: nat)
    requires 0 < index <= |g|
    ensures Emitted(g, index - 1) ==
            Emitted(g, index) + [g[index - 1] as int + (if index > 1 then 128 else 0)]
  {
    assert g[index - 1..][1..] == g[index..];
  }

  method EncodeBase128(dest: bytes, value: u64) returns (out: bytes)
    ensures out == dest + Base128(value)
  {
    hide Emitted, Groups, Base128;
    GroupsEnds();
    if value == 0 {
      return dest + [0];
    }
    var groups: seq<septet> := [];
    var remaining: nat := value;
    while remaining > 0
      invariant groups + Groups(remaining) == Groups(value)
    {
      GroupsStep(groups, remaining);
      groups := groups + [remaining % 128];
      remaining := remaining / 128;
    }
    EmittedGroups(value);
    assert groups + [] == groups && groups == Groups(value) && groups != [];
    out := dest;
    var index := |groups|;
    EmittedNone(groups);
    assert out == dest + [];
    while index > 0
      invariant 0 <= index <= |groups|
      invariant out == dest + Emitted(groups, index)
    {
      EmitStep(groups, index);
      index := index - 1;
      var octet: byte := groups[index] as int + (if index > 0 then 128 else 0);
      assert dest + (Emitted(groups, index + 1) + [octet]) == dest + Emitted(groups, index + 1) + [octet];
      out := out + [octet];
    }
  }

  lemma GroupsEnds()
    ensures Groups(0) == [] && Base128(0) == [0]
  {}

  lemma EmittedNone(g: seq<septet>)
    requires g != []
    ensures Emitted(g, |g|) == []
  {}

  lemma GroupsStep(g: seq<septet>, v: nat)
    requires v > 0
    ensures g + Groups(v) == g + [v % 128] + Groups(v / 128)
  {}

  lemma EmittedGroups(v: nat)
    requires v > 0
    ensures Groups(v) != [] && Emitted(Groups(v), 0) == Base128(v)
  {
    EmitGroups(v / 128);
    assert Groups(v)[1..] == Groups(v / 128);
  }

  const TWO_57 := 0x200_0000_0000_0000

  lemma Residue(n: nat, q: int, r: nat)
    requires n == TWO_64 * q + r && r < TWO_64
    ensures n % TWO_64 == r
  {}

  /** The shift drops bits above 64 and clears the low seven, so the addition never overflows. */
  lemma ShiftStep(x: nat, d: nat)
    requires d < 128
    ensures x % TWO_64 * 128 % TWO_64 + d == (x * 128 + d) % TWO_64
  {
    var q, r := x / TWO_57, x % TWO_57;
    Residue(x * 128 + d, q, 128 * r + d);
    Residue(x % TWO_64 * 128, q - 128 * (x / TWO_64), 128 * r);
  }

  method DecodeBase128(s: bytes) returns (r: Option<(u64, nat)>)
    ensures r == DecodeFirst(s)
  {
    var accumulator: u64 := 0;
    var consumed := 0;
    while true
      invariant 0 <= consumed <= |s|
      invariant forall i :: 0 <= i < consumed ==> High(s[i])
      invariant accumulator == Value128(s[..consumed]) % TWO_64
      decreases |s| - consumed
    {
      if consumed == |s| {
        return None;
      }
      var octet := s[consumed];
      assert s[..consumed + 1][..consumed] == s[..consumed];
      ShiftStep(Value128(s[..consumed]), octet % 128);
      consumed := consumed + 1;
      accumulator := accumulator * 128 % TWO_64 + octet % 128;
      if !High(octet) {
        assert FirstLength(s) == Some(consumed);
        return Some((accumulator, consumed));
      }
    }
  }

  // ----- object identifiers -----

  function EncodeArcs(ids: seq<u64>): bytes
  {
    if ids == [] then [] else Base128(ids[0]) + EncodeArcs(ids[1..])
  }

  lemma {:induction false} EncodeArcsSnoc(ids: seq<u64>, v: u64)
    ensures EncodeArcs(ids + [v]) == EncodeArcs(ids) + Base128(v)
  {
    if ids == [] {
      assert ids + [v] == [v] && [v][1..] == [];
    } else {
      EncodeArcsSnoc(ids[1..], v);
      assert (ids + [v])[1..] == ids[1..] + [v];
    }
  }

  function Combined(o: Oid): u64 { o[0] as int * 40 + o[1] as int }

  /** The sub-identifiers of an OID: the first two arcs are combined. */
  function SubIds(o: Oid): (s: seq<u64>)
    ensures |s| == |o| - 1
  {
    [Combined(o)] + o[2..]
  }

  function EncodedOid(o: Oid): bytes { EncodeArcs(SubIds(o)) }

  method EncodeOid(o: Oid) returns (encoded: bytes)
    ensures encoded == EncodedOid(o)
  {
    encoded := EncodeBase128([], Combined(o));
    ghost var ids := SubIds(o);
    assert ids[..1] == [Combined(o)] && ids[..1][1..] == [];
    var i := 2;
    while i < |o|
      invariant 2 <= i <= |o|
      invariant encoded == EncodeArcs(ids[..i - 1])
    {
      EncodeArcsSnoc(ids[..i - 1], o[i]);
      assert ids[..i] == ids[..i - 1] + [o[i]];
      encoded := EncodeBase128(encoded, o[i]);
      i := i + 1;
    }
    assert ids[..|ids|] == ids;
  }

  function DecodeArcs(s: bytes): Option<seq<u64>>
    decreases |s|
  {
    if s == [] then Some([]) else
    var first :- DecodeFirst(s);
    var rest :- DecodeArcs(s[first.1..]);
    Some([first.0] + rest)
  }

  function SplitFirst(combined: u64): (u64, u64)
  {
    if combined < 40 then (0, combined)
    else if combined < 80 then (1, combined - 40)
    else (2, combined - 80)
  }

  function OidOfArcs(ids: seq<u64>): Option<Oid>
  {
    if ids == [] then None else
    var (first, second) := SplitFirst(ids[0]);
    var arcs: seq<u64> := [first, second] + ids[1..];
    if forall i :: 0 <= i < |arcs| ==> arcs[i] < TWO_32 then
      match TryFrom(arcs) case Ok(o) => Some(o) case Err(_) => None
    else None
  }

  function DecodedOid(s: bytes): Option<Oid>
  {
    if s == [] then None else
    var ids :- DecodeArcs(s);
    OidOfArcs(ids)
  }

  method DecodeOid(s: bytes) returns (r: Option<Oid>)
    ensures r == DecodedOid(s)
  {
    hide DecodeFirst, FirstLength, Value128, OidOfArcs;
    if s == [] {
      return None;
    }
    var ids: seq<u64> := [];
    var remaining := s;
    while remaining != []
      invariant DecodeArcs(s).Some? <==> DecodeArcs(remaining).Some?
      invariant DecodeArcs(s).Some? ==> DecodeArcs(s).value == ids + DecodeArcs(remaining).value
      decreases |remaining|
    {
      var first :- DecodeBase128(remaining);
      ghost var tail := DecodeArcs(remaining[first.1..]);
      if tail.Some? { assert ids + ([first.0] + tail.value) == ids + [first.0] + tail.value; }
      ids := ids + [first.0];
      remaining := remaining[first.1..];
    }
    assert ids + [] == ids;
    r := OidOfArcs(ids);
  }

  // ----- base-128 facts -----

  lemma {:induction false} ContinuationValue(v: nat)
    ensures Value128(Continuation(v)) == v
  {
    if v > 0 {
      hide Value128;
      ContinuationValue(v / 128);
      ValueSnoc(Continuation(v / 128), 128 + v % 128);
      LowSeptet(v);
    }
  }

  lemma LowSeptet(v: nat)
    ensures v / 128 * 128 + (128 + v % 128) % 128 == v
  {}

  lemma {:induction false} ContinuationMarked(v: nat)
    ensures forall i :: 0 <= i < |Continuation(v)| ==> High(Continuation(v)[i])
    ensures if v == 0 then Continuation(v) == [] else Continuation(v) != [] && Continuation(v)[0] != 128
  {
    if v > 0 { ContinuationMarked(v / 128); }
  }

  /** The encoding carries the value, ends at its last octet and has no redundant 0x80. */
  lemma Base128Correct(v: nat)
    ensures Value128(Base128(v)) == v
    ensures FirstLength(Base128(v)) == Some(|Base128(v)|)
    ensures Base128(v)[0] != 128
  {
    hide Continuation, FirstLength, Value128;
    ContinuationValue(v / 128);
    ContinuationMarked(v / 128);
    EndsAtLast(Continuation(v / 128), v % 128);
    ValueSnoc(Continuation(v / 128), v % 128);
  }

  lemma {:induction false} EndsAtLast(marked: bytes, last: byte)
    requires !High(last) && forall i :: 0 <= i < |marked| ==> High(marked[i])
    ensures FirstLength(marked + [last]) == Some(|marked| + 1)
  {
    if marked == [] {
      assert marked + [last] == [last];
    } else {
      EndsAtLast(marked[1..], last);
      assert (marked + [last])[1..] == marked[1..] + [last];
    }
  }

  lemma ValueSnoc(s: bytes, last: byte)
    ensures Value128(s + [last]) == Value128(s) * 128 + last % 128
  {
    assert (s + [last])[..|s|] == s;
  }

  lemma {:induction false} FirstLengthAppend(s: bytes, rest: bytes)
    requires FirstLength(s).Some?
    ensures FirstLength(s + rest) == FirstLength(s)
  {
    if High(s[0]) {
      assert (s + rest)[1..] == s[1..] + rest;
      FirstLengthAppend(s[1..], rest);
    }
  }

  lemma DecodeEncodedFirst(v: nat, rest: bytes)
    ensures FirstLength(Base128(v) + rest) == Some(|Base128(v)|)
    ensures DecodeFirst(Base128(v) + rest) == Some((v % TWO_64, |Base128(v)|))
  {
    Base128Correct(v);
    FirstLengthAppend(Base128(v), rest);
    assert (Base128(v) + rest)[..|Base128(v)|] == Base128(v);
  }

  lemma {:induction false} Value128LeadingZero(s: bytes)
    ensures Value128([128] + s) == Value128(s)
  {
    if s == [] {
      assert ([128] + s)[..0] == [];
    } else {
      Value128LeadingZero(s[..|s| - 1]);
      assert ([128] + s)[..|s|] == [128] + s[..|s| - 1];
    }
  }

  /** A redundant leading 0x80 octet never changes the decoded value. */
  lemma RedundantLeadingOctet(s: bytes)
    requires DecodeFirst(s).Some?
    ensures DecodeFirst([128] + s) == Some((DecodeFirst(s).value.0, DecodeFirst(s).value.1 + 1))
  {
    var n := FirstLength(s).value;
    assert ([128] + s)[1..] == s;
    assert ([128] + s)[..n + 1] == [128] + s[..n];
    Value128LeadingZero(s[..n]);
  }

  lemma {:induction false} ContinuationMono(m: nat, n: nat)
    requires m <= n
    ensures |Continuation(m)| <= |Continuation(n)|
  {
    if m > 0 { ContinuationMono(m / 128, n / 128); }
  }

  lemma {:induction false} ContinuationShortest(s: bytes)
    ensures |Continuation(Value128(s))| <= |s|
  {
    if s != [] {
      ContinuationShortest(s[..|s| - 1]);
      assert Value128(s) / 128 == Value128(s[..|s| - 1]);
    }
  }

  /** Sub-identifiers below 2^35, which covers every arc pair, take at most five octets. */
  lemma Base128Bound(v: nat)
    requires v < 0x8_0000_0000
    ensures |Base128(v)| <= 5
  {
    ContinuationMono(v / 128, 0xFFF_FFFF);
    assert |Continuation(0xFFF_FFFF)| == 4 by {
      assert Continuation(0x7F) == [255] by { assert Continuation(0) == []; }
      assert |Continuation(0x3FFF)| == 2;
      assert |Continuation(0x1F_FFFF)| == 3;
    }
  }

  // ----- main results -----

  lemma DecodeEncodedId(v: u64, rest: bytes)
    ensures DecodeFirst(Base128(v) + rest) == Some((v, |Base128(v)|))
  {
    hide Base128, DecodeFirst, FirstLength;
    DecodeEncodedFirst(v, rest);
  }

  lemma {:induction false} DecodeEncodedArcs(ids: seq<u64>)
    ensures DecodeArcs(EncodeArcs(ids)) == Some(ids)
  {
    hide Base128, DecodeFirst;
    if ids != [] {
      var rest := EncodeArcs(ids[1..]);
      DecodeEncodedId(ids[0], rest);
      assert (Base128(ids[0]) + rest)[|Base128(ids[0])|..] == rest;
      DecodeEncodedArcs(ids[1..]);
      assert [ids[0]] + ids[1..] == ids;
    }
  }

  /** Splitting the first sub-identifier is the inverse of combining two arcs. */
  lemma OidOfArcsInverse(ids: seq<u64>)
    requires OidOfArcs(ids).Some?
    ensures SubIds(OidOfArcs(ids).value) == ids
  {
    var (first, second) := SplitFirst(ids[0]);
    assert OidOfArcs(ids).value == [first, second] + ids[1..];
    assert ids == [ids[0]] + ids[1..];
  }

  /** Every valid OID survives encoding and decoding, whatever its second arc. */
  lemma OidRoundTrip(o: Oid)
    ensures DecodedOid(EncodedOid(o)) == Some(o)
    ensures EncodedOid(o) != []
  {
    DecodeEncodedArcs(SubIds(o));
    OidOfSubIds(o);
  }

  lemma OidOfSubIds(o: Oid)
    ensures OidOfArcs(SubIds(o)) == Some(o)
  {
    var ids := SubIds(o);
    assert SplitFirst(ids[0]) == (o[0], o[1]);
    assert [o[0], o[1]] + ids[1..] == o;
  }

  lemma OidEncodingInjective(a: Oid, b: Oid)
    requires EncodedOid(a) == EncodedOid(b)
    ensures a == b
  {
    OidRoundTrip(a);
    OidRoundTrip(b);
  }

  lemma {:induction false} EncodeArcsBound(ids: seq<u64>)
    requires forall i :: 0 <= i < |ids| ==> ids[i] < 0x8_0000_0000
    ensures |EncodeArcs(ids)| <= 5 * |ids|
  {
    if ids != [] {
      Base128Bound(ids[0]);
      EncodeArcsBound(ids[1..]);
    }
  }

  lemma EncodedOidBound(o: Oid)
    ensures |EncodedOid(o)| <= 5 * (|o| - 1)
  {
    EncodeArcsBound(SubIds(o));
  }

  /** The sub-identifiers actually written in `s`, without the 64-bit wrap-around. */
  function WrittenIds(s: bytes): Option<seq<nat>>
    decreases |s|
  {
    if s == [] then Some([]) else
    var n :- FirstLength(s);
    var rest :- WrittenIds(s[n..]);
    Some([Value128(s[..n])] + rest)
  }

  lemma {:induction false} DecodeArcsWraps(s: bytes)
    ensures DecodeArcs(s).Some? <==> WrittenIds(s).Some?
    ensures DecodeArcs(s).Some? ==> |DecodeArcs(s).value| == |WrittenIds(s).value|
    ensures DecodeArcs(s).Some? ==> forall i :: 0 <= i < |DecodeArcs(s).value| ==>
                                                  DecodeArcs(s).value[i] == WrittenIds(s).value[i] % TWO_64
    decreases |s|
  {
    if s != [] && FirstLength(s).Some? { DecodeArcsWraps(s[FirstLength(s).value..]); }
  }

  /** Octets are a row of sub-identifiers exactly when the last octet ends one. */
  lemma {:induction false} ArcsEndAtLast(s: bytes)
    ensures DecodeArcs(s).Some? <==> s == [] || !High(s[|s| - 1])
    decreases |s|
  {
    hide Value128;
    if s != [] && FirstLength(s).Some? { ArcsEndAtLast(s[FirstLength(s).value..]); }
  }

  lemma WrapIdentity(ids: seq<u64>, written: seq<nat>)
    requires |ids| == |written| && forall i :: 0 <= i < |ids| ==> ids[i] == written[i] % TWO_64
    ensures ids == written <==> forall i :: 0 <= i < |written| ==> written[i] < TWO_64
  {
    if ids == written {
      forall i | 0 <= i < |written| ensures written[i] < TWO_64 { assert ids[i] == written[i]; }
    }
  }

  /** The decoder reports what is written exactly when no written sub-identifier reaches 2^64. */
  lemma DecodeOidFaithful(s: bytes)
    requires DecodedOid(s).Some?
    ensures WrittenIds(s).Some?
    ensures SubIds(DecodedOid(s).value) == WrittenIds(s).value <==>
            forall i :: 0 <= i < |WrittenIds(s).value| ==> WrittenIds(s).value[i] < TWO_64
  {
    DecodeArcsWraps(s);
    OidOfArcsInverse(DecodeArcs(s).value);
    WrapIdentity(DecodeArcs(s).value, WrittenIds(s).value);
  }

  lemma {:induction false} WrittenIdsLength(s: bytes)
    requires DecodeArcs(s).Some?
    ensures |EncodeArcs(DecodeArcs(s).value)| <= |s|
    decreases |s|
  {
    if s != [] {
      var (v, n) := DecodeFirst(s).value;
      WrittenIdsLength(s[n..]);
      assert DecodeArcs(s).value[1..] == DecodeArcs(s[n..]).value;
      var written := Value128(s[..n]);
      ContinuationShortest(s[..n - 1]);
      assert s[..n][..n - 1] == s[..n - 1];
      assert written / 128 == Value128(s[..n - 1]);
      ContinuationMono(v / 128, written / 128);
    }
  }

  /** No octet string that decodes to an OID is shorter than the OID's encoding. */
  lemma OidEncodingShortest(s: bytes)
    requires DecodedOid(s).Some?
    ensures |EncodedOid(DecodedOid(s).value)| <= |s|
  {
    OidOfArcsInverse(DecodeArcs(s).value);
    WrittenIdsLength(s);
  }

  lemma WrittenFirst(v: nat, rest: bytes)
    requires WrittenIds(rest).Some?
    ensures WrittenIds(Base128(v) + rest) == Some([v] + WrittenIds(rest).value)
  {
    hide Base128, Value128, FirstLength;
    Base128Correct(v);
    FirstLengthAppend(Base128(v), rest);
    var s := Base128(v) + rest;
    assert s[..|Base128(v)|] == Base128(v) && s[|Base128(v)|..] == rest;
  }

  lemma WrittenAfterHead(v: nat)
    ensures WrittenIds([43] + Base128(v)) == Some([43, v])
  {
    SmallIds();
    hide Base128, Value128, FirstLength, WrittenIds;
    var w: seq<nat> := [v];
    assert Base128(v) + [] == Base128(v) && w + [] == w;
    WrittenFirst(v, []);
    WrittenFirst(43, Base128(v));
    assert [43] + w == [43, v];
  }

  lemma SmallIds()
    ensures Base128(43) == [43] && WrittenIds([]) == Some([])
  {}

  /** The octets written carry 40 times the first arc plus the second, then the other arcs. */
  lemma OidArcsWritten(o: Oid)
    ensures WrittenIds(EncodedOid(o)).Some? && |WrittenIds(EncodedOid(o)).value| == |o| - 1
    ensures WrittenIds(EncodedOid(o)).value[0] == 40 * (o[0] as int) + o[1] as int
    ensures forall i :: 1 <= i < |o| - 1 ==> WrittenIds(EncodedOid(o)).value[i] == o[i + 1]
  {
    hide WrittenIds, EncodeArcs;
    ArcsWritten(SubIds(o));
  }

  lemma {:induction false} ArcsWritten(ids: seq<u64>)
    ensures WrittenIds(EncodeArcs(ids)) == Some(ids)
  {
    if ids != [] {
      ArcsWritten(ids[1..]);
      hide WrittenIds;
      WrittenFirst(ids[0], EncodeArcs(ids[1..]));
      assert [ids[0]] + ids[1..] == ids;
    }
  }

  /** Known octets: 300 in base 128, and the example of section 8.19.5 of X.690. */
  lemma KnownEncodings()
    ensures Base128(300) == [0x82, 0x2C] && EncodedOid([2, 999, 3]) == [0x88, 0x37, 0x03]
  {
    assert Continuation(2) == [0x82] && Continuation(8) == [0x88];
    assert Base128(1079) == [0x88, 0x37] && Base128(3) == [0x03];
    var ids := SubIds([2, 999, 3]);
    assert ids == [1079, 3] && ids[1..] == [3] && [3][1..] == [];
    assert EncodeArcs([3]) == [0x03];
  }

  /** Any sub-identifier that is a 32-bit arc plus a multiple of 2^64 reads as that arc: overflow goes unnoticed. */
  lemma OverflowAccepted(arc: u32, k: nat)
    ensures WrittenIds([43] + Base128(arc + k * TWO_64)) == Some([43, arc + k * TWO_64])
    ensures DecodedOid([43] + Base128(arc + k * TWO_64)) == Some([1, 3, arc])
  {
    hide WrittenIds, DecodeArcs, Base128;
    var v := arc + k * TWO_64;
    var s: bytes := [43] + Base128(v);
    WrittenAfterHead(v);
    DecodeArcsWraps(s);
    Residue(v, k, arc);
    assert DecodeArcs(s).value == [43, arc];
    assert [1, 3] + [43, arc][1..] == [1, 3, arc];
  }
}
