/** ASN.1 INTEGER contents octets (X.690 section 8.3). */
module BerInteger {
  import opened Bytes

  /** The two's-complement value of an octet string. */
  function Twos(s: bytes): int
  {
    if s != [] && High(s[0]) then Be(s) - Pow256(|s|) else Be(s)
  }

  /** A leading octet that only repeats the sign of the octet after it. */
  predicate RedundantAt(s: bytes, i: nat)
  {
    i + 1 < |s| && ((s[i] == 0 && !High(s[i + 1])) || (s[i] == 255 && High(s[i + 1])))
  }

  /** Shortest form: no redundant leading octet. */
  predicate Minimal(s: bytes) { s != [] && !RedundantAt(s, 0) }

  /** How many of the first `limit` octets equal `b` (`take_while(..).count()`). */
  function CountLeading(s: bytes, b: byte, limit: nat): (k: nat)
    requires limit <= |s|
    ensures k <= limit && (forall i :: 0 <= i < k ==> s[i] == b) && (k < limit ==> s[k] != b)
  {
    if limit == 0 || s[0] != b then 0 else 1 + CountLeading(s[1..], b, limit - 1)
  }

  // ----- encoders -----

  function EncodeSigned(v: i32): bytes
  {
    var raw := ToBe(if v >= 0 then v else v + TWO_32, 4);
    var strip := if v >= 0 then 0 else 255;
    var skip := CountLeading(raw, strip, 3);
    var needsSign := (v > 0 && High(raw[skip])) || (v < 0 && !High(raw[skip]));
    raw[if needsSign && skip > 0 then skip - 1 else skip..]
  }

  function EncodeUnsignedBytes(raw: bytes): bytes
    requires raw != []
  {
    var significant := raw[CountLeading(raw, 0, |raw| - 1)..];
    if High(significant[0]) then [0] + significant else significant
  }

  function EncodeUnsigned32(v: u32): bytes { EncodeUnsignedBytes(ToBe(v, 4)) }

  function EncodeUnsigned64(v: u64): bytes { EncodeUnsignedBytes(ToBe(v, 8)) }

  // ----- decoders -----

  /** Index of the first octet that is not redundant, counting from `i`. */
  function FirstSignificant(s: bytes, i: nat, negative: bool): (k: nat)
    requires i < |s|
    ensures i <= k < |s|
    ensures forall j :: i <= j < k ==> RedundantAt(s, j)
    ensures High(s[i]) == negative ==> High(s[k]) == negative && !RedundantAt(s, k)
    decreases |s| - i
  {
    if i + 1 < |s| && s[i] == (if negative then 255 else 0) && High(s[i + 1]) == negative
    then FirstSignificant(s, i + 1, negative)
    else i
  }

  function DecodeSigned(s: bytes): Option<i32>
  {
    if s == [] then None else
    var significant := s[FirstSignificant(s, 0, High(s[0]))..];
    if |significant| > 4 then None else
    var word := seq(4 - |significant|, _ => if High(significant[0]) then 255 else 0) + significant;
    WordInRange(word);
    Some(Twos(word))
  }

  function DecodeUnsigned(s: bytes, n: nat): Option<u64>
    requires n == 4 || n == 8
  {
    if s == [] || High(s[0]) then None else
    var significant := s[CountLeading(s, 0, |s| - 1)..];
    if |significant| > n then None else
    var word := Zeros(8 - |significant|) + significant;
    Pow256Values(); BeBound(word);
    Some(Be(word))
  }

  function DecodeUnsigned32(s: bytes): Option<u32>
  {
    var v :- DecodeUnsigned(s, 4);
    if v < TWO_32 then Some(v) else None
  }

  function DecodeUnsigned64(s: bytes): Option<u64> { DecodeUnsigned(s, 8) }

  // ----- two's-complement facts -----

  lemma WordInRange(word: bytes)
    requires |word| == 4
    ensures -TWO_31 <= Twos(word) < TWO_31
  {
    TwosBound(word);
    Pow256Values();
  }

  /** `n` octets reach exactly half of `256^n` in each direction. */
  lemma TwosBound(s: bytes)
    requires s != []
    ensures -128 * Pow256(|s| - 1) <= Twos(s) < 128 * Pow256(|s| - 1)
  {
    BeHead(s);
    BeBound(s[1..]);
    var p := Pow256(|s| - 1);
    if High(s[0]) {
      MulMono(128, s[0], p);
      MulMono(s[0], 255, p);
    } else {
      MulMono(s[0], 127, p);
    }
  }

  lemma TwosDropRedundant(s: bytes)
    requires RedundantAt(s, 0)
    ensures Twos(s) == Twos(s[1..])
  {
    BeHead(s);
  }

  lemma {:induction false} TwosDrop(s: bytes, k: nat)
    requires k < |s| && forall i :: 0 <= i < k ==> RedundantAt(s, i)
    ensures Twos(s[k..]) == Twos(s)
  {
    if k > 0 {
      assert RedundantAt(s, 0);
      TwosDropRedundant(s);
      forall i | 0 <= i < k - 1 ensures RedundantAt(s[1..], i) { assert RedundantAt(s, i + 1); }
      TwosDrop(s[1..], k - 1);
      assert s[1..][k - 1..] == s[k..];
    } else {
      assert s[0..] == s;
    }
  }

  /** Sign extension does not change the value. */
  lemma TwosExtend(s: bytes, k: nat)
    requires s != []
    ensures Twos(seq(k, _ => if High(s[0]) then 255 else 0) + s) == Twos(s)
  {
    var word: bytes := seq(k, _ => if High(s[0]) then 255 else 0) + s;
    forall i | 0 <= i < k ensures RedundantAt(word, i) {}
    TwosDrop(word, k);
    assert word[k..] == s;
  }

  /** A minimal string of two or more octets lies outside the reach of any shorter one. */
  lemma MinimalReach(s: bytes)
    requires Minimal(s) && |s| >= 2
    ensures Twos(s) >= 128 * Pow256(|s| - 2) || Twos(s) < -128 * Pow256(|s| - 2)
  {
    var p := Pow256(|s| - 2);
    assert Pow256(|s| - 1) == 256 * p;
    BeHead(s);
    BeHead(s[1..]);
    BeBound(s[2..]);
    assert s[1..][1..] == s[2..];
    if High(s[0]) {
      if s[0] == 255 {
        MulMono(s[1], 127, p);
      } else {
        MulMono(s[0], 254, 256 * p);
        MulMono(s[1], 255, p);
      }
    } else if s[0] == 0 {
      MulMono(128, s[1], p);
    } else {
      MulMono(1, s[0], 256 * p);
    }
  }

  /** Octets of a two's-complement integer, from its range. */
  function SignedWidth(v: i32): nat
  {
    if -0x80 <= v < 0x80 then 1
    else if -0x8000 <= v < 0x8000 then 2
    else if -0x80_0000 <= v < 0x80_0000 then 3
    else 4
  }

  lemma EncodeSignedWidth(v: i32)
    ensures |EncodeSigned(v)| == SignedWidth(v)
  {
    hide EncodeSigned, Minimal, Twos;
    EncodeSignedCorrect(v);
    Pow256Values();
    TwosBound(EncodeSigned(v));
    if |EncodeSigned(v)| >= 2 { MinimalReach(EncodeSigned(v)); }
  }

  /** A minimal string is the only shortest string for its value. */
  lemma MinimalIsShortest(s: bytes, t: bytes)
    requires Minimal(s) && t != [] && Twos(s) == Twos(t)
    ensures |s| <= |t|
    ensures |s| == |t| ==> s == t
  {
    if |t| < |s| {
      MinimalReach(s);
      TwosBound(t);
      Pow256Mono(|t| - 1, |s| - 2);
      assert false;
    }
    if |s| == |t| {
      BeBound(s);
      BeBound(t);
      BeInjective(s, t);
    }
  }

  // ----- main results: signed -----

  lemma EncodeSignedCorrect(v: i32)
    ensures Twos(EncodeSigned(v)) == v
    ensures Minimal(EncodeSigned(v))
    ensures 1 <= |EncodeSigned(v)| <= 4
  {
    var raw := ToBe(if v >= 0 then v else v + TWO_32, 4);
    Pow256Values();
    BeToBe(if v >= 0 then v else v + TWO_32, 4);
    BeHead(raw);
    BeBound(raw[1..]);
    assert High(raw[0]) == (v < 0) && Twos(raw) == v;
    var strip := if v >= 0 then 0 else 255;
    var skip := CountLeading(raw, strip, 3);
    if v == 0 && skip < 3 {
      BeDropZeros(raw, skip);
      BeHeadBound(raw[skip..]);
      assert false;
    }
    if v == 0 { BeDropZeros(raw, 3); assert raw[3..] == [raw[3]]; assert Be(raw[3..]) == raw[3]; }
    var start := |raw| - |EncodeSigned(v)|;
    assert EncodeSigned(v) == raw[start..];
    forall i | 0 <= i < start ensures RedundantAt(raw, i) {}
    TwosDrop(raw, start);
  }

  /** Decoding accepts exactly the non-empty strings whose value fits, at any length. */
  lemma DecodeSignedExact(s: bytes)
    ensures DecodeSigned(s) ==
            if s != [] && -TWO_31 <= Twos(s) < TWO_31 then Some(Twos(s)) else None
  {
    if s != [] {
      var negative := High(s[0]);
      var k := FirstSignificant(s, 0, negative);
      var significant := s[k..];
      TwosDrop(s, k);
      assert Minimal(significant);
      Pow256Values();
      if |significant| > 4 {
        MinimalReach(significant);
        Pow256Mono(3, |significant| - 2);
      } else {
        TwosExtend(significant, 4 - |significant|);
        WordInRange(seq(4 - |significant|, _ => if High(significant[0]) then 255 else 0) + significant);
      }
    }
  }

  lemma SignedRoundTrip(v: i32)
    ensures DecodeSigned(EncodeSigned(v)) == Some(v)
  {
    EncodeSignedCorrect(v);
    DecodeSignedExact(EncodeSigned(v));
  }

  // ----- main results: unsigned -----

  lemma EncodeUnsignedCorrect(raw: bytes)
    requires raw != []
    ensures Be(EncodeUnsignedBytes(raw)) == Be(raw) == Twos(EncodeUnsignedBytes(raw))
    ensures Minimal(EncodeUnsignedBytes(raw))
    ensures 1 <= |EncodeUnsignedBytes(raw)| <= |raw| + 1
  {
    var k := CountLeading(raw, 0, |raw| - 1);
    var significant := raw[k..];
    BeDropZeros(raw, k);
    if High(significant[0]) {
      BeDropZero([0] + significant);
      assert ([0] + significant)[1..] == significant;
    }
  }

  lemma DecodeUnsignedExact(s: bytes, n: nat)
    requires n == 4 || n == 8
    ensures DecodeUnsigned(s, n) ==
            if s != [] && !High(s[0]) && Be(s) < Pow256(n) then Some(Be(s)) else None
  {
    if s != [] && !High(s[0]) {
      var k := CountLeading(s, 0, |s| - 1);
      var significant := s[k..];
      BeDropZeros(s, k);
      if |significant| > n {
        BeHeadBound(significant);
        Pow256Mono(n, |significant| - 1);
      } else {
        var word := Zeros(8 - |significant|) + significant;
        BeDropZeros(word, 8 - |significant|);
        assert word[8 - |significant|..] == significant;
        BeBound(significant);
        Pow256Mono(|significant|, n);
      }
    }
  }

  lemma UnsignedRoundTrip(v: u64)
    ensures DecodeUnsigned64(EncodeUnsigned64(v)) == Some(v) && |EncodeUnsigned64(v)| <= 9
    ensures v < TWO_32 ==> DecodeUnsigned32(EncodeUnsigned32(v)) == Some(v) && |EncodeUnsigned32(v)| <= 5
  {
    Pow256Values();
    EncodeUnsignedCorrect(ToBe(v, 8));
    BeToBe(v, 8);
    DecodeUnsignedExact(EncodeUnsigned64(v), 8);
    assert !High(EncodeUnsigned64(v)[0]) by { PositiveHead(EncodeUnsigned64(v)); }
    if v < TWO_32 {
      EncodeUnsignedCorrect(ToBe(v, 4));
      BeToBe(v, 4);
      DecodeUnsignedExact(EncodeUnsigned32(v), 4);
      assert !High(EncodeUnsigned32(v)[0]) by { PositiveHead(EncodeUnsigned32(v)); }
    }
  }

  lemma PositiveHead(s: bytes)
    requires s != [] && Twos(s) == Be(s)
    ensures !High(s[0])
  {}

  /** The largest values need a sign octet in front of all their digits. */
  lemma LargestUnsigned()
    ensures |EncodeUnsigned32(0xFFFF_FFFF)| == 5 && |EncodeUnsigned64(0xFFFF_FFFF_FFFF_FFFF)| == 9
  {
    hide EncodeUnsignedBytes, Twos, Minimal;
    Pow256Values();
    UnsignedRoundTrip(0xFFFF_FFFF);
    UnsignedRoundTrip(0xFFFF_FFFF_FFFF_FFFF);
    BeToBe(0xFFFF_FFFF, 4);
    BeToBe(0xFFFF_FFFF_FFFF_FFFF, 8);
    EncodeUnsignedCorrect(ToBe(0xFFFF_FFFF, 4));
    EncodeUnsignedCorrect(ToBe(0xFFFF_FFFF_FFFF_FFFF, 8));
    ReachNeeds(EncodeUnsigned32(0xFFFF_FFFF), 4);
    ReachNeeds(EncodeUnsigned64(0xFFFF_FFFF_FFFF_FFFF), 8);
  }

  /** A value of at least 128 * 256^(n-1) takes more than `n` octets. */
  lemma ReachNeeds(s: bytes, n: nat)
    requires s != [] && n > 0 && Twos(s) >= 128 * Pow256(n - 1)
    ensures |s| > n
  {
    hide Twos;
    TwosBound(s);
    if |s| <= n { Pow256Mono(|s| - 1, n - 1); }
  }
}
