/** Octets, machine integers and the big-endian reading of octet strings. */
module Bytes {

  datatype Option<+T> = None | Some(value: T) {
    predicate IsFailure() { None? }
    function PropagateFailure<U>(): Option<U>
      requires None?
    {
      None
    }
    function Extract(): T
      requires Some?
    {
      value
    }
  }

  datatype Result<+T, +E> = Ok(value: T) | Err(error: E) {
    predicate IsFailure() { Err? }
    function PropagateFailure<U>(): Result<U, E>
      requires Err?
    {
      Err(error)
    }
    function Extract(): T
      requires Ok?
    {
      value
    }
  }

  type byte = n: nat | n < 256
  type bytes = seq<byte>

  const TWO_31 := 0x8000_0000
  const TWO_32 := 0x1_0000_0000
  const TWO_64 := 0x1_0000_0000_0000_0000

  type i32 = n: int | -TWO_31 <= n < TWO_31
  type u32 = n: nat | n < TWO_32
  type u64 = n: nat | n < TWO_64
  /** A 64-bit target: `usize` has the range of `u64`. */
  type usize = n: nat | n < TWO_64

  /** Whether bit 7 of an octet is set. */
  predicate High(b: byte) { b >= 128 }

  function Zeros(n: nat): (s: bytes)
    ensures |s| == n && forall i :: 0 <= i < n ==> s[i] == 0
  {
    seq(n, _ => 0)
  }

  function Pow256(n: nat): (p: nat)
    ensures p >= 1
  {
    if n == 0 then 1 else 256 * Pow256(n - 1)
  }

  /** The unsigned big-endian value of an octet string. */
  function Be(s: bytes): nat
  {
    if s == [] then 0 else Be(s[..|s| - 1]) * 256 + s[|s| - 1]
  }

  /** The low `k` octets of `n`, most significant first (`to_be_bytes`). */
  function ToBe(n: nat, k: nat): (s: bytes)
    ensures |s| == k
  {
    if k == 0 then [] else ToBe(n / 256, k - 1) + [n % 256]
  }

  /** The big-endian octets of `n` with no leading zero octet. */
  function Digits(n: nat): bytes
  {
    if n == 0 then [] else Digits(n / 256) + [n % 256]
  }

  /** Overwrites `s` at `at` with `patch`. */
  function Splice(s: bytes, at: nat, patch: bytes): (r: bytes)
    requires at + |patch| <= |s|
    ensures |r| == |s|
  {
    s[..at] + patch + s[at + |patch|..]
  }

  /** Overwriting a slice and writing it back restores the whole. */
  lemma SpliceUndo(s: bytes, at: nat, part: bytes, other: bytes)
    requires IsSliceAt(s, at, part) && |other| == |part|
    ensures Splice(Splice(s, at, other), at, part) == s
  {
    assert s == s[..at] + part + s[at + |part|..];
  }

  // ----- slices of slices -----

  predicate IsSliceAt(whole: bytes, at: int, part: bytes)
  {
    0 <= at <= at + |part| <= |whole| && whole[at..at + |part|] == part
  }

  predicate IsSuffix(whole: bytes, part: bytes)
  {
    |part| <= |whole| && whole[|whole| - |part|..] == part
  }

  lemma SliceTrans(whole: bytes, i: int, mid: bytes, j: int, part: bytes)
    requires IsSliceAt(whole, i, mid) && IsSliceAt(mid, j, part)
    ensures IsSliceAt(whole, i + j, part)
  {
    forall k | 0 <= k < |part| ensures whole[i + j + k] == part[k] {
      assert whole[i..i + |mid|][j + k] == mid[j..j + |part|][k];
    }
  }

  lemma SuffixTrans(whole: bytes, mid: bytes, part: bytes)
    requires IsSuffix(whole, mid) && IsSuffix(mid, part)
    ensures IsSuffix(whole, part)
  {
    assert whole[|whole| - |mid|..][|mid| - |part|..] == whole[|whole| - |part|..];
  }

  lemma SuffixSlice(whole: bytes, mid: bytes, at: int, part: bytes)
    requires IsSuffix(whole, mid) && IsSliceAt(mid, at, part)
    ensures IsSliceAt(whole, |whole| - |mid| + at, part)
  {
    SliceTrans(whole, |whole| - |mid|, mid, at, part);
  }

  // ----- powers -----

  lemma Pow256Values()
    ensures Pow256(1) == 0x100 && Pow256(2) == 0x1_0000 && Pow256(3) == 0x100_0000
    ensures Pow256(4) == TWO_32 && Pow256(8) == TWO_64
  {
    assert Pow256(2) == 256 * Pow256(1);
    assert Pow256(3) == 256 * Pow256(2);
    assert Pow256(4) == 256 * Pow256(3);
    assert Pow256(5) == 256 * Pow256(4);
    assert Pow256(6) == 256 * Pow256(5);
    assert Pow256(7) == 256 * Pow256(6);
    assert Pow256(8) == 256 * Pow256(7);
  }

  lemma {:induction false} Pow256Mono(m: nat, n: nat)
    requires m <= n
    ensures Pow256(m) <= Pow256(n)
  {
    if m < n { Pow256Mono(m, n - 1); }
  }

  // ----- big-endian values -----

  lemma {:induction false} BeBound(s: bytes)
    ensures Be(s) < Pow256(|s|)
  {
    if s != [] { BeBound(s[..|s| - 1]); }
  }

  lemma {:induction false} BeConcat(a: bytes, b: bytes)
    ensures Be(a + b) == Be(a) * Pow256(|b|) + Be(b)
  {
    if b == [] {
      assert a + b == a;
    } else {
      var front := b[..|b| - 1];
      BeConcat(a, front);
      assert (a + b)[..|a + b| - 1] == a + front;
      MulAssoc(Be(a), Pow256(|front|), 256);
    }
  }

  lemma MulAssoc(x: int, y: int, z: int)
    ensures x * y * z == x * (z * y)
  {}

  lemma MulMono(x: int, y: int, z: nat)
    requires x <= y
    ensures x * z <= y * z
  {}

  /** The leading octet carries the weight `256^(n-1)`. */
  lemma BeHead(s: bytes)
    requires s != []
    ensures Be(s) == s[0] * Pow256(|s| - 1) + Be(s[1..])
  {
    assert s == [s[0]] + s[1..];
    assert Be([s[0]]) == s[0];
    BeConcat([s[0]], s[1..]);
  }

  lemma BeDropZero(s: bytes)
    requires s != [] && s[0] == 0
    ensures Be(s) == Be(s[1..])
  {
    BeHead(s);
  }

  lemma {:induction false} BeDropZeros(s: bytes, k: nat)
    requires k <= |s| && forall i :: 0 <= i < k ==> s[i] == 0
    ensures Be(s[k..]) == Be(s)
  {
    if k > 0 {
      BeDropZero(s);
      BeDropZeros(s[1..], k - 1);
      assert s[1..][k - 1..] == s[k..];
    } else {
      assert s[0..] == s;
    }
  }

  lemma BeZeros(n: nat)
    ensures Be(Zeros(n)) == 0
  {
    BeDropZeros(Zeros(n), n);
  }

  /** An octet string with a non-zero head reaches the weight of its head. */
  lemma BeHeadBound(s: bytes)
    requires s != [] && s[0] > 0
    ensures Be(s) >= s[0] * Pow256(|s| - 1) >= Pow256(|s| - 1)
  {
    BeHead(s);
    MulMono(1, s[0], Pow256(|s| - 1));
  }

  lemma {:induction false} BeInjective(a: bytes, b: bytes)
    requires |a| == |b| && Be(a) == Be(b)
    ensures a == b
  {
    if a != [] {
      BeInjective(a[..|a| - 1], b[..|b| - 1]);
      assert a == a[..|a| - 1] + [a[|a| - 1]];
      assert b == b[..|b| - 1] + [b[|b| - 1]];
    }
  }

  lemma {:induction false} BeToBe(n: nat, k: nat)
    requires n < Pow256(k)
    ensures Be(ToBe(n, k)) == n
  {
    if k > 0 {
      BeToBe(n / 256, k - 1);
      assert ToBe(n, k)[..k - 1] == ToBe(n / 256, k - 1);
    }
  }

  lemma {:induction false} DigitsCorrect(n: nat)
    ensures Be(Digits(n)) == n
    ensures n > 0 ==> Digits(n) != [] && Digits(n)[0] > 0
  {
    if n > 0 {
      DigitsCorrect(n / 256);
      assert Digits(n)[..|Digits(n)| - 1] == Digits(n / 256);
    }
  }

  /** Below `256^k`, at most `k` significant octets. */
  lemma {:induction false} DigitsBound(n: nat, k: nat)
    requires n < Pow256(k)
    ensures |Digits(n)| <= k
  {
    if n > 0 { DigitsBound(n / 256, k - 1); }
  }

  lemma {:induction false} DigitsMono(m: nat, n: nat)
    requires m <= n
    ensures |Digits(m)| <= |Digits(n)|
  {
    if m > 0 { DigitsMono(m / 256, n / 256); }
  }

  /** Number of significant bits; a 64-bit `leading_zeros` is 64 minus this. */
  function BitLength(n: nat): nat
  {
    if n == 0 then 0 else 1 + BitLength(n / 2)
  }

  lemma BitLengthShift(n: nat)
    requires n >= 256
    ensures BitLength(n) == BitLength(n / 256) + 8
  {
    assert n / 2 / 2 == n / 4 && n / 4 / 2 == n / 8 && n / 8 / 2 == n / 16 && n / 16 / 2 == n / 32;
    assert n / 32 / 2 == n / 64 && n / 64 / 2 == n / 128 && n / 128 / 2 == n / 256;
    assert BitLength(n) == 4 + BitLength(n / 16) by {
      assert BitLength(n / 2) == 1 + BitLength(n / 4) && BitLength(n / 4) == 1 + BitLength(n / 8);
    }
    assert BitLength(n / 16) == 4 + BitLength(n / 256) by {
      assert BitLength(n / 32) == 1 + BitLength(n / 64) && BitLength(n / 64) == 1 + BitLength(n / 128);
    }
  }

  lemma {:induction false} BitLengthDigits(n: nat)
    ensures |Digits(n)| == (BitLength(n) + 7) / 8
  {
    if n >= 256 {
      BitLengthDigits(n / 256);
      BitLengthShift(n);
    } else if n > 0 {
      assert Digits(n / 256) == [];
      BitLengthOctet(n);
    }
  }

  lemma BitLengthOctet(n: nat)
    requires 0 < n < 256
    ensures 1 <= BitLength(n) <= 8
  {
    assert n / 2 < 128 && n / 2 / 2 < 64 && n / 2 / 2 / 2 < 32 && n / 2 / 2 / 2 / 2 < 16;
    BitLengthNibble(n / 2 / 2 / 2 / 2);
    assert BitLength(n) <= 4 + BitLength(n / 2 / 2 / 2 / 2) by {
      assert BitLength(n / 2) <= 1 + BitLength(n / 2 / 2);
      assert BitLength(n / 2 / 2) <= 1 + BitLength(n / 2 / 2 / 2);
    }
  }

  lemma BitLengthNibble(n: nat)
    requires n < 16
    ensures BitLength(n) <= 4
  {
    assert BitLength(n / 2 / 2) <= 2 by { assert BitLength(n / 2 / 2 / 2) <= 1; }
    assert BitLength(n) <= 2 + BitLength(n / 2 / 2) by { assert BitLength(n / 2) <= 1 + BitLength(n / 2 / 2); }
  }

  /** Dropping the zero octets in front of `to_be_bytes` leaves the digit string. */
  lemma {:induction false} ToBeDigits(n: nat, k: nat)
    requires n < Pow256(k)
    ensures |Digits(n)| <= k && ToBe(n, k) == Zeros(k - |Digits(n)|) + Digits(n)
  {
    if n == 0 {
      BeToBe(0, k);
      BeZeros(k);
      BeInjective(ToBe(0, k), Zeros(k));
    } else {
      ToBeDigits(n / 256, k - 1);
    }
  }
}
