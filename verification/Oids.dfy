/** Object identifiers: structural rules, ordering, dotted-decimal text. */
module Oids {
  import opened Bytes

  const MAX_OID_SUB_IDENTIFIERS := 128

  datatype OidError =
    | EmptyString | LeadingDot | TrailingDot | ConsecutiveDots | LeadingZero | InvalidComponent
    | TooFewComponents | InvalidFirstArc | InvalidSecondArc | TooManySubIdentifiers

  predicate ValidOid(c: seq<u32>)
  {
    2 <= |c| <= MAX_OID_SUB_IDENTIFIERS && c[0] <= 2 && (c[0] <= 1 ==> c[1] <= 39)
  }

  type Oid = c: seq<u32> | ValidOid(c) witness [0, 0]

  /** `Oid::try_from`: the first rule violated decides the error. */
  function TryFrom(c: seq<u32>): (r: Result<Oid, OidError>)
    ensures r.Ok? <==> 2 <= |c| <= 128 && c[0] <= 2 && (c[0] < 2 ==> c[1] < 40)
    ensures r.Ok? ==> r.value == c
  {
    if |c| < 2 then Err(TooFewComponents)
    else if c[0] > 2 then Err(InvalidFirstArc)
    else if c[0] <= 1 && c[1] > 39 then Err(InvalidSecondArc)
    else if |c| > MAX_OID_SUB_IDENTIFIERS then Err(TooManySubIdentifiers)
    else Ok(c)
  }

  // ----- ordering -----

  /** Lexicographic order, a proper prefix sorting first. */
  predicate Less(a: seq<u32>, b: seq<u32>)
  {
    b != [] && (a == [] || a[0] < b[0] || (a[0] == b[0] && Less(a[1..], b[1..])))
  }

  lemma {:induction false} LessIrreflexive(a: seq<u32>)
    ensures !Less(a, a)
  {
    if a != [] { LessIrreflexive(a[1..]); }
  }

  lemma {:induction false} LessTransitive(a: seq<u32>, b: seq<u32>, c: seq<u32>)
    requires Less(a, b) && Less(b, c)
    ensures Less(a, c)
  {
    if a != [] && a[0] == b[0] == c[0] { LessTransitive(a[1..], b[1..], c[1..]); }
  }

  lemma {:induction false} LessTotal(a: seq<u32>, b: seq<u32>)
    ensures Less(a, b) || Less(b, a) || a == b
  {
    if a != [] && b != [] && a[0] == b[0] {
      LessTotal(a[1..], b[1..]);
      assert a == [a[0]] + a[1..] && b == [b[0]] + b[1..];
    }
  }

  /** The first arc that differs decides, and a proper prefix comes first. */
  lemma {:induction false} FirstDifferenceDecides(prefix: seq<u32>, x: u32, y: u32, s: seq<u32>, t: seq<u32>)
    ensures x < y ==> Less(prefix + [x] + s, prefix + [y] + t)
    ensures Less(prefix, prefix + [x] + s)
  {
    var a, b := prefix + [x] + s, prefix + [y] + t;
    if prefix != [] {
      FirstDifferenceDecides(prefix[1..], x, y, s, t);
      assert a[1..] == prefix[1..] + [x] + s && b[1..] == prefix[1..] + [y] + t;
    }
  }

  // ----- printing -----

  function DigitChar(d: nat): (c: char)
    requires d < 10
    ensures IsDigit(c) && DigitValue(c) == d
  {
    '0' + d as char
  }

  predicate IsDigit(c: char) { '0' <= c <= '9' }

  function DigitValue(c: char): (d: nat)
    requires IsDigit(c)
    ensures d < 10
  {
    c as int - '0' as int
  }

  function Decimal(n: nat): (s: string)
    ensures s != "" && forall c :: c in s ==> IsDigit(c)
  {
    if n < 10 then [DigitChar(n)] else Decimal(n / 10) + [DigitChar(n % 10)]
  }

  function Join(parts: seq<string>): string
    requires parts != []
  {
    if |parts| == 1 then parts[0] else parts[0] + "." + Join(parts[1..])
  }

  function DecimalParts(c: seq<u32>): (parts: seq<string>)
    ensures |parts| == |c| && forall i :: 0 <= i < |c| ==> parts[i] == Decimal(c[i])
  {
    seq(|c|, i requires 0 <= i < |c| => Decimal(c[i]))
  }

  function Print(o: Oid): string { Join(DecimalParts(o)) }

  /** `Display for Oid`: the first component, then a dot before each later one. */
  method Display(o: Oid) returns (text: string)
    ensures text == Print(o)
  {
    text := Decimal(o[0]);
    assert DecimalParts(o)[..1] == [Decimal(o[0])];
    var i := 1;
    while i < |o|
      invariant 1 <= i <= |o|
      invariant text == Join(DecimalParts(o)[..i])
    {
      var parts := DecimalParts(o);
      JoinSnoc(parts[..i], parts[i]);
      assert parts[..i + 1] == parts[..i] + [parts[i]];
      text := text + "." + Decimal(o[i]);
      i := i + 1;
    }
    assert DecimalParts(o)[..|o|] == DecimalParts(o);
  }

  lemma {:induction false} JoinSnoc(parts: seq<string>, last: string)
    requires parts != []
    ensures Join(parts + [last]) == Join(parts) + "." + last
  {
    if |parts| == 1 {
      assert (parts + [last])[1..] == [last];
    } else {
      JoinSnoc(parts[1..], last);
      assert (parts + [last])[1..] == parts[1..] + [last];
    }
  }

  // ----- parsing -----

  function Split(s: string): (parts: seq<string>)
    ensures parts != []
  {
    if s == "" then [""]
    else if s[0] == '.' then [""] + Split(s[1..])
    else var rest := Split(s[1..]); [[s[0]] + rest[0]] + rest[1..]
  }

  function ParseDigits(s: string): Option<u32>
  {
    if s == "" then Some(0) else
    var high :- ParseDigits(s[..|s| - 1]);
    var c := s[|s| - 1];
    if IsDigit(c) && high * 10 + DigitValue(c) < TWO_32 then Some(high * 10 + DigitValue(c)) else None
  }

  /** `str::parse::<u32>`: one optional leading `+`, then at least one digit. */
  function ParseU32(part: string): Option<u32>
  {
    var digits := if part != "" && part[0] == '+' then part[1..] else part;
    if digits == "" then None else ParseDigits(digits)
  }

  function ParseParts(parts: seq<string>): (r: Result<seq<u32>, OidError>)
    ensures r.Ok? ==> |r.value| == |parts| && forall i :: 0 <= i < |parts| ==> PartGives(parts[i], r.value[i])
  {
    if parts == [] then Ok([]) else
    match ParseU32(parts[0])
    case None => Err(InvalidComponent)
    case Some(v) =>
      if |parts[0]| > 1 && parts[0][0] == '0' then Err(LeadingZero) else
      var rest :- ParseParts(parts[1..]);
      Ok([v] + rest)
  }

  predicate PartGives(part: string, v: u32)
  {
    ParseU32(part) == Some(v) && !(|part| > 1 && part[0] == '0')
  }

  predicate HasDoubleDot(s: string) { exists i :: 0 <= i < |s| - 1 && s[i] == '.' && s[i + 1] == '.' }

  function Parse(s: string): Result<Oid, OidError>
  {
    if s == "" then Err(EmptyString)
    else if s[0] == '.' then Err(LeadingDot)
    else if s[|s| - 1] == '.' then Err(TrailingDot)
    else if HasDoubleDot(s) then Err(ConsecutiveDots)
    else var components :- ParseParts(Split(s)); TryFrom(components)
  }

  // ----- round trips -----

  lemma {:induction false} JoinSplit(s: string)
    ensures Join(Split(s)) == s
  {
    if s == "" {
    } else {
      JoinSplit(s[1..]);
      var rest := Split(s[1..]);
      if s[0] == '.' {
        assert ([""] + rest)[1..] == rest;
      } else {
        assert ([[s[0]] + rest[0]] + rest[1..])[1..] == rest[1..];
      }
      assert s == [s[0]] + s[1..];
    }
  }

  /** A dot-free prefix only lengthens the first part. */
  lemma {:induction false} SplitPrefix(p: string, t: string)
    requires '.' !in p
    ensures Split(p + t) == [p + Split(t)[0]] + Split(t)[1..]
  {
    if p == "" {
      assert p + t == t && p + Split(t)[0] == Split(t)[0];
    } else {
      var q, rest := p[1..], Split(p[1..] + t);
      SplitPrefix(q, t);
      assert (p + t)[1..] == q + t && p[0] in p;
      assert rest[0] == q + Split(t)[0] && rest[1..] == Split(t)[1..];
      assert [p[0]] + (q + Split(t)[0]) == p + Split(t)[0];
    }
  }

  lemma {:induction false} SplitJoin(parts: seq<string>)
    requires parts != [] && forall i :: 0 <= i < |parts| ==> '.' !in parts[i]
    ensures Split(Join(parts)) == parts
  {
    if |parts| == 1 {
      SplitPrefix(parts[0], "");
      assert parts[0] + "" == parts[0];
    } else {
      SplitJoin(parts[1..]);
      var tail := "." + Join(parts[1..]);
      SplitPrefix(parts[0], tail);
      assert tail[1..] == Join(parts[1..]);
      assert parts[0] + "." + Join(parts[1..]) == parts[0] + tail;
      assert Split(tail) == [""] + parts[1..] && Split(tail)[1..] == parts[1..];
      assert parts[0] + "" == parts[0] && parts == [parts[0]] + parts[1..];
    }
  }

  lemma {:induction false} ParseDecimal(n: u32)
    ensures ParseDigits(Decimal(n)) == Some(n)
    ensures Decimal(n)[0] == '0' ==> n == 0 && |Decimal(n)| == 1
  {
    if n >= 10 {
      ParseDecimal(n / 10);
      assert Decimal(n)[..|Decimal(n)| - 1] == Decimal(n / 10);
    } else {
      assert Decimal(n)[..0] == "";
    }
  }

  /** Digits without a leading zero are the decimal text of their value. */
  lemma {:induction false} DecimalParse(s: string)
    requires s != "" && ParseDigits(s).Some? && !(|s| > 1 && s[0] == '0')
    ensures Decimal(ParseDigits(s).value) == s
  {
    var front := s[..|s| - 1];
    assert s == front + [s[|s| - 1]];
    if front != "" {
      DecimalParse(front);
      DecimalSnoc(ParseDigits(front).value, s[|s| - 1] as int - '0' as int);
    }
  }

  lemma DecimalSnoc(n: nat, d: nat)
    requires d < 10 && Decimal(n) != "0"
    ensures Decimal(n * 10 + d) == Decimal(n) + [d as char + '0']
  {
    assert Decimal(0) == "0";
    assert (n * 10 + d) / 10 == n && (n * 10 + d) % 10 == d;
  }

  lemma PrintedPart(v: u32)
    ensures PartGives(Decimal(v), v)
  {
    ParseDecimal(v);
    assert Decimal(v)[0] in Decimal(v);
  }

  lemma {:induction false} ParsePartsDecimal(c: seq<u32>)
    ensures ParseParts(DecimalParts(c)) == Ok(c)
  {
    if c != [] {
      PrintedPart(c[0]);
      ParsePartsDecimal(c[1..]);
      assert DecimalParts(c)[1..] == DecimalParts(c[1..]);
      assert [c[0]] + c[1..] == c;
    }
  }

  lemma {:induction false} JoinShape(parts: seq<string>)
    requires parts != [] && forall i :: 0 <= i < |parts| ==> parts[i] != "" && '.' !in parts[i] && '+' !in parts[i]
    ensures var s := Join(parts);
            s != "" && s[0] != '.' && s[|s| - 1] != '.' && '+' !in s && !HasDoubleDot(s)
  {
    assert parts[0][0] in parts[0] && parts[0][|parts[0]| - 1] in parts[0];
    if |parts| > 1 {
      JoinShape(parts[1..]);
      var s, t := Join(parts), Join(parts[1..]);
      forall i | 0 <= i < |s| - 1 ensures !(s[i] == '.' && s[i + 1] == '.') {
        if i < |parts[0]| {
          assert s[i] == parts[0][i] && parts[0][i] in parts[0];
        } else if i > |parts[0]| {
          assert s[i] == t[i - |parts[0]| - 1] && s[i + 1] == t[i - |parts[0]|];
        }
      }
    } else {
      forall i | 0 <= i < |parts[0]| ensures parts[0][i] != '.' { assert parts[0][i] in parts[0]; }
    }
  }

  lemma PrintShape(o: Oid)
    ensures forall i :: 0 <= i < |o| ==> Decimal(o[i]) != "" && '.' !in Decimal(o[i]) && '+' !in Decimal(o[i])
  {}

  /** Printing any valid OID and parsing the text gives the OID back. */
  lemma ParsePrint(o: Oid)
    ensures Parse(Print(o)) == Ok(o)
  {
    PrintShape(o);
    JoinShape(DecimalParts(o));
    SplitJoin(DecimalParts(o));
    ParsePartsDecimal(o);
  }

  /** The converse holds exactly for texts without a `+` sign. */
  lemma PrintParse(s: string)
    requires Parse(s).Ok?
    ensures Print(Parse(s).value) == s <==> '+' !in s
  {
    var o := Parse(s).value;
    PrintShape(o);
    JoinShape(DecimalParts(o));
    if '+' !in s {
      JoinSplit(s);
      SplitNoPlus(s);
      var parts := Split(s);
      forall i | 0 <= i < |parts| ensures parts[i] == DecimalParts(o)[i] {
        assert PartGives(parts[i], o[i]);
        if parts[i] != "" { assert parts[i][0] in parts[i]; }
        DecimalParse(parts[i]);
      }
      assert parts == DecimalParts(o);
    }
  }

  lemma {:induction false} SplitNoPlus(s: string)
    requires '+' !in s
    ensures forall i :: 0 <= i < |Split(s)| ==> '+' !in Split(s)[i]
  {
    if s != "" { SplitNoPlus(s[1..]); }
  }

  lemma TwoParts(a: string, b: string, x: u32, y: u32)
    requires '.' !in a && '.' !in b && ParseU32(a) == Some(x) && ParseU32(b) == Some(y)
    requires (|a| > 1 ==> a[0] != '0') && (|b| > 1 ==> b[0] != '0')
    ensures ParseParts(Split(a + "." + b)) == Ok([x, y])
  {
    hide Split, ParseU32;
    SplitJoin([a, b]);
    assert [a, b][1..] == [b] && [b][1..] == [];
    assert Join([b]) == b && Join([a, b]) == a + "." + b;
    assert ParseParts([b]) == Ok([y]) by { assert [y] + [] == [y]; }
    assert [x] + [y] == [x, y];
  }

  lemma SmallParts()
    ensures ParseU32("+1") == ParseU32("1") == Some(1) && ParseU32("3") == Some(3)
  {
    assert "+1"[1..] == "1" && "1"[..0] == "" && "3"[..0] == "";
  }

  /** A signed component is accepted, so two texts can name one OID. */
  lemma SignedTextAccepted()
    ensures Parse("+1.3") == Parse("1.3") == Ok([1, 3])
  {
    hide Split, ParseParts, ParseU32;
    SmallParts();
    TwoParts("+1", "3", 1, 3);
    TwoParts("1", "3", 1, 3);
    assert "+1" + "." + "3" == "+1.3" && "1" + "." + "3" == "1.3";
    assert !HasDoubleDot("+1.3") && !HasDoubleDot("1.3");
  }
}
