/** GETBULK (section 4.2.3 of RFC 3416): rows, repetition cap, early stop and size estimate. */
module Bulk {
  import opened Bytes
  import opened Oids
  import opened Ber
  import opened Varbinds
  import opened Mib
  import BerInteger
  import BerOid

  const V3_ENVELOPE_OVERHEAD := 512

  // ----- size estimate -----

  /** Octets of a length field, counted from the bit length of the content length. */
  function LengthOfLength(n: nat): nat
  {
    if n < 128 then 1 else 1 + (BitLength(n) + 7) / 8
  }

  function EstimatedTlvSize(contentBound: nat): nat { 1 + LengthOfLength(contentBound) + contentBound }

  function ValueBound(v: VarbindValue): nat
  {
    match v
    case Bound(Integer32(_)) => 4
    case Bound(IpAddress(_)) => 4
    case Bound(Counter32(_)) => 5
    case Bound(Gauge32(_)) => 5
    case Bound(TimeTicks(_)) => 5
    case Bound(Counter64(_)) => 9
    case Bound(OctetString(s)) => |s|
    case Bound(Opaque(s)) => |s|
    case Bound(ObjectIdentifier(o)) => |o| * 5
    case _ => 0
  }

  function EstimatedSize(vb: Varbind): nat
  {
    EstimatedTlvSize(EstimatedTlvSize(|vb.oid| * 5) + EstimatedTlvSize(ValueBound(vb.value)))
  }

  function Estimate(vbs: seq<Varbind>): nat
  {
    if vbs == [] then 0 else Estimate(vbs[..|vbs| - 1]) + EstimatedSize(vbs[|vbs| - 1])
  }

  lemma LengthOfLengthExact(n: nat)
    ensures LengthOfLength(n) == LengthSize(n)
  {
    BitLengthDigits(n);
  }

  /** The estimate for a content bound dominates every element with smaller contents. */
  lemma EstimateDominates(tag: byte, value: bytes, contentBound: nat)
    requires |value| <= contentBound
    ensures |Tlv(tag, value)| <= EstimatedTlvSize(contentBound)
  {
    LengthOfLengthExact(contentBound);
    LengthSizeMono(|value|, contentBound);
  }

  lemma ValueWithinBound(v: VarbindValue)
    ensures |ValueContents(v).1| <= ValueBound(v)
  {
    hide BerInteger.EncodeSigned, BerInteger.EncodeUnsigned32, BerInteger.EncodeUnsigned64, BerOid.EncodedOid;
    match v {
      case Bound(Integer32(n)) => BerInteger.EncodeSignedCorrect(n);
      case Bound(ObjectIdentifier(o)) => BerOid.EncodedOidBound(o);
      case Bound(Counter32(n)) => BerInteger.UnsignedRoundTrip(n);
      case Bound(Gauge32(n)) => BerInteger.UnsignedRoundTrip(n);
      case Bound(TimeTicks(n)) => BerInteger.UnsignedRoundTrip(n);
      case Bound(Counter64(n)) => BerInteger.UnsignedRoundTrip(n);
      case _ =>
    }
  }

  /** No binding is written with more octets than estimated. */
  lemma EstimateIsUpperBound(vb: Varbind)
    ensures |VarbindBytes(vb)| <= EstimatedSize(vb)
  {
    hide Tlv, ValueContents, EstimatedTlvSize, ValueBound, BerOid.EncodedOid;
    BerOid.EncodedOidBound(vb.oid);
    EstimateDominates(TAG_OID, BerOid.EncodedOid(vb.oid), |vb.oid| * 5);
    ValueWithinBound(vb.value);
    EstimateDominates(ValueContents(vb.value).0, ValueContents(vb.value).1, ValueBound(vb.value));
    EstimateDominates(TAG_SEQUENCE, OidTlv(vb.oid) + ValueTlv(vb.value),
                      EstimatedTlvSize(|vb.oid| * 5) + EstimatedTlvSize(ValueBound(vb.value)));
  }

  /** The estimate is the exact size of a binding whose name and value take their full bounds. */
  lemma EstimateIsWorstCase(vb: Varbind, name: bytes, tag: byte, contents: bytes)
    requires |name| == 5 * |vb.oid| && |contents| == ValueBound(vb.value)
    ensures EstimatedSize(vb) == |Tlv(TAG_SEQUENCE, Tlv(TAG_OID, name) + Tlv(tag, contents))|
  {
    hide Tlv, ValueBound;
    TlvSize(TAG_OID, name);
    TlvSize(tag, contents);
    TlvSize(TAG_SEQUENCE, Tlv(TAG_OID, name) + Tlv(tag, contents));
    LengthOfLengthExact(|name|);
    LengthOfLengthExact(|contents|);
    LengthOfLengthExact(|Tlv(TAG_OID, name) + Tlv(tag, contents)|);
  }

  /** No smaller bound would do: some value of the same type takes it in full; an OID's is five octets an arc. */
  lemma ValueBoundAttained(v: Value)
    ensures ValueBound(Bound(v)) ==
            match v
            case Integer32(_) => |ValueContents(Bound(Integer32(-0x8000_0000))).1|
            case Counter32(_) => |ValueContents(Bound(Counter32(0xFFFF_FFFF))).1|
            case Gauge32(_) => |ValueContents(Bound(Gauge32(0xFFFF_FFFF))).1|
            case TimeTicks(_) => |ValueContents(Bound(TimeTicks(0xFFFF_FFFF))).1|
            case Counter64(_) => |ValueContents(Bound(Counter64(0xFFFF_FFFF_FFFF_FFFF))).1|
            case ObjectIdentifier(o) => 5 * |o|
            case _ => |ValueContents(Bound(v)).1|
  {
    hide BerInteger.EncodeSigned, BerInteger.EncodeUnsigned32, BerInteger.EncodeUnsigned64, BerOid.EncodedOid;
    BerInteger.EncodeSignedWidth(-0x8000_0000);
    BerInteger.LargestUnsigned();
  }

  lemma {:induction false} EstimateCoversList(vbs: seq<Varbind>)
    ensures |ConcatVarbinds(vbs)| <= Estimate(vbs)
  {
    hide VarbindBytes, EstimatedSize;
    if vbs != [] {
      var front, last := vbs[..|vbs| - 1], vbs[|vbs| - 1];
      EstimateCoversList(front);
      EstimateIsUpperBound(last);
      ConcatVarbindsAppend(front, [last]);
      assert front + [last] == vbs;
      assert [last][1..] == [] && ConcatVarbinds([last]) == VarbindBytes(last) + [];
    }
  }

  lemma {:induction false} EstimateAppend(a: seq<Varbind>, b: seq<Varbind>)
    ensures Estimate(a + b) == Estimate(a) + Estimate(b)
  {
    hide EstimatedSize;
    if b == [] {
      assert a + b == a;
    } else {
      EstimateAppend(a, b[..|b| - 1]);
      assert (a + b)[..|a + b| - 1] == a + b[..|b| - 1];
    }
  }

  // ----- rows -----

  /** The GETNEXT answer for each column. */
  function Answers(m: Entries, oids: seq<Oid>): (row: seq<Varbind>)
    ensures |row| == |oids| && forall c :: 0 <= c < |oids| ==> row[c] == Resolve(m, oids[c])
  {
    seq(|oids|, c requires 0 <= c < |oids| => Resolve(m, oids[c]))
  }

  /** Each column one step further, a column at the end staying where it is. */
  function Advance(m: Entries, oids: seq<Oid>): (next: seq<Oid>)
    ensures |next| == |oids|
    ensures forall c :: 0 <= c < |oids| ==> next[c] == AdvanceOne(m, oids[c])
  {
    seq(|oids|, c requires 0 <= c < |oids| => AdvanceOne(m, oids[c]))
  }

  function AdvanceOne(m: Entries, oid: Oid): Oid
  {
    var step := Resolve(m, oid);
    if step.value.Bound? then step.oid else oid
  }

  /** Each column after `r` GETNEXT steps from its own starting OID. */
  function PositionsAt(m: Entries, oids: seq<Oid>, r: nat): (at: seq<Oid>)
    ensures |at| == |oids| && forall c :: 0 <= c < |oids| ==> at[c] == Position(m, oids[c], r)
  {
    seq(|oids|, c requires 0 <= c < |oids| => Position(m, oids[c], r))
  }

  lemma AdvancePositions(m: Entries, oids: seq<Oid>, r: nat)
    ensures Advance(m, PositionsAt(m, oids, r)) == PositionsAt(m, oids, r + 1)
  {
    hide Resolve;
  }

  /** Row `r`: for each column, the GETNEXT answer after `r` steps of that column. */
  function Row(m: Entries, oids: seq<Oid>, r: nat): seq<Varbind> { Answers(m, PositionsAt(m, oids, r)) }

  predicate AllEnd(row: seq<Varbind>) { forall c :: 0 <= c < |row| ==> !row[c].value.Bound? }

  /** Rows `0` to `k - 1`, one after the other. */
  function Rows(m: Entries, oids: seq<Oid>, k: nat): seq<Varbind>
  {
    if k == 0 then [] else Rows(m, oids, k - 1) + Row(m, oids, k - 1)
  }

  /** Rows committed from row `r` on, `spent` of the budget being used already. */
  function RowCount(m: Entries, oids: seq<Oid>, r: nat, limit: nat, budget: nat, spent: nat): nat
    decreases limit - r
  {
    if r >= limit then 0 else
    var row := Row(m, oids, r);
    if spent + Estimate(row) > budget then 0
    else if AllEnd(row) then 1
    else 1 + RowCount(m, oids, r + 1, limit, budget, spent + Estimate(row))
  }

  /**
    * `k` rows fit and no row before the last is at the end, and one more row is excluded by
    * the repetition limit, the end of the view or the budget.
    */
  predicate IsLongest(m: Entries, oids: seq<Oid>, limit: nat, budget: nat, spent: nat, k: nat)
  {
    && k <= limit
    && (forall j :: 0 < j <= k ==> spent + Estimate(Rows(m, oids, j)) <= budget)
    && (forall j :: 0 <= j < k - 1 ==> !AllEnd(Row(m, oids, j)))
    && (k == limit || (k > 0 && AllEnd(Row(m, oids, k - 1))) || spent + Estimate(Rows(m, oids, k + 1)) > budget)
  }

  lemma {:induction false} RowCountIsLongestFrom(m: Entries, oids: seq<Oid>, r: nat, limit: nat,
                                                 budget: nat, spent: nat)
    requires r <= limit
    requires forall j :: 0 < j <= r ==> spent + Estimate(Rows(m, oids, j)) <= budget
    requires forall j :: 0 <= j < r ==> !AllEnd(Row(m, oids, j))
    ensures IsLongest(m, oids, limit, budget, spent,
                      r + RowCount(m, oids, r, limit, budget, spent + Estimate(Rows(m, oids, r))))
    decreases limit - r
  {
    hide Row, Estimate, AllEnd;
    if r < limit {
      EstimateAppend(Rows(m, oids, r), Row(m, oids, r));
      if spent + Estimate(Rows(m, oids, r + 1)) <= budget && !AllEnd(Row(m, oids, r)) {
        RowCountIsLongestFrom(m, oids, r + 1, limit, budget, spent);
      }
    }
  }

  lemma RowCountIsLongest(m: Entries, oids: seq<Oid>, limit: nat, budget: nat, spent: nat)
    ensures IsLongest(m, oids, limit, budget, spent, RowCount(m, oids, 0, limit, budget, spent))
  {
    hide Row, AllEnd, RowCount, IsLongest, EstimatedSize;
    RowCountIsLongestFrom(m, oids, 0, limit, budget, spent);
    assert Estimate(Rows(m, oids, 0)) == 0;
  }

  lemma LongestIsUnique(m: Entries, oids: seq<Oid>, limit: nat, budget: nat, spent: nat, k: nat, l: nat)
    requires IsLongest(m, oids, limit, budget, spent, k) && IsLongest(m, oids, limit, budget, spent, l)
    ensures k == l
  {
    hide Row, Rows, Estimate, AllEnd;
  }

  // ----- the response -----

  datatype BulkRequest = BulkRequest(nonRepeaters: u32, maxRepetitions: u32, varbinds: seq<Varbind>)

  function Min(a: nat, b: nat): nat { if a <= b then a else b }

  function NonRepeating(q: BulkRequest): seq<Varbind> { q.varbinds[..Min(q.nonRepeaters, |q.varbinds|)] }

  function Columns(q: BulkRequest): seq<Oid> { OidsOf(q.varbinds[Min(q.nonRepeaters, |q.varbinds|)..]) }

  function OidsOf(vbs: seq<Varbind>): (oids: seq<Oid>)
    ensures |oids| == |vbs| && forall i :: 0 <= i < |vbs| ==> oids[i] == vbs[i].oid
  {
    seq(|vbs|, i requires 0 <= i < |vbs| => vbs[i].oid)
  }

  function Budget(maxResponseSize: nat): nat
  {
    if maxResponseSize < V3_ENVELOPE_OVERHEAD then 0 else maxResponseSize - V3_ENVELOPE_OVERHEAD
  }

  /** The GETNEXT answers of the non-repeating section. */
  function Heads(m: Entries, q: BulkRequest): seq<Varbind> { HandleGetNext(m, NonRepeating(q)) }

  function CommittedRows(m: Entries, q: BulkRequest, cap: u32, maxResponseSize: nat): nat
  {
    if Columns(q) == [] then 0
    else RowCount(m, Columns(q), 0, Min(q.maxRepetitions, cap), Budget(maxResponseSize), Estimate(Heads(m, q)))
  }

  function BulkVarbinds(m: Entries, q: BulkRequest, cap: u32, maxResponseSize: nat): seq<Varbind>
  {
    Heads(m, q) + Rows(m, Columns(q), CommittedRows(m, q, cap, maxResponseSize))
  }

  // ----- the response by index -----

  lemma QuotientRemainder(r: nat, w: nat, c: nat)
    requires c < w
    ensures (r * w + c) / w == r && (r * w + c) % w == c
  {
    var i := r * w + c;
    var q, d := i / w, i % w;
    assert i == q * w + d;
    if q < r { MulMono(q + 1, r, w); }
    if r < q { MulMono(r + 1, q, w); }
  }

  /** Binding `i` of the rows stands in row `i / width`, column `i % width`. */
  predicate AnswersAt(m: Entries, oids: seq<Oid>, rows: seq<Varbind>, i: nat)
    requires oids != [] && i < |rows|
  {
    rows[i] == Resolve(m, Position(m, oids[i % |oids|], i / |oids|))
  }

  lemma {:induction false} RowsLength(m: Entries, oids: seq<Oid>, k: nat)
    ensures |Rows(m, oids, k)| == k * |oids|
  {
    if k > 0 {
      hide Row;
      RowsLength(m, oids, k - 1);
      RowWidth(m, oids, k - 1);
    }
  }

  lemma {:induction false} RowsByIndex(m: Entries, oids: seq<Oid>, k: nat, i: nat)
    requires oids != [] && i < |Rows(m, oids, k)|
    ensures AnswersAt(m, oids, Rows(m, oids, k), i)
    decreases k
  {
    hide AnswersAt, Row;
    var front, row := Rows(m, oids, k - 1), Row(m, oids, k - 1);
    assert Rows(m, oids, k) == front + row;
    hide Rows;
    if i < |front| {
      RowsByIndex(m, oids, k - 1, i);
      EarlierRow(m, oids, front, row, i);
    } else {
      RowsLength(m, oids, k - 1);
      RowWidth(m, oids, k - 1);
      LastRow(m, oids, front, k - 1, i - |front|);
    }
  }

  lemma RowWidth(m: Entries, oids: seq<Oid>, r: nat)
    ensures |Row(m, oids, r)| == |oids| && r * |oids| + |oids| == (r + 1) * |oids|
  {
    hide Resolve, Position;
  }

  lemma EarlierRow(m: Entries, oids: seq<Oid>, front: seq<Varbind>, row: seq<Varbind>, i: nat)
    requires oids != [] && i < |front| && AnswersAt(m, oids, front, i)
    ensures AnswersAt(m, oids, front + row, i)
  {
    hide Resolve, Position;
  }

  lemma LastRow(m: Entries, oids: seq<Oid>, front: seq<Varbind>, r: nat, c: nat)
    requires c < |oids| && |front| == r * |oids| && |Row(m, oids, r)| == |oids|
    ensures AnswersAt(m, oids, front + Row(m, oids, r), |front| + c)
  {
    hide Resolve, Position;
    QuotientRemainder(r, |oids|, c);
  }

  /** Behind `n` non-repeaters, binding `i` answers its column after as many steps as rows stand before it. */
  predicate InItsPlace(m: Entries, requested: seq<Varbind>, n: nat, response: seq<Varbind>, i: nat)
    requires n < |requested| && n <= i < |response|
  {
    var w := |requested| - n;
    response[i] == Resolve(m, Position(m, requested[n + (i - n) % w].oid, (i - n) / w))
  }

  /**
    * A response with `k` rows, by index: the non-repeaters' successors, then for each repetition the
    * repeated variables in order, each one GETNEXT step further; `k` is the longest run allowed.
    */
  ghost predicate IsBulkResponse(m: Entries, nonRepeaters: nat, maxRepetitions: nat, cap: nat, requested: seq<Varbind>,
                                 maxResponseSize: nat, response: seq<Varbind>, k: nat)
  {
    IsRowResponse(m, if nonRepeaters <= |requested| then nonRepeaters else |requested|,
                  if maxRepetitions <= cap then maxRepetitions else cap, requested,
                  if maxResponseSize >= 512 then maxResponseSize - 512 else 0, response, k)
  }

  ghost predicate IsRowResponse(m: Entries, n: nat, limit: nat, requested: seq<Varbind>, budget: nat,
                                response: seq<Varbind>, k: nat)
  {
    && n <= |requested| && n <= |response| == n + k * (|requested| - n)
    && (forall i :: 0 <= i < n ==> response[i] == Resolve(m, requested[i].oid))
    && (n < |requested| ==>
          (forall i :: n <= i < |response| ==> InItsPlace(m, requested, n, response, i)) &&
          IsLongest(m, OidsOf(requested[n..]), limit, budget, Estimate(response[..n]), k))
  }

  lemma BulkIsByIndex(m: Entries, q: BulkRequest, cap: u32, maxResponseSize: nat)
    ensures IsBulkResponse(m, q.nonRepeaters, q.maxRepetitions, cap, q.varbinds, maxResponseSize,
                           BulkVarbinds(m, q, cap, maxResponseSize), CommittedRows(m, q, cap, maxResponseSize))
  {
    hide Resolve, IsLongest, RowCount, Estimate, Rows, HandleGetNext, InItsPlace;
    var response, k := BulkVarbinds(m, q, cap, maxResponseSize), CommittedRows(m, q, cap, maxResponseSize);
    var n, oids := |Heads(m, q)|, Columns(q);
    assert response[..n] == Heads(m, q);
    if oids != [] {
      RowsLength(m, oids, k);
      RowCountIsLongest(m, oids, Min(q.maxRepetitions, cap), Budget(maxResponseSize), Estimate(Heads(m, q)));
      forall i | n <= i < |response| ensures InItsPlace(m, q.varbinds, n, response, i) {
        RowInItsPlace(m, q.varbinds, Heads(m, q), k, i);
      }
    } else {
      NoRows(m, oids, 0, 0);
    }
  }

  lemma RowInItsPlace(m: Entries, requested: seq<Varbind>, heads: seq<Varbind>, k: nat, i: nat)
    requires |heads| < |requested| && |heads| <= i < |heads + Rows(m, OidsOf(requested[|heads|..]), k)|
    ensures InItsPlace(m, requested, |heads|, heads + Rows(m, OidsOf(requested[|heads|..]), k), i)
  {
    hide Resolve, Position, Rows;
    var oids := OidsOf(requested[|heads|..]);
    RowsByIndex(m, oids, k, i - |heads|);
  }

  /** Repetition `r` of repeated variable `c`, at its place in the response. */
  lemma BulkCell(m: Entries, nonRepeaters: nat, maxRepetitions: nat, cap: nat, requested: seq<Varbind>,
                 maxResponseSize: nat, response: seq<Varbind>, k: nat, w: nat, r: nat, c: nat, at: nat)
    requires IsBulkResponse(m, nonRepeaters, maxRepetitions, cap, requested, maxResponseSize, response, k)
    requires nonRepeaters + w == |requested| && r < k && c < w && at == nonRepeaters + r * w + c
    ensures at < |response| && response[at] == Resolve(m, Position(m, requested[nonRepeaters + c].oid, r))
  {
    hide Resolve, Position, IsLongest, Estimate, InItsPlace;
    CellInRange(w, k, r, c);
    assert |requested| - nonRepeaters == w;
    assert InItsPlace(m, requested, nonRepeaters, response, at);
    PlaceOf(m, requested, nonRepeaters, response, at, r, c);
  }

  lemma CellInRange(w: nat, k: nat, r: nat, c: nat)
    requires r < k && c < w
    ensures 0 <= r * w && r * w + c < k * w
  {
    MulMono(r + 1, k, w);
  }

  lemma PlaceOf(m: Entries, requested: seq<Varbind>, n: nat, response: seq<Varbind>, at: nat, r: nat, c: nat)
    requires n + c < |requested| && at == n + r * (|requested| - n) + c && n <= at < |response|
    ensures InItsPlace(m, requested, n, response, at) <==>
            response[at] == Resolve(m, Position(m, requested[n + c].oid, r))
  {
    hide Resolve, Position;
    QuotientRemainder(r, |requested| - n, c);
  }

  // ----- the loops -----

  /** `build_repeating_row`: answers every column and moves the columns on, in place. */
  method BuildRepeatingRow(m: Entries, current: array<Oid>) returns (varbinds: seq<Varbind>, size: nat, allEnd: bool)
    modifies current
    ensures varbinds == Answers(m, old(current[..]))
    ensures size == Estimate(varbinds) && allEnd == AllEnd(varbinds)
    ensures current[..] == Advance(m, old(current[..]))
  {
    hide EstimatedSize, Resolve, Estimate, AllEnd;
    EmptyRow();
    varbinds, size, allEnd := [], 0, true;
    ghost var before := current[..];
    var c := 0;
    while c < current.Length
      invariant 0 <= c <= current.Length
      invariant varbinds == Answers(m, before)[..c]
      invariant size == Estimate(varbinds) && allEnd == AllEnd(varbinds)
      invariant forall i :: 0 <= i < c ==> current[i] == AdvanceOne(m, before[i])
      invariant forall i :: c <= i < current.Length ==> current[i] == before[i]
    {
      var resolved := Resolve(m, current[c]);
      if resolved.value.Bound? {
        allEnd := false;
        current[c] := resolved.oid;
      }
      AppendOne(varbinds, resolved);
      size := size + EstimatedSize(resolved);
      varbinds := varbinds + [resolved];
      c := c + 1;
    }
  }

  lemma EmptyRow()
    ensures Estimate([]) == 0 && AllEnd([])
  {}

  lemma AppendOne(row: seq<Varbind>, vb: Varbind)
    ensures Estimate(row + [vb]) == Estimate(row) + EstimatedSize(vb)
    ensures AllEnd(row + [vb]) == (AllEnd(row) && !vb.value.Bound?)
  {
    hide EstimatedSize;
    var all := row + [vb];
    assert all[..|all| - 1] == row && all[|row|] == vb;
    if AllEnd(all) {
      forall c | 0 <= c < |row| ensures !row[c].value.Bound? { assert all[c] == row[c]; }
    }
  }

  /** The repeating section: appends complete rows to `heads` until a limit is met. */
  method AppendRows(m: Entries, oids: seq<Oid>, maxRepetitions: nat, budget: nat, heads: seq<Varbind>, spent: nat)
    returns (response: seq<Varbind>)
    ensures response == heads + Rows(m, oids, RowCount(m, oids, 0, maxRepetitions, budget, spent))
  {
    hide PositionsAt, Rows, RowCount;
    var current := new Oid[|oids|](i requires 0 <= i < |oids| => oids[i]);
    assert current[..] == PositionsAt(m, oids, 0) by { StartPositions(m, oids); assert current[..] == oids; }
    response := RunRows(m, oids, current, maxRepetitions, budget, heads, spent);
  }

  method RunRows(m: Entries, oids: seq<Oid>, current: array<Oid>, maxRepetitions: nat, budget: nat,
                 heads: seq<Varbind>, spent: nat)
    returns (response: seq<Varbind>)
    requires current[..] == PositionsAt(m, oids, 0)
    modifies current
    ensures response == heads + Rows(m, oids, RowCount(m, oids, 0, maxRepetitions, budget, spent))
  {
    hide Estimate, AllEnd, PositionsAt, Advance, Answers, Rows, RowCount, Row;
    NoRows(m, oids, budget, spent);
    response := heads;
    var size: nat := spent;
    var r := 0;
    ghost var total := RowCount(m, oids, 0, maxRepetitions, budget, spent);
    while r < maxRepetitions
      invariant 0 <= r <= maxRepetitions
      invariant current[..] == PositionsAt(m, oids, r)
      invariant response == heads + Rows(m, oids, r)
      invariant total == r + RowCount(m, oids, r, maxRepetitions, budget, size)
    {
      var varbinds, rowSize, allEnd := BuildRepeatingRow(m, current);
      RowStep(m, oids, r, maxRepetitions, budget, size, heads);
      if size + rowSize > budget {
        return;
      }
      size := size + rowSize;
      response := response + varbinds;
      r := r + 1;
      if allEnd {
        return;
      }
    }
    RowLimit(m, oids, r, budget, size);
  }

  lemma RowStep(m: Entries, oids: seq<Oid>, r: nat, limit: nat, budget: nat, spent: nat, heads: seq<Varbind>)
    requires r < limit
    ensures Advance(m, PositionsAt(m, oids, r)) == PositionsAt(m, oids, r + 1)
    ensures var row := Answers(m, PositionsAt(m, oids, r));
            heads + Rows(m, oids, r + 1) == heads + Rows(m, oids, r) + row &&
            RowCount(m, oids, r, limit, budget, spent) ==
            if spent + Estimate(row) > budget then 0
            else if AllEnd(row) then 1
            else 1 + RowCount(m, oids, r + 1, limit, budget, spent + Estimate(row))
  {
    hide Answers, Estimate, AllEnd, Advance, PositionsAt, Rows;
    AdvancePositions(m, oids, r);
    RowAppended(m, oids, r, heads);
  }

  lemma RowAppended(m: Entries, oids: seq<Oid>, r: nat, heads: seq<Varbind>)
    ensures heads + Rows(m, oids, r + 1) == heads + Rows(m, oids, r) + Row(m, oids, r)
  {
    hide Row;
    var rows, row := Rows(m, oids, r), Row(m, oids, r);
    assert Rows(m, oids, r + 1) == rows + row;
    assert heads + (rows + row) == heads + rows + row;
  }

  lemma RowLimit(m: Entries, oids: seq<Oid>, r: nat, budget: nat, spent: nat)
    ensures RowCount(m, oids, r, r, budget, spent) == 0
  {}

  lemma StartPositions(m: Entries, oids: seq<Oid>)
    ensures PositionsAt(m, oids, 0) == oids
  {}

  /** `handle_get_bulk` returns the non-repeaters' successors and the longest allowed run of rows. */
  method HandleGetBulk(m: Entries, q: BulkRequest, cap: u32, maxResponseSize: nat) returns (response: seq<Varbind>)
    ensures response == BulkVarbinds(m, q, cap, maxResponseSize)
    ensures exists k ::
              IsBulkResponse(m, q.nonRepeaters, q.maxRepetitions, cap, q.varbinds, maxResponseSize, response, k)
  {
    BulkIsByIndex(m, q, cap, maxResponseSize);
    hide IsBulkResponse, Rows, Estimate, RowCount, HandleGetNext;
    var nonRepeaters := Min(q.nonRepeaters, |q.varbinds|);
    var maxRepetitions := Min(q.maxRepetitions, cap);
    var size: nat;
    response, size := ResolveHeads(m, q.varbinds[..nonRepeaters]);
    if nonRepeaters < |q.varbinds| && maxRepetitions > 0 {
      response := AppendRows(m, Columns(q), maxRepetitions, Budget(maxResponseSize), response, size);
    } else {
      NoRows(m, Columns(q), Budget(maxResponseSize), size);
      assert response + [] == response;
    }
  }

  lemma NoRows(m: Entries, oids: seq<Oid>, budget: nat, spent: nat)
    ensures RowCount(m, oids, 0, 0, budget, spent) == 0 && Rows(m, oids, 0) == []
  {}

  method ResolveHeads(m: Entries, requested: seq<Varbind>) returns (response: seq<Varbind>, size: nat)
    ensures response == HandleGetNext(m, requested) && size == Estimate(response)
  {
    hide Resolve, EstimatedSize, Estimate, HandleGetNext;
    EmptyRow();
    response, size := [], 0;
    ghost var all := HandleGetNext(m, requested);
    var i := 0;
    while i < |requested|
      invariant 0 <= i <= |requested|
      invariant response == all[..i] && size == Estimate(response)
    {
      var resolved := Resolve(m, requested[i].oid);
      assert all[..i + 1] == all[..i] + [resolved];
      AppendOne(response, resolved);
      size := size + EstimatedSize(resolved);
      response := response + [resolved];
      i := i + 1;
    }
    assert all[..|requested|] == all;
  }

  // ----- the budget -----

  lemma CommittedEstimate(m: Entries, q: BulkRequest, cap: u32, maxResponseSize: nat)
    ensures CommittedRows(m, q, cap, maxResponseSize) > 0 ==>
              Estimate(BulkVarbinds(m, q, cap, maxResponseSize)) <= Budget(maxResponseSize)
    ensures Estimate(Heads(m, q)) <= Estimate(BulkVarbinds(m, q, cap, maxResponseSize))
  {
    hide Row, Rows, Estimate, AllEnd, RowCount, Heads, Budget;
    var k := CommittedRows(m, q, cap, maxResponseSize);
    var rows := Rows(m, Columns(q), k);
    EstimateAppend(Heads(m, q), rows);
    if k > 0 {
      RowCountIsLongest(m, Columns(q), Min(q.maxRepetitions, cap), Budget(maxResponseSize), Estimate(Heads(m, q)));
    }
  }

  /** The estimate of the whole response stays in the budget exactly when the non-repeaters' does. */
  lemma EstimateWithinBudgetIff(m: Entries, q: BulkRequest, cap: u32, maxResponseSize: nat)
    ensures Estimate(BulkVarbinds(m, q, cap, maxResponseSize)) <= Budget(maxResponseSize) <==>
            Estimate(Heads(m, q)) <= Budget(maxResponseSize)
  {
    hide Row, Estimate, RowCount, Heads, Budget;
    CommittedEstimate(m, q, cap, maxResponseSize);
    if CommittedRows(m, q, cap, maxResponseSize) == 0 {
      assert Heads(m, q) + [] == Heads(m, q);
    }
  }
}
