/** The OID-ordered value store and its GETNEXT walk. */
module Mib {
  import opened Bytes
  import opened Oids
  import opened Varbinds

  type Entries = map<Oid, Value>

  /** The stored keys strictly greater than `oid`. */
  function Above(m: Entries, oid: Oid): set<Oid>
  {
    set k | k in m.Keys && Less(oid, k)
  }

  predicate IsLeast(k: Oid, keys: set<Oid>)
  {
    k in keys && forall j | j in keys :: j == k || Less(k, j)
  }

  lemma {:induction false} LeastExists(keys: set<Oid>)
    requires keys != {}
    ensures exists k: Oid :: IsLeast(k, keys)
    decreases |keys|
  {
    var x: Oid :| x in keys;
    var rest := keys - {x};
    if rest == {} {
      assert keys == {x};
      assert IsLeast(x, keys);
    } else {
      LeastExists(rest);
      var y: Oid :| IsLeast(y, rest);
      LessTotal(x, y);
      if Less(x, y) {
        forall j | j in keys ensures j == x || Less(x, j) {
          if j != x && j != y { LessTransitive(x, y, j); }
        }
        assert IsLeast(x, keys);
      } else {
        assert IsLeast(y, keys);
      }
    }
  }

  lemma LeastUnique(a: Oid, b: Oid, keys: set<Oid>)
    requires IsLeast(a, keys) && IsLeast(b, keys)
    ensures a == b
  {
    if a != b {
      LessTransitive(a, b, a);
      LessIrreflexive(a);
    }
  }

  function Least(keys: set<Oid>): (k: Oid)
    requires keys != {}
    ensures IsLeast(k, keys)
  {
    LeastExists(keys);
    assert forall a, b :: IsLeast(a, keys) && IsLeast(b, keys) ==> a == b by {
      forall a, b | IsLeast(a, keys) && IsLeast(b, keys) ensures a == b { LeastUnique(a, b, keys); }
    }
    var k :| k in keys && IsLeast(k, keys);
    k
  }

  /** The entry with the smallest key strictly greater than `oid` (`BTreeMap::range(..).next()`). */
  function Next(m: Entries, oid: Oid): (r: Option<(Oid, Value)>)
    ensures r.None? <==> Above(m, oid) == {}
    ensures r.Some? ==> IsLeast(r.value.0, Above(m, oid)) && m[r.value.0] == r.value.1
  {
    if Above(m, oid) == {} then None
    else var k := Least(Above(m, oid)); Some((k, m[k]))
  }

  class Store {
    var entries: Entries

    constructor ()
      ensures entries == map[]
    {
      entries := map[];
    }

    /** Upsert: there is no way to remove an entry. */
    method Set(oid: Oid, value: Value)
      modifies this
      ensures entries == old(entries)[oid := value]
    {
      entries := entries[oid := value];
    }

    function Get(oid: Oid): (r: Option<Value>)
      reads this
      ensures r.Some? <==> oid in entries
      ensures r.Some? ==> r.value == entries[oid]
    {
      if oid in entries then Some(entries[oid]) else None
    }
  }

  // ----- GETNEXT -----

  function Resolve(m: Entries, oid: Oid): Varbind
  {
    match Next(m, oid)
    case Some((k, v)) => Varbind(k, Bound(v))
    case None => Varbind(oid, EndOfMibView)
  }

  function HandleGetNext(m: Entries, requested: seq<Varbind>): (r: seq<Varbind>)
    ensures |r| == |requested| && forall i :: 0 <= i < |r| ==> r[i] == Resolve(m, requested[i].oid)
  {
    seq(|requested|, i requires 0 <= i < |requested| => Resolve(m, requested[i].oid))
  }

  /** Where a column stands after `r` GETNEXT steps; a column at the end stays there. */
  function Position(m: Entries, oid: Oid, r: nat): Oid
  {
    if r == 0 then oid
    else
      var step := Resolve(m, Position(m, oid, r - 1));
      if step.value.Bound? then step.oid else Position(m, oid, r - 1)
  }

  // ----- the walk visits every key above, once, in order -----

  lemma AboveNext(m: Entries, oid: Oid)
    requires Above(m, oid) != {}
    ensures var k := Next(m, oid).value.0;
            k in Above(m, oid) && Above(m, k) == Above(m, oid) - {k} && |Above(m, k)| < |Above(m, oid)|
  {
    var k := Next(m, oid).value.0;
    forall j | j in m.Keys ensures j in Above(m, k) <==> j in Above(m, oid) && j != k {
      if Less(k, j) { LessTransitive(oid, k, j); LessIrreflexive(k); }
    }
    assert Above(m, k) == Above(m, oid) - {k};
  }

  function Walk(m: Entries, oid: Oid): seq<Oid>
    decreases |Above(m, oid)|
  {
    if Above(m, oid) == {} then []
    else
      AboveNext(m, oid);
      var k := Next(m, oid).value.0;
      [k] + Walk(m, k)
  }

  lemma {:induction false} WalkVisitsAbove(m: Entries, oid: Oid)
    ensures forall k :: k in Walk(m, oid) <==> k in Above(m, oid)
    ensures forall i, j :: 0 <= i < j < |Walk(m, oid)| ==> Less(Walk(m, oid)[i], Walk(m, oid)[j])
    ensures |Walk(m, oid)| == |Above(m, oid)|
    decreases |Above(m, oid)|
  {
    if Above(m, oid) != {} {
      AboveNext(m, oid);
      var k := Next(m, oid).value.0;
      WalkVisitsAbove(m, k);
      var w := Walk(m, oid);
      assert w == [k] + Walk(m, k);
      forall i, j | 0 <= i < j < |w| ensures Less(w[i], w[j]) {
        assert w[j] == Walk(m, k)[j - 1] && w[j] in Walk(m, k);
      }
    }
  }

  lemma {:induction false} PositionShift(m: Entries, oid: Oid, r: nat)
    ensures Position(m, oid, r + 1) == Position(m, Resolve(m, oid).oid, r)
  {
    hide Next, Resolve;
    if r > 0 {
      PositionShift(m, oid, r - 1);
    } else {
      StepOid(m, oid);
    }
  }

  lemma StepOid(m: Entries, oid: Oid)
    ensures Position(m, oid, 1) == Resolve(m, oid).oid
  {
    assert Position(m, oid, 0) == oid;
  }

  /** Iterated GETNEXT reads off the walk, then answers EndOfMibView at an unchanged OID forever. */
  lemma {:induction false} GetNextFollowsWalk(m: Entries, oid: Oid, r: nat)
    ensures var w, answer := Walk(m, oid), Resolve(m, Position(m, oid, r));
            if r < |w| then w[r] in m && answer == Varbind(w[r], Bound(m[w[r]]))
            else answer == Varbind(Position(m, oid, r), EndOfMibView) && Position(m, oid, r + 1) == Position(m, oid, r)
    decreases r
  {
    hide Less, Position;
    if Above(m, oid) == {} {
      EndStays(m, oid, r);
      EndStays(m, oid, r + 1);
    } else {
      AboveNext(m, oid);
      var k := Next(m, oid).value.0;
      assert Walk(m, oid) == [k] + Walk(m, k) && Resolve(m, oid).oid == k;
      if r > 0 {
        PositionShift(m, oid, r - 1);
        PositionShift(m, oid, r);
        GetNextFollowsWalk(m, k, r - 1);
      } else {
        PositionZero(m, oid);
      }
    }
  }

  lemma PositionZero(m: Entries, oid: Oid)
    ensures Position(m, oid, 0) == oid
  {}

  lemma {:induction false} EndStays(m: Entries, oid: Oid, r: nat)
    requires Above(m, oid) == {}
    ensures Position(m, oid, r) == oid
  {
    if r > 0 { EndStays(m, oid, r - 1); }
  }
}
