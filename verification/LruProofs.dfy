/** The representation invariants of the LRU cache and what every operation keeps. */
module LruProofs {
  import opened LruModel

  // ----- invariants

  ghost predicate Distinct(q: seq<Value>) {
    forall i, j :: 0 <= i < j < |q| ==> q[i] != q[j]
  }

  ghost predicate InTable(s: State, v: Value) {
    v in s.entries && s.entries[v].key in s.table && s.table[s.entries[v].key] == v
  }

  ghost predicate InDefer(s: State, v: Value) {
    v in s.entries && IsDeferred(s, s.entries[v].key, v)
  }

  ghost predicate TableOk(s: State) {
    forall k {:trigger s.table[k]} :: k in s.table ==>
      s.table[k] in s.entries && s.entries[s.table[k]].key == k
  }

  ghost predicate RingsOk(s: State) {
    && (forall k {:trigger s.defer[k]} :: k in s.defer ==> s.defer[k] != [] && Distinct(s.defer[k]))
    && (forall k, v {:trigger v in s.defer[k]} :: k in s.defer && v in s.defer[k] ==>
          v in s.entries && s.entries[v].key == k && s.entries[v].pin > 0)
  }

  /** Each live element is in exactly one of the table and the deferred rings. */
  ghost predicate Partitioned(s: State) {
    forall v {:trigger InTable(s, v)} {:trigger InDefer(s, v)} :: v in s.entries ==>
      InTable(s, v) != InDefer(s, v)
  }

  /** The recency list holds the table entries that may be removed to free space. */
  ghost predicate Listed(s: State, v: Value) {
    InTable(s, v) && (s.lru ==> s.entries[v].pin == 0)
  }

  ghost predicate OrderOk(s: State) {
    Distinct(s.order) &&
    forall v {:trigger v in s.order} {:trigger Listed(s, v)} :: v in s.order <==> Listed(s, v)
  }

  ghost predicate Sorted(s: State) {
    forall i, j :: 0 <= i < j < |s.order| && s.order[i] in s.entries && s.order[j] in s.entries
      ==> s.entries[s.order[i]].lastUse >= s.entries[s.order[j]].lastUse
  }

  ghost function Sum(m: map<Value, Entry>, vs: set<Value>): int
    requires vs <= m.Keys
  {
    if vs == {} then 0 else var v :| v in vs; m[v].units + Sum(m, vs - {v})
  }

  ghost function PinnedSet(s: State): set<Value> {
    set v | v in s.entries && InTable(s, v) && s.entries[v].pin > 0
  }

  ghost predicate Counted(s: State) {
    && s.units == Sum(s.entries, s.entries.Keys)
    && s.pinnedUnits == Sum(s.entries, PinnedSet(s))
  }

  ghost predicate NullUnused(s: State) {
    NULLPTR !in s.entries && NULLPTR !in s.removed
  }

  ghost predicate Core(s: State) {
    && TableOk(s) && RingsOk(s) && Partitioned(s) && OrderOk(s) && Sorted(s)
    && Counted(s) && NullUnused(s)
  }

  /** When the cache is too big, nothing that is left may be evicted. */
  ghost predicate Fits(s: State) {
    s.units > s.maxUnits ==>
      forall k :: k in s.table && s.table[k] in s.entries ==> s.entries[s.table[k]].pin > 0
  }

  ghost predicate NonePinned(s: State) {
    forall v {:trigger InTable(s, v)} :: InTable(s, v) ==> s.entries[v].pin == 0
  }

  /** The mode may be left as it is, asked for in vain, or changed if no table entry is pinned then: from age to
      use, too old ones leave the table with the change even if they are pinned. */
  ghost predicate ModeFits(s: State, limit: int, lru: bool, now: int) {
    || lru == s.lru || (limit >= 0 && s.maxIdle >= 0)
    || forall v {:trigger InTable(s, v)} :: InTable(s, v) && s.entries[v].pin > 0 ==>
         lru && limit >= 0 && s.entries[v].lastUse < now - limit
  }

  /** No recorded use lies after `now`: the clock has not run backwards. */
  ghost predicate Recent(s: State, now: int) {
    forall v :: v in s.entries ==> s.entries[v].lastUse <= now
  }

  ghost predicate Inv(s: State) { Core(s) && Fits(s) }

  /** How a state may change without the client taking part: elements without a pin
      may be disposed of, table entries may become deferred, nothing else. */
  ghost predicate Evolves(s: State, t: State) {
    && t.maxUnits == s.maxUnits && t.maxIdle == s.maxIdle && t.lru == s.lru
    && (forall v :: v in t.entries ==> v in s.entries && t.entries[v] == s.entries[v])
    && (forall v :: v in s.entries && v !in t.entries ==> s.entries[v].pin == 0)
    && (forall v {:trigger t.removed[v]} {:trigger s.removed[v]} ::
          t.removed[v] == if v in s.entries && v !in t.entries then s.removed[v] + 1 else s.removed[v])
    && (forall k :: k in t.table ==> k in s.table && t.table[k] == s.table[k])
    && (forall v :: v in t.order ==> v in s.order)
    && t.units <= s.units
  }

  // ----- sums

  lemma {:induction false} SumRemove(m: map<Value, Entry>, vs: set<Value>, v: Value)
    requires vs <= m.Keys && v in vs
    ensures Sum(m, vs) == m[v].units + Sum(m, vs - {v})
    decreases |vs|
  {
    var w :| w in vs && Sum(m, vs) == m[w].units + Sum(m, vs - {w});
    if w != v {
      SumRemove(m, vs - {w}, v);
      SumRemove(m, vs - {v}, w);
      assert vs - {w} - {v} == vs - {v} - {w};
    }
  }

  lemma {:induction false} SumFrame(m: map<Value, Entry>, n: map<Value, Entry>, vs: set<Value>)
    requires vs <= m.Keys && vs <= n.Keys
    requires forall v :: v in vs ==> m[v].units == n[v].units
    ensures Sum(m, vs) == Sum(n, vs)
    decreases |vs|
  {
    if vs != {} {
      var v :| v in vs;
      SumRemove(m, vs, v);
      SumRemove(n, vs, v);
      SumFrame(m, n, vs - {v});
    }
  }

  lemma {:induction false} SumInsert(m: map<Value, Entry>, vs: set<Value>, v: Value)
    requires vs <= m.Keys && v in m && v !in vs
    ensures Sum(m, vs + {v}) == m[v].units + Sum(m, vs)
  {
    SumRemove(m, vs + {v}, v);
    assert vs + {v} - {v} == vs;
  }

  // ----- list surgery

  lemma DistinctAt(q: seq<Value>, i: nat, j: nat)
    requires Distinct(q) && i < j < |q|
    ensures q[i] != q[j]
  {
  }

  lemma {:induction false} WithoutAt(q: seq<Value>, i: nat)
    requires i < |q| && Distinct(q)
    ensures Without(q, q[i]) == q[..i] + q[i + 1..]
  {
    if i > 0 {
      assert q[0] != q[i];
      assert q[1..][i - 1] == q[i];
      WithoutAt(q[1..], i - 1);
      assert q[1..][..i - 1] == q[1..i];
      assert q[1..][i..] == q[i + 1..];
      assert [q[0]] + q[1..i] == q[..i];
    }
  }

  lemma {:induction false} WithoutMissing(q: seq<Value>, v: Value)
    requires v !in q
    ensures Without(q, v) == q
  {
    if q != [] {
      WithoutMissing(q[1..], v);
    }
  }

  lemma {:induction false} WithoutFacts(q: seq<Value>, v: Value)
    requires Distinct(q)
    ensures Distinct(Without(q, v))
    ensures forall u :: u in Without(q, v) <==> u in q && u != v
    ensures v !in q ==> Without(q, v) == q
    ensures v in q ==> |Without(q, v)| == |q| - 1
  {
    hide Without;
    if v in q {
      var i :| 0 <= i < |q| && q[i] == v;
      WithoutAt(q, i);
      var w := q[..i] + q[i + 1..];
      forall a, b | 0 <= a < b < |w| ensures w[a] != w[b] {
        assert w[a] == q[if a < i then a else a + 1] && w[b] == q[if b < i then b else b + 1];
      }
      forall u ensures u in w <==> u in q && u != v {
        if u in q && u != v {
          var j :| 0 <= j < |q| && q[j] == u;
          assert w[if j < i then j else j - 1] == u;
        }
      }
    } else {
      WithoutMissing(q, v);
    }
  }

  lemma {:induction false} WithoutSorted(s: State, v: Value)
    requires Distinct(s.order) && Sorted(s)
    ensures Sorted(s.(order := Without(s.order, v)))
  {
    hide Without, Distinct;
    if v in s.order {
      var i :| 0 <= i < |s.order| && s.order[i] == v;
      WithoutAt(s.order, i);
      SortedWithout(s, i);
    } else {
      WithoutMissing(s.order, v);
      assert s.(order := s.order) == s;
    }
  }

  lemma SortedWithout(s: State, i: nat)
    requires Sorted(s) && i < |s.order|
    ensures Sorted(s.(order := s.order[..i] + s.order[i + 1..]))
  {
    var q, w := s.order, s.order[..i] + s.order[i + 1..];
    forall a, b | 0 <= a < b < |w| && w[a] in s.entries && w[b] in s.entries
      ensures s.entries[w[a]].lastUse >= s.entries[w[b]].lastUse
    {
      assert w[a] == q[if a < i then a else a + 1] && w[b] == q[if b < i then b else b + 1];
    }
  }

  lemma AttachFacts(d: map<Key, seq<Value>>, k: Key, v: Value)
    requires k in d ==> d[k] != [] && Distinct(d[k]) && v !in d[k]
    ensures var d' := Attach(d, k, v);
            && d'.Keys == d.Keys + {k}
            && (forall j :: j in d && j != k ==> d'[j] == d[j])
            && d'[k] != [] && Distinct(d'[k])
            && (forall u :: u in d'[k] <==> u == v || (k in d && u in d[k]))
  {
    if k in d {
      var r := d[k];
      var r' := [r[0], v] + r[1..];
      assert forall u :: u in r ==> u == r[0] || u in r[1..];
      assert forall u :: u in r' <==> u == r[0] || u == v || u in r[1..];
    }
  }

  lemma DetachFacts(d: map<Key, seq<Value>>, k: Key, v: Value)
    requires k in d && Distinct(d[k]) && v in d[k]
    ensures var d' := Detach(d, k, v);
            && (forall j :: j in d' && j != k ==> j in d && d'[j] == d[j])
            && (forall j :: j in d && j != k ==> j in d')
            && (k in d' <==> |d[k]| > 1)
            && (k in d' ==> d'[k] != [] && Distinct(d'[k])
                            && forall u :: u in d'[k] <==> u in d[k] && u != v)
  {
    var r := d[k];
    if r[0] != v {
      WithoutFacts(r, v);
      assert Without(r, v)[0] == r[0];
      assert |r| > 1;
    } else if |r| > 1 {
      var r' := [r[|r| - 1]] + r[1..|r| - 1];
      forall u ensures u in r' <==> u in r && u != v {
        if u in r && u != v {
          var j :| 0 <= j < |r| && r[j] == u;
          assert r'[if j == |r| - 1 then 0 else j] == u;
        }
      }
    }
  }

  // ----- reading the invariant

  lemma OrderEntry(s: State, i: nat)
    requires Core(s) && i < |s.order|
    ensures s.order[i] in s.order && Listed(s, s.order[i])
  {
  }

  lemma OrderListed(s: State)
    requires Core(s)
    ensures Distinct(s.order) && Sorted(s)
    ensures forall v {:trigger v in s.order} {:trigger Listed(s, v)} :: v in s.order <==> Listed(s, v)
  {
  }

  lemma TableEntry(s: State, k: Key)
    requires Core(s) && k in s.table
    ensures InTable(s, s.table[k]) && s.entries[s.table[k]].key == k
  {
    assert s.entries[s.table[k]].key == k;
  }

  lemma NotDeferred(s: State, k: Key)
    requires Core(s) && k in s.table
    ensures !InDefer(s, s.table[k]) && !IsDeferred(s, k, s.table[k])
  {
    TableEntry(s, k);
  }

  /** The live elements of a key are its table entry and its deferred ring. */
  lemma LivePlaces(s: State, k: Key)
    requires Core(s)
    ensures forall v :: v in s.entries && s.entries[v].key == k <==>
              (k in s.table && s.table[k] == v) || IsDeferred(s, k, v)
  {
    forall v | v in s.entries && s.entries[v].key == k
      ensures (k in s.table && s.table[k] == v) || IsDeferred(s, k, v)
    {
      assert InTable(s, v) || InDefer(s, v);
    }
    if k in s.table { TableEntry(s, k); }
  }

  // ----- taking one element out of the table

  lemma RemoveLocal(s: State, k: Key)
    requires Core(s) && k in s.table
    ensures var t := Remove(s, k); var v := s.table[k];
            && v in s.entries && s.entries[v].key == k
            && t.table == s.table - {k}
            && t.order == Without(s.order, v)
            && t.entries == (if s.entries[v].pin > 0 then s.entries else s.entries - {v})
            && t.removed == (if s.entries[v].pin > 0 then s.removed else s.removed + multiset{v})
            && t.defer == (if s.entries[v].pin > 0 then Attach(s.defer, k, v) else s.defer)
            && t.maxUnits == s.maxUnits && t.maxIdle == s.maxIdle && t.lru == s.lru
            && t.units == (if s.entries[v].pin > 0 then s.units else s.units - s.entries[v].units)
            && !InDefer(s, v)
  {
    var v := s.table[k];
    assert InTable(s, v);
  }

  lemma RemoveFromTable(s: State, k: Key)
    requires Core(s) && k in s.table
    ensures TableOk(Remove(s, k))
    ensures forall u :: InTable(Remove(s, k), u) <==> InTable(s, u) && u != s.table[k]
  {
    RemoveLocal(s, k);
    var t := Remove(s, k);
    forall u ensures InTable(t, u) <==> InTable(s, u) && u != s.table[k] {
      if u in t.entries {
        assert t.entries[u] == s.entries[u];
      }
    }
  }

  lemma RemovePinnedToRing(s: State, k: Key)
    requires Core(s) && k in s.table && s.table[k] in s.entries && s.entries[s.table[k]].pin > 0
    ensures RingsOk(Remove(s, k))
    ensures forall u :: InDefer(Remove(s, k), u) <==> InDefer(s, u) || u == s.table[k]
  {
    RemoveLocal(s, k);
    var t := Remove(s, k);
    var v := s.table[k];
    AttachFacts(s.defer, k, v);
    assert t.defer == Attach(s.defer, k, v) && t.entries == s.entries;
    forall u ensures InDefer(t, u) <==> InDefer(s, u) || u == v {
    }
  }

  lemma RemoveUnpinnedFromRings(s: State, k: Key)
    requires Core(s) && k in s.table && s.table[k] in s.entries && s.entries[s.table[k]].pin == 0
    ensures RingsOk(Remove(s, k))
    ensures forall u :: InDefer(Remove(s, k), u) <==> InDefer(s, u)
  {
    RemoveLocal(s, k);
    var t := Remove(s, k);
    var v := s.table[k];
    assert t.defer == s.defer && t.entries == s.entries - {v};
    forall j, u | j in s.defer && u in s.defer[j]
      ensures u in t.entries && t.entries[u].key == j && t.entries[u].pin > 0
    {
      assert u in s.entries && s.entries[u].pin > 0;
    }
    forall u ensures InDefer(t, u) <==> InDefer(s, u) {
    }
  }

  lemma RemoveKeepsPlaces(s: State, k: Key)
    requires Core(s) && k in s.table
    ensures var t := Remove(s, k);
            TableOk(t) && RingsOk(t) && Partitioned(t)
    ensures forall u :: InTable(Remove(s, k), u) <==> InTable(s, u) && u != s.table[k]
  {
    RemoveLocal(s, k);
    RemoveFromTable(s, k);
    var v := s.table[k];
    assert InTable(s, v);
    if s.entries[v].pin > 0 {
      RemovePinnedToRing(s, k);
    } else {
      RemoveUnpinnedFromRings(s, k);
    }
  }

  lemma RemoveKeepsOrder(s: State, k: Key)
    requires Core(s) && k in s.table
    ensures OrderOk(Remove(s, k)) && Sorted(Remove(s, k))
  {
    RemoveLocal(s, k);
    RemoveKeepsPlaces(s, k);
    WithoutFacts(s.order, s.table[k]);
    WithoutSorted(s, s.table[k]);
  }

  lemma RemoveKeepsCounts(s: State, k: Key)
    requires Core(s) && k in s.table
    ensures Counted(Remove(s, k)) && Remove(s, k).units <= s.units
  {
    RemoveLocal(s, k);
    RemoveKeepsPlaces(s, k);
    var t := Remove(s, k);
    var v := s.table[k];
    if s.entries[v].pin > 0 {
      assert PinnedSet(t) == PinnedSet(s) - {v};
      assert v in PinnedSet(s);
      SumRemove(s.entries, PinnedSet(s), v);
    } else {
      SumRemove(s.entries, s.entries.Keys, v);
      assert t.entries.Keys == s.entries.Keys - {v};
      SumFrame(s.entries, t.entries, t.entries.Keys);
      assert PinnedSet(t) == PinnedSet(s);
      SumFrame(s.entries, t.entries, PinnedSet(t));
    }
  }

  lemma RemoveKeeps(s: State, k: Key)
    requires Core(s)
    ensures Core(Remove(s, k)) && Evolves(s, Remove(s, k))
    ensures k !in Remove(s, k).table
    ensures forall j :: j in s.table && j != k ==> j in Remove(s, k).table
    ensures k in s.table ==> |Remove(s, k).order| <= |s.order|
  {
    if k in s.table {
      RemoveLocal(s, k);
      RemoveKeepsPlaces(s, k);
      RemoveKeepsOrder(s, k);
      RemoveKeepsCounts(s, k);
      WithoutFacts(s.order, s.table[k]);
    }
  }

  lemma RemoveAbsent(s: State, k: Key)
    requires k !in s.table
    ensures Remove(s, k) == s
  {
  }

  lemma EvolvesTransitive(s: State, t: State, u: State)
    requires Evolves(s, t) && Evolves(t, u)
    ensures Evolves(s, u)
  {
    forall v | v in s.entries && v !in u.entries ensures s.entries[v].pin == 0 {
      if v in t.entries {
        assert t.entries[v] == s.entries[v];
      }
    }
    forall v ensures u.removed[v] == if v in s.entries && v !in u.entries then s.removed[v] + 1 else s.removed[v] {
      assert t.removed[v] == if v in s.entries && v !in t.entries then s.removed[v] + 1 else s.removed[v];
    }
  }

  lemma EvolvesFacts(s: State, t: State)
    requires Evolves(s, t)
    ensures t.maxUnits == s.maxUnits && t.maxIdle == s.maxIdle && t.lru == s.lru
    ensures forall v {:trigger t.entries[v]} {:trigger s.entries[v]} :: v in t.entries ==>
              v in s.entries && t.entries[v] == s.entries[v]
    ensures forall v {:trigger v in t.order} :: v in t.order ==> v in s.order
    ensures forall k {:trigger k in t.table} :: k in t.table ==>
              k in s.table && t.table[k] == s.table[k]
  {
  }

  lemma EvolvesReflexive(s: State)
    ensures Evolves(s, s)
  {
  }

  lemma EvolvesKeepsRecent(s: State, t: State, now: int)
    requires Evolves(s, t) && Recent(s, now)
    ensures Recent(t, now)
  {
  }

  /** The size bound survives when only the table and the units can shrink. */
  lemma EvolvesKeepsFits(s: State, t: State)
    requires Evolves(s, t) && Fits(s)
    requires forall k :: k in t.table ==> t.table[k] in t.entries
    ensures Fits(t)
  {
  }
}
