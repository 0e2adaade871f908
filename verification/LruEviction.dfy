/** What the four sweeps over the cache remove: size eviction, expiry, RemoveUnpinned
    and RemoveAll. */
module LruEviction {
  import opened LruModel
  import opened LruProofs

  // ----- size eviction

  /** The unpinned elements of the recency list from position n on. */
  ghost function Victims(s: State, n: nat): set<Value>
    requires n <= |s.order|
  {
    set i | n <= i < |s.order| && s.order[i] in s.entries && s.entries[s.order[i]].pin == 0
      :: s.order[i]
  }

  /** t is s after evicting Victims(s, n), and evicting fewer would not have been enough. */
  ghost predicate EvictedDownTo(s: State, t: State, n: nat) {
    && n <= |s.order|
    && Core(t) && Evolves(s, t)
    && t.entries == s.entries - Victims(s, n)
    && t.removed == s.removed + multiset(Victims(s, n))
    && t.defer == s.defer
    && t.units == s.units - Sum(s.entries, Victims(s, n))
    && s.order[..n] <= t.order
    && (forall m :: n < m <= |s.order| ==> s.units - Sum(s.entries, Victims(s, m)) > s.maxUnits)
  }

  lemma EvictIsRemove(s: State, v: Value)
    requires Core(s) && v in s.order && v in s.entries && s.entries[v].pin == 0
    ensures Evict(s, v) == Remove(s, s.entries[v].key)
  {
    OrderListed(s);
    hide Core;
    assert Listed(s, v);
  }

  lemma VictimsGrow(s: State, n: nat)
    requires Core(s) && 0 < n <= |s.order|
    ensures s.order[n - 1] in s.entries && Victims(s, n) <= s.entries.Keys
    ensures s.order[n - 1] !in Victims(s, n)
    ensures s.entries[s.order[n - 1]].pin == 0 ==> Victims(s, n - 1) == Victims(s, n) + {s.order[n - 1]}
    ensures s.entries[s.order[n - 1]].pin > 0 ==> Victims(s, n - 1) == Victims(s, n)
  {
    OrderListed(s);
    hide Core;
    assert s.order[n - 1] in s.order;
  }

  /** What evicting the element at position i of the recency list changes. */
  lemma EvictFacts(t: State, i: nat)
    requires Core(t) && i < |t.order| && t.order[i] in t.entries && t.entries[t.order[i]].pin == 0
    ensures var v := t.order[i];
            var u := Evict(t, v);
            && Core(u) && Evolves(t, u) && u.defer == t.defer
            && u.entries == t.entries - {v} && u.removed == t.removed + multiset{v}
            && u.units == t.units - t.entries[v].units
            && u.order == t.order[..i] + t.order[i + 1..]
  {
    hide Core, Evolves, Remove, RemoveElem, Listed, Sorted, Evict, Without;
    var v := t.order[i];
    EvictIsRemove(t, v);
    EvictedKey(t, v);
    RemoveLocal(t, t.entries[v].key);
    RemoveKeeps(t, t.entries[v].key);
    OrderListed(t);
    WithoutAt(t.order, i);
  }

  lemma EvictStep(s: State, t: State, n: nat)
    requires Core(s) && n > 0 && EvictedDownTo(s, t, n) && t.units > t.maxUnits
    requires s.order[n - 1] in t.entries && t.entries[s.order[n - 1]].pin == 0
    ensures EvictedDownTo(s, Evict(t, s.order[n - 1]), n - 1)
  {
    hide Core, Evolves, Evict, Sum, Victims;
    var v := s.order[n - 1];
    EvolvesFacts(s, t);
    assert t.order[n - 1] == v;
    EvictFacts(t, n - 1);
    EvolvesTransitive(s, t, Evict(t, v));
    VictimsGrow(s, n);
    SumInsert(s.entries, Victims(s, n), v);
    OneVictimMore(s, t, n, v);
    assert s.order[..n - 1] == s.order[..n][..n - 1];
  }

  lemma OneVictimMore(s: State, t: State, n: nat, v: Value)
    requires 0 < n <= |s.order| && Victims(s, n - 1) == Victims(s, n) + {v} && v !in Victims(s, n)
    requires t.entries == s.entries - Victims(s, n) && t.removed == s.removed + multiset(Victims(s, n))
    ensures t.entries - {v} == s.entries - Victims(s, n - 1)
    ensures t.removed + multiset{v} == s.removed + multiset(Victims(s, n - 1))
  {
    hide Victims;
    assert multiset(Victims(s, n) + {v}) == multiset(Victims(s, n)) + multiset{v};
  }

  lemma EvictedKey(s: State, v: Value)
    requires Core(s) && v in s.order
    ensures v in s.entries && s.entries[v].key in s.table && s.table[s.entries[v].key] == v
  {
    OrderListed(s);
    hide Core;
    assert Listed(s, v);
  }

  lemma SkipStep(s: State, t: State, n: nat)
    requires Core(s) && n > 0 && EvictedDownTo(s, t, n) && t.units > t.maxUnits
    requires s.order[n - 1] in t.entries && t.entries[s.order[n - 1]].pin > 0
    ensures EvictedDownTo(s, t, n - 1)
  {
    hide Core, Evolves;
    EvolvesFacts(s, t);
    VictimsGrow(s, n);
    assert t.entries[s.order[n - 1]] == s.entries[s.order[n - 1]];
    assert s.order[..n - 1] == s.order[..n][..n - 1];
  }

  lemma EvictedSoFar(s: State, t: State, n: nat)
    requires EvictedDownTo(s, t, n)
    ensures n <= |s.order| && t.maxUnits == s.maxUnits
    ensures n > 0 ==> s.order[n - 1] in t.entries
  {
    EvolvesFacts(s, t);
    hide Core, Evolves;
    if n > 0 {
      assert t.order[n - 1] == s.order[n - 1];
      OrderEntry(t, n - 1);
    }
  }

  lemma {:induction false} CollectFromStops(s: State, t: State, n: nat) returns (m: nat)
    requires Core(s) && EvictedDownTo(s, t, n)
    ensures EvictedDownTo(s, CollectFrom(t, s.order[..n]), m)
    ensures m == 0 || CollectFrom(t, s.order[..n]).units <= s.maxUnits
    decreases n
  {
    hide Core, Evict, EvictedDownTo;
    EvictedSoFar(s, t, n);
    m := n;
    if n > 0 && t.units > t.maxUnits {
      var q := s.order[..n];
      var v := q[n - 1];
      assert q[..n - 1] == s.order[..n - 1];
      if t.entries[v].pin == 0 {
        EvictStep(s, t, n);
        m := CollectFromStops(s, Evict(t, v), n - 1);
      } else {
        SkipStep(s, t, n);
        m := CollectFromStops(s, t, n - 1);
      }
    }
  }

  /** GarbageCollect evicts the unpinned elements of the shortest tail of the recency list
      that brings the cache within its bound, or all unpinned elements when none does. */
  lemma CollectsShortestTail(s: State) returns (n: nat)
    requires Core(s)
    ensures EvictedDownTo(s, GarbageCollect(s), n)
    ensures n == 0 || GarbageCollect(s).units <= s.maxUnits
  {
    hide Core, Sorted, CollectFrom;
    n := |s.order|;
    assert Victims(s, n) == {};
    assert s.entries == s.entries - {};
    assert s.order[..n] == s.order;
    assert Evolves(s, s);
    n := CollectFromStops(s, s, n);
  }

  lemma UnpinnedIsVictim(s: State, v: Value)
    requires Core(s) && InTable(s, v) && s.entries[v].pin == 0
    ensures v in Victims(s, 0)
  {
    OrderListed(s);
    hide Core;
    assert Listed(s, v);
    var i :| 0 <= i < |s.order| && s.order[i] == v;
  }

  lemma CollectFits(s: State)
    requires Core(s)
    ensures Fits(GarbageCollect(s))
  {
    var n := CollectsShortestTail(s);
    var t := GarbageCollect(s);
    assert t.maxUnits == s.maxUnits;
    forall k | n == 0 && k in t.table && t.table[k] in t.entries
      ensures t.entries[t.table[k]].pin > 0
    {
      var v := t.table[k];
      TableEntry(s, k);
      assert t.entries[v] == s.entries[v];
      if s.entries[v].pin == 0 {
        UnpinnedIsVictim(s, v);
        assert false;
      }
    }
  }

  lemma CollectKeeps(s: State)
    requires Core(s)
    ensures Core(GarbageCollect(s)) && Fits(GarbageCollect(s)) && Evolves(s, GarbageCollect(s))
  {
    hide GarbageCollect, Core, Fits, Evolves;
    var n := CollectsShortestTail(s);
    CollectFits(s);
  }

  // ----- expiry

  /** t is s after its too old listed entries have left, and only those. */
  ghost predicate DroppedBelow(s: State, t: State, threshold: int) {
    && Core(t) && Evolves(s, t)
    && (forall v :: v in s.order ==>
          v in s.entries && (v in t.order <==> s.entries[v].lastUse >= threshold))
    && (forall k :: k in s.table && k !in t.table ==>
          s.table[k] in s.order && s.table[k] in s.entries && s.entries[s.table[k]].lastUse < threshold)
  }

  lemma DropNothing(s: State, threshold: int)
    requires Core(s)
    requires s.order == [] || (s.order[|s.order| - 1] in s.entries &&
               s.entries[s.order[|s.order| - 1]].lastUse >= threshold)
    ensures DroppedBelow(s, s, threshold)
  {
    OrderListed(s);
    assert Evolves(s, s);
    hide Core, Evolves;
    forall v | v in s.order ensures v in s.entries && s.entries[v].lastUse >= threshold {
      var i :| 0 <= i < |s.order| && s.order[i] == v;
      assert Listed(s, v);
    }
  }

  lemma DropLast(s: State, t: State, threshold: int)
    requires Core(s) && s.order != []
    requires var v := s.order[|s.order| - 1];
             && v in s.entries && s.entries[v].lastUse < threshold
             && DroppedBelow(Remove(s, s.entries[v].key), t, threshold)
    ensures DroppedBelow(s, t, threshold)
  {
    hide Core, Evolves, Remove, Sorted, Without;
    var v := s.order[|s.order| - 1];
    var k := s.entries[v].key;
    var s1 := Remove(s, k);
    OrderEntry(s, |s.order| - 1);
    RemoveLocal(s, k);
    RemoveKeeps(s, k);
    EvolvesTransitive(s, s1, t);
    DropLastOrder(s, t, threshold);
    EvolvesFacts(s, s1);
    forall j | j in s.table && j !in t.table
      ensures s.table[j] in s.order && s.table[j] in s.entries && s.entries[s.table[j]].lastUse < threshold
    {
      if j in s1.table {
        assert s1.table[j] == s.table[j] && s1.table[j] in s1.order;
      }
    }
  }

  lemma DropLastOrder(s: State, t: State, threshold: int)
    requires Core(s) && s.order != []
    requires var v := s.order[|s.order| - 1];
             && v in s.entries && s.entries[v].lastUse < threshold
             && DroppedBelow(Remove(s, s.entries[v].key), t, threshold)
    ensures forall u :: u in s.order ==>
              u in s.entries && (u in t.order <==> s.entries[u].lastUse >= threshold)
  {
    hide Core, Evolves, Remove, Sorted, Without;
    var v := s.order[|s.order| - 1];
    var k := s.entries[v].key;
    var s1 := Remove(s, k);
    OrderEntry(s, |s.order| - 1);
    RemoveLocal(s, k);
    RemoveKeeps(s, k);
    EvolvesFacts(s, s1);
    EvolvesFacts(s1, t);
    OrderListed(s);
    WithoutFacts(s.order, v);
    forall u | u in s.order
      ensures u in s.entries && (u in t.order <==> s.entries[u].lastUse >= threshold)
    {
      assert Listed(s, u);
      if u != v {
        assert u in s1.order;
      }
    }
  }

  lemma {:induction false} DropOlderDrops(s: State, threshold: int)
    requires Core(s)
    ensures DroppedBelow(s, DropOlder(s, s.order, threshold), threshold)
    decreases |s.order|
  {
    hide Core, DroppedBelow, Remove;
    var n := |s.order|;
    if n > 0 {
      var v := s.order[n - 1];
      var k := s.entries[v].key by { OrderEntry(s, n - 1); }
      OrderEntry(s, n - 1);
      if s.entries[v].lastUse < threshold {
        var s1 := Remove(s, k);
        RemoveLocal(s, k);
        RemoveKeeps(s, k);
        OrderListed(s);
        WithoutAt(s.order, n - 1);
        assert s1.order == s.order[..n - 1];
        DropOlderDrops(s1, threshold);
        DropLast(s, DropOlder(s1, s1.order, threshold), threshold);
      } else {
        DropNothing(s, threshold);
      }
    } else {
      DropNothing(s, threshold);
    }
  }

  /** Although DiscardIdle stops at the first entry that is young enough, no listed entry
      that has been idle too long survives, and no other listed entry leaves the list. */
  lemma DiscardIdleIsExact(s: State, maxIdle: nat, now: int)
    requires Core(s)
    ensures var t := DiscardIdle(s, maxIdle, now);
            forall v :: v in s.order ==>
              v in s.entries && (v in t.order <==> now - s.entries[v].lastUse <= maxIdle)
  {
    hide Core, Evolves, DropOlder;
    DropOlderDrops(s, now - maxIdle);
  }

  /** A table entry leaves the table exactly if it is listed and has been idle too long. */
  lemma SurvivesIdleIff(s: State, maxIdle: nat, now: int, v: Value)
    requires Core(s) && InTable(s, v)
    ensures InTable(DiscardIdle(s, maxIdle, now), v) <==>
            !(v in s.order && s.entries[v].lastUse < now - maxIdle)
  {
    var t := DiscardIdle(s, maxIdle, now);
    hide DropOlder, RingsOk, Partitioned, Sorted, Counted, NullUnused, Distinct;
    DropOlderDrops(s, now - maxIdle);
    var k := s.entries[v].key;
    if v in s.order && s.entries[v].lastUse < now - maxIdle {
      assert Listed(s, v) && !Listed(t, v);
    } else {
      assert k in t.table && t.table[k] == v;
      TableEntry(t, k);
    }
  }

  lemma DiscardIdleKeeps(s: State, maxIdle: int, now: int)
    requires Core(s)
    ensures Core(DiscardIdle(s, maxIdle, now)) && Evolves(s, DiscardIdle(s, maxIdle, now))
  {
    if maxIdle >= 0 {
      hide Core, Evolves, DropOlder;
      DropOlderDrops(s, now - maxIdle);
    } else {
      hide Core;
    }
  }

  // ----- RemoveUnpinned

  /** t is s without its unpinned table entries. */
  ghost predicate OnlyPinnedLeft(s: State, t: State) {
    && Core(t) && Evolves(s, t)
    && (forall k {:trigger k in t.table} {:trigger k in s.table} :: k in t.table <==>
          k in s.table && s.table[k] in s.entries && s.entries[s.table[k]].pin > 0)
  }

  lemma NothingUnpinned(s: State)
    requires Core(s)
    requires forall v :: !(Listed(s, v) && s.entries[v].pin == 0)
    ensures OnlyPinnedLeft(s, s)
  {
    assert Evolves(s, s);
    hide Evolves;
    forall k | k in s.table ensures s.table[k] in s.entries && s.entries[s.table[k]].pin > 0 {
      TableEntry(s, k);
      assert Listed(s, s.table[k]) || s.entries[s.table[k]].pin > 0;
    }
  }

  lemma RemoveOneUnpinned(s: State, v: Value, t: State)
    requires Core(s) && InTable(s, v) && s.entries[v].pin == 0
    requires OnlyPinnedLeft(Remove(s, s.entries[v].key), t)
    ensures OnlyPinnedLeft(s, t)
  {
    hide Core, Evolves, Remove;
    var k := s.entries[v].key;
    var s1 := Remove(s, k);
    RemoveLocal(s, k);
    RemoveKeeps(s, k);
    EvolvesTransitive(s, s1, t);
    EvolvesFacts(s, s1);
    forall j ensures j in t.table <==>
        j in s.table && s.table[j] in s.entries && s.entries[s.table[j]].pin > 0
    {
      if j in s.table {
        TableEntry(s, j);
      }
    }
  }

  lemma {:induction false} RemoveUnpinnedOfSweeps(s: State, q: seq<Value>)
    requires Core(s) && Distinct(q)
    requires forall v :: Listed(s, v) && s.entries[v].pin == 0 ==> v in q
    requires forall v :: v in q && v in s.entries ==> InTable(s, v)
    ensures OnlyPinnedLeft(s, RemoveUnpinnedOf(s, q))
    decreases |q|
  {
    hide Core, Evolves, Remove, OnlyPinnedLeft;
    if q == [] {
      NothingUnpinned(s);
    } else if q[0] in s.entries && s.entries[q[0]].pin == 0 {
      var k := s.entries[q[0]].key;
      var s1 := Remove(s, k);
      assert InTable(s, q[0]);
      RemoveLocal(s, k);
      RemoveFromTable(s, k);
      RemoveKeeps(s, k);
      forall v | Listed(s1, v) && s1.entries[v].pin == 0 ensures v in q[1..] {
        assert Listed(s, v);
        assert v in q && v != q[0];
      }
      RemoveUnpinnedOfSweeps(s1, q[1..]);
      RemoveOneUnpinned(s, q[0], RemoveUnpinnedOf(s, q));
    } else {
      RemoveUnpinnedOfSweeps(s, q[1..]);
    }
  }

  /** RemoveUnpinned leaves exactly the pinned table entries. */
  lemma RemoveUnpinnedIsExact(s: State)
    requires Core(s)
    ensures OnlyPinnedLeft(s, RemoveUnpinned(s))
  {
    OrderListed(s);
    hide Core, RemoveUnpinnedOf, OnlyPinnedLeft;
    forall v | Listed(s, v) ensures v in s.order { }
    forall v | v in s.order ensures InTable(s, v) { assert Listed(s, v); }
    RemoveUnpinnedOfSweeps(s, s.order);
  }

  // ----- RemoveAll

  ghost function PinnedKeys(s: State): set<Key> {
    set k | k in s.table && s.table[k] in s.entries && s.entries[s.table[k]].pin > 0
  }

  ghost function UnpinnedValues(s: State): set<Value> {
    set k | k in s.table && s.table[k] in s.entries && s.entries[s.table[k]].pin == 0 :: s.table[k]
  }

  ghost function FullRings(s: State): map<Key, seq<Value>> {
    map k | k in s.defer.Keys + PinnedKeys(s) ::
      if k in PinnedKeys(s) then Attach(s.defer, k, s.table[k])[k] else s.defer[k]
  }

  /** The state RemoveAll reaches, whatever order the hash table is iterated in. */
  ghost function RemoveAll(s: State): State {
    var entries := s.entries - UnpinnedValues(s);
    State(entries, map[], [], FullRings(s), Sum(entries, entries.Keys), 0, s.maxUnits, s.maxIdle, s.lru,
          s.removed + multiset(UnpinnedValues(s)))
  }

  lemma RemoveAllSplits(s: State, k: Key)
    requires Core(s) && k in s.table
    ensures var t := Remove(s, k); var v := s.table[k];
            && v in s.entries
            && (s.entries[v].pin > 0 ==>
                  UnpinnedValues(t) == UnpinnedValues(s) && PinnedKeys(t) == PinnedKeys(s) - {k}
                  && k in PinnedKeys(s))
            && (s.entries[v].pin == 0 ==>
                  UnpinnedValues(s) == UnpinnedValues(t) + {v} && v !in UnpinnedValues(t)
                  && PinnedKeys(t) == PinnedKeys(s))
  {
    hide Core, Remove;
    var t := Remove(s, k);
    var v := s.table[k];
    RemoveLocal(s, k);
    forall j | j in s.table && j != k ensures s.table[j] in s.entries && s.table[j] != v {
      TableEntry(s, j);
    }
    assert forall j :: j in t.table ==> t.table[j] == s.table[j];
    if s.entries[v].pin == 0 {
      forall u | u in UnpinnedValues(s) ensures u in UnpinnedValues(t) + {v} {
        var j :| j in s.table && s.table[j] == u;
        if j != k { assert t.table[j] == u; }
      }
    }
  }

  lemma AttachIsLocal(d: map<Key, seq<Value>>, e: map<Key, seq<Value>>, j: Key, v: Value)
    requires j in d <==> j in e
    requires j in d ==> d[j] == e[j]
    ensures j in Attach(d, j, v) && j in Attach(e, j, v)
    ensures Attach(d, j, v)[j] == Attach(e, j, v)[j]
    ensures forall i :: i != j ==>
              (i in Attach(d, j, v) <==> i in d) && (i in d ==> Attach(d, j, v)[i] == d[i])
  {
  }

  lemma FullRingsAbsorb(s: State, k: Key)
    requires Core(s) && k in s.table
    ensures FullRings(Remove(s, k)) == FullRings(s)
  {
    hide Core, Remove, Attach;
    RemoveLocal(s, k);
    RemoveAllSplits(s, k);
    var t := Remove(s, k);
    AttachIsLocal(s.defer, s.defer, k, s.table[k]);
    assert PinnedKeys(s) <= s.table.Keys && PinnedKeys(t) <= t.table.Keys;
    hide PinnedKeys;
    assert FullRings(t).Keys == FullRings(s).Keys;
    forall j | j in FullRings(s) ensures FullRings(t)[j] == FullRings(s)[j] {
      if j in PinnedKeys(t) {
        AttachIsLocal(s.defer, t.defer, j, s.table[j]);
      }
    }
  }

  lemma RemoveAllAbsorbs(s: State, k: Key)
    requires Core(s) && k in s.table
    ensures RemoveAll(Remove(s, k)) == RemoveAll(s)
  {
    hide Core, Remove, UnpinnedValues, FullRings, PinnedKeys;
    var t := Remove(s, k);
    RemoveLocal(s, k);
    RemoveAllSplits(s, k);
    FullRingsAbsorb(s, k);
    assert t.entries - UnpinnedValues(t) == s.entries - UnpinnedValues(s);
    assert RemoveAll(t).removed == RemoveAll(s).removed;
  }

  lemma NothingInTable(s: State)
    requires Core(s) && s.table == map[]
    ensures UnpinnedValues(s) == {} && PinnedSet(s) == {} && s.order == []
  {
    forall v ensures v !in s.order && v !in PinnedSet(s) {
    }
    if s.order != [] {
      OrderEntry(s, 0);
      assert false;
    }
  }

  lemma NothingToAttach(s: State)
    requires s.table == map[]
    ensures FullRings(s) == s.defer
  {
    assert PinnedKeys(s) == {};
  }

  lemma RemoveAllOfNothing(s: State)
    requires Core(s) && s.table == map[]
    ensures RemoveAll(s) == s
  {
    NothingInTable(s);
    NothingToAttach(s);
    hide TableOk, RingsOk, Partitioned, OrderOk, Sorted, UnpinnedValues, FullRings, PinnedSet, NullUnused;
    assert s.entries - {} == s.entries;
    assert Counted(s);
  }

  /** RemoveAll does not depend on the order in which the hash table is iterated. */
  lemma {:induction false} RemoveAllInAnyOrder(s: State, ks: seq<Key>)
    requires Core(s)
    requires forall k :: k in s.table ==> k in ks
    ensures RemoveAllOf(s, ks) == RemoveAll(s)
    ensures Core(RemoveAll(s)) && Evolves(s, RemoveAll(s))
    decreases |ks|
  {
    if ks == [] {
      assert s.table == map[];
      RemoveAllOfNothing(s);
    } else {
      var s1 := Remove(s, ks[0]);
      RemoveKeeps(s, ks[0]);
      RemoveAllInAnyOrder(s1, ks[1..]);
      if ks[0] in s.table {
        RemoveAllAbsorbs(s, ks[0]);
      }
      EvolvesTransitive(s, s1, RemoveAll(s));
    }
  }
}
