/** Every client operation of the LRU cache keeps the representation invariants. */
module LruOperations {
  import opened LruModel
  import opened LruProofs
  import opened LruEviction

  // ----- changing one entry in place

  lemma SumUpdate(m: map<Value, Entry>, vs: set<Value>, v: Value, e: Entry)
    requires vs <= m.Keys && v in m
    ensures Sum(m[v := e], vs) ==
            if v in vs then Sum(m, vs) - m[v].units + e.units else Sum(m, vs)
  {
    if v in vs {
      SumRemove(m, vs, v);
      SumRemove(m[v := e], vs, v);
      SumFrame(m, m[v := e], vs - {v});
    } else {
      SumFrame(m, m[v := e], vs);
    }
  }

  /** t is s with the entry of v replaced, its key unchanged. */
  ghost predicate Reentered(s: State, t: State, v: Value) {
    && v in s.entries && v in t.entries
    && t.entries == s.entries[v := t.entries[v]] && t.entries[v].key == s.entries[v].key
    && t.table == s.table && t.defer == s.defer && t.removed == s.removed && t.lru == s.lru
  }

  lemma ReenterKeepsPlaces(s: State, t: State, v: Value)
    requires Reentered(s, t, v)
    requires TableOk(s) && RingsOk(s) && Partitioned(s)
    requires t.entries[v].pin > 0 || InTable(s, v)
    ensures TableOk(t) && RingsOk(t) && Partitioned(t)
    ensures forall u {:trigger InTable(t, u)} :: InTable(t, u) <==> InTable(s, u)
    ensures forall u {:trigger InDefer(t, u)} :: InDefer(t, u) <==> InDefer(s, u)
  {
    forall u ensures InTable(t, u) <==> InTable(s, u) { }
    forall u ensures InDefer(t, u) <==> InDefer(s, u) { }
    if InTable(s, v) {
      assert !InDefer(s, v);
    }
    forall k, u | k in t.defer && u in t.defer[k]
      ensures u in t.entries && t.entries[u].key == k && t.entries[u].pin > 0
    {
      if u == v { assert InDefer(s, v); }
    }
  }

  lemma CoreIntro(s: State)
    requires TableOk(s) && RingsOk(s) && Partitioned(s) && OrderOk(s) && Sorted(s)
    requires Counted(s) && NullUnused(s)
    ensures Core(s)
  {
  }

  lemma CoreParts(s: State)
    requires Core(s)
    ensures TableOk(s) && RingsOk(s) && Partitioned(s) && OrderOk(s) && Sorted(s)
    ensures Counted(s) && NullUnused(s)
  {
  }

  /** The recency list of t is that of s, with v listed exactly when it should be. */
  lemma {:induction false} ReenterKeepsOrder(s: State, t: State, v: Value)
    requires Reentered(s, t, v) && OrderOk(s) && Sorted(s)
    requires t.order == s.order || t.order == Without(s.order, v)
    requires forall u :: InTable(t, u) <==> InTable(s, u)
    requires v in t.order <==> Listed(t, v)
    requires t.entries[v].lastUse == s.entries[v].lastUse || v !in t.order
    ensures OrderOk(t) && Sorted(t)
  {
    WithoutFacts(s.order, v);
    WithoutSorted(s, v);
    hide Without;
    forall u ensures u in t.order <==> Listed(t, u) {
      if u != v {
        assert u in s.order <==> Listed(s, u);
        assert Listed(t, u) <==> Listed(s, u);
      }
    }
    var w := s.(order := t.order);
    assert Sorted(w);
    forall i, j | 0 <= i < j < |t.order| && t.order[i] in t.entries && t.order[j] in t.entries
      ensures t.entries[t.order[i]].lastUse >= t.entries[t.order[j]].lastUse
    {
      assert w.order[i] in w.entries && w.order[j] in w.entries;
      assert t.order[i] in t.order && t.order[j] in t.order;
    }
  }

  // ----- Lookup

  lemma PinnedAfterPin(s: State, v: Value)
    requires InTable(s, v) && v in s.entries
    requires forall u :: InTable(Pin(s, v), u) <==> InTable(s, u)
    ensures PinnedSet(Pin(s, v)) == PinnedSet(s) + {v}
    ensures v in PinnedSet(s) <==> s.entries[v].pin > 0
    ensures Pin(s, v).entries == s.entries[v := s.entries[v].(pin := s.entries[v].pin + 1)]
    ensures Pin(s, v).units == s.units
    ensures Pin(s, v).pinnedUnits == s.pinnedUnits + if s.entries[v].pin > 0 then 0 else s.entries[v].units
  {
    hide InTable, Without;
    var t := Pin(s, v);
    forall u ensures u in PinnedSet(t) <==> u in PinnedSet(s) || u == v { }
  }

  lemma PinKeepsCounts(s: State, v: Value)
    requires Core(s) && InTable(s, v) && v in s.entries
    requires forall u :: InTable(Pin(s, v), u) <==> InTable(s, u)
    ensures Counted(Pin(s, v))
  {
    hide Core, TableOk, RingsOk, Partitioned, OrderOk, Sorted, PinnedSet, InTable, Pin;
    CoreParts(s);
    PinnedAfterPin(s, v);
    PinnedEntries(s);
    var t := Pin(s, v);
    SumUpdate(s.entries, s.entries.Keys, v, t.entries[v]);
    SumUpdate(s.entries, PinnedSet(s), v, t.entries[v]);
    assert t.entries.Keys == s.entries.Keys;
    if s.entries[v].pin == 0 {
      SumInsert(t.entries, PinnedSet(s), v);
    } else {
      assert PinnedSet(t) == PinnedSet(s);
    }
  }

  lemma PinnedEntries(s: State)
    ensures PinnedSet(s) <= s.entries.Keys
  {
  }

  lemma {:induction false} PinReenters(s: State, v: Value)
    requires TableOk(s) && InTable(s, v)
    ensures v in s.entries && Reentered(s, Pin(s, v), v) && Pin(s, v).entries[v].pin > 0
    ensures Pin(s, v).entries[v].lastUse == s.entries[v].lastUse
    ensures Pin(s, v).order == if s.entries[v].pin == 0 && s.lru then Without(s.order, v) else s.order
    ensures Pin(s, v).units == s.units && Pin(s, v).maxUnits == s.maxUnits
    ensures Listed(s, v) <==> !s.lru || s.entries[v].pin == 0
  {
    hide Without;
  }

  lemma PinKeepsOrder(s: State, v: Value)
    requires TableOk(s) && OrderOk(s) && Sorted(s) && InTable(s, v)
    requires forall u :: InTable(Pin(s, v), u) <==> InTable(s, u)
    ensures OrderOk(Pin(s, v)) && Sorted(Pin(s, v))
  {
    PinReenters(s, v);
    WithoutFacts(s.order, v);
    hide TableOk, Pin, InTable, Sorted, Without;
    assert Listed(s, v) <==> v in s.order;
    ReenterKeepsOrder(s, Pin(s, v), v);
  }

  lemma PinKeepsFits(s: State, v: Value)
    requires TableOk(s) && InTable(s, v) && Fits(s)
    ensures Fits(Pin(s, v))
  {
    PinReenters(s, v);
    hide Pin, Without;
  }

  lemma PinKeeps(s: State, v: Value)
    requires Core(s) && InTable(s, v)
    ensures Core(Pin(s, v))
    ensures Fits(s) ==> Fits(Pin(s, v))
  {
    hide Core, TableOk, RingsOk, Partitioned, Sorted, OrderOk, Counted, InTable, Fits, Pin, Without, Listed;
    CoreParts(s);
    PinReenters(s, v);
    ReenterKeepsPlaces(s, Pin(s, v), v);
    PinKeepsOrder(s, v);
    PinKeepsCounts(s, v);
    if Fits(s) { PinKeepsFits(s, v); }
    CoreIntro(Pin(s, v));
  }

  /** Lookup returns what the table holds once the expired entries have gone, and pins it. */
  lemma LookupKeeps(s: State, k: Key, now: int)
    requires Inv(s)
    ensures var (t, v) := Lookup(s, k, now);
            && Inv(t)
            && (v == NULLPTR ==> k !in RemoveExpired(s, now).table && t == RemoveExpired(s, now))
            && (v != NULLPTR ==> k in s.table && v == s.table[k]
                                 && InTable(RemoveExpired(s, now), v)
                                 && t == Pin(RemoveExpired(s, now), v))
            && Evolves(s, RemoveExpired(s, now))
  {
    var s1 := RemoveExpired(s, now);
    ExpiryKeeps(s, now);
    EvolvesFacts(s, s1);
    if k in s1.table {
      TableEntry(s1, k);
      NotNull(s1, s1.table[k]);
      hide Core, Fits, Evolves, Pin, RemoveExpired;
      PinKeeps(s1, s1.table[k]);
    } else {
      NotNull(s1, NULLPTR);
    }
  }

  lemma NotNull(s: State, v: Value)
    requires Core(s)
    ensures v in s.entries ==> v != NULLPTR
  {
  }

  lemma ExpiryKeeps(s: State, now: int)
    requires Inv(s)
    ensures Inv(RemoveExpired(s, now)) && Evolves(s, RemoveExpired(s, now))
  {
    hide Core, Evolves, Fits, DiscardIdle;
    EvolvesReflexive(s);
    if s.maxIdle >= 0 {
      DiscardIdleKeeps(s, s.maxIdle, now);
      EvolvedInv(s, DiscardIdle(s, s.maxIdle, now));
    }
  }

  lemma EvolvedInv(s: State, t: State)
    requires Inv(s) && Evolves(s, t) && Core(t)
    ensures Inv(t)
  {
    forall k | k in t.table ensures t.table[k] in t.entries { TableEntry(t, k); }
    hide Core;
    EvolvesKeepsFits(s, t);
  }

  // ----- Release

  lemma DetachKeepsRings(s: State, t: State, k: Key, v: Value)
    requires RingsOk(s) && IsDeferred(s, k, v) && v in s.entries && s.entries[v].key == k
    requires t.defer == Detach(s.defer, k, v) && t.entries == s.entries - {v}
    ensures RingsOk(t)
    ensures forall u :: InDefer(t, u) <==> InDefer(s, u) && u != v
  {
    DetachFacts(s.defer, k, v);
    hide Detach;
    forall j, u | j in t.defer && u in t.defer[j]
      ensures u in t.entries && t.entries[u].key == j && t.entries[u].pin > 0
    {
      assert j in s.defer && u in s.defer[j];
    }
    forall u ensures InDefer(t, u) <==> InDefer(s, u) && u != v {
      if u in t.entries {
        var j := s.entries[u].key;
        assert IsDeferred(t, j, u) <==> IsDeferred(s, j, u);
      }
    }
  }

  lemma ReleaseDeferredPlaces(s: State, k: Key, v: Value)
    requires Core(s) && Held(s, k, v) && IsDeferred(s, k, v) && s.entries[v].pin == 1
    requires InDefer(s, v) && !InTable(s, v)
    ensures var t := ReleaseDeferred(s, k, v);
            TableOk(t) && RingsOk(t) && Partitioned(t)
    ensures forall u {:trigger InTable(ReleaseDeferred(s, k, v), u)} ::
              InTable(ReleaseDeferred(s, k, v), u) <==> InTable(s, u)
  {
    CoreParts(s);
    hide Core, OrderOk, Sorted, Counted, NullUnused, RingsOk, Detach;
    var t := ReleaseDeferred(s, k, v);
    DetachKeepsRings(s, t, k, v);
    hide InDefer, IsDeferred;
    forall u ensures InTable(t, u) <==> InTable(s, u) { }
  }

  lemma ReleaseDeferredCounts(s: State, k: Key, v: Value)
    requires Core(s) && Held(s, k, v) && IsDeferred(s, k, v) && s.entries[v].pin == 1
    requires forall u :: InTable(ReleaseDeferred(s, k, v), u) <==> InTable(s, u)
    requires !InTable(s, v)
    ensures Counted(ReleaseDeferred(s, k, v)) && OrderOk(ReleaseDeferred(s, k, v))
    ensures Sorted(ReleaseDeferred(s, k, v)) && NullUnused(ReleaseDeferred(s, k, v))
  {
    CoreParts(s);
    var t := ReleaseDeferred(s, k, v);
    hide Core, TableOk, RingsOk, Partitioned, Detach;
    SumRemove(s.entries, s.entries.Keys, v);
    assert t.entries.Keys == s.entries.Keys - {v};
    SumFrame(s.entries, t.entries, t.entries.Keys);
    assert PinnedSet(t) == PinnedSet(s);
    SumFrame(s.entries, t.entries, PinnedSet(t));
    forall u ensures u in t.order <==> Listed(t, u) {
      assert u in s.order <==> Listed(s, u);
    }
  }

  lemma UnpinDeferredKeeps(s: State, k: Key, v: Value)
    requires Core(s) && Held(s, k, v) && IsDeferred(s, k, v) && s.entries[v].pin > 1
    ensures Core(ReleaseDeferred(s, k, v))
  {
    CoreParts(s);
    hide Core, TableOk, RingsOk, Sorted, Sum, Detach;
    var t := ReleaseDeferred(s, k, v);
    assert InDefer(s, v) && !InTable(s, v);
    ReenterKeepsPlaces(s, t, v);
    assert v !in s.order && !Listed(t, v);
    ReenterKeepsOrder(s, t, v);
    SumUpdate(s.entries, s.entries.Keys, v, t.entries[v]);
    SumUpdate(s.entries, PinnedSet(s), v, t.entries[v]);
    assert t.entries == s.entries[v := t.entries[v]] && t.entries.Keys == s.entries.Keys;
    assert PinnedSet(t) == PinnedSet(s);
    hide OrderOk, Partitioned;
    CoreIntro(t);
  }

  lemma ReleaseDeferredKeeps(s: State, k: Key, v: Value)
    requires Inv(s) && Held(s, k, v) && IsDeferred(s, k, v)
    ensures Inv(ReleaseDeferred(s, k, v))
  {
    hide Core, Sum, Detach;
    var t := ReleaseDeferred(s, k, v);
    NotInTable(s, k, v);
    if s.entries[v].pin > 1 {
      UnpinDeferredKeeps(s, k, v);
    } else {
      ReleaseDeferredPlaces(s, k, v);
      ReleaseDeferredCounts(s, k, v);
      hide TableOk, RingsOk, Partitioned, OrderOk, Sorted, Counted, NullUnused;
      CoreIntro(t);
    }
    forall j | j in t.table ensures t.table[j] in s.entries && t.table[j] != v {
      TableEntry(s, j);
    }
  }

  lemma NotInTable(s: State, k: Key, v: Value)
    requires Core(s) && Held(s, k, v) && IsDeferred(s, k, v)
    ensures InDefer(s, v) && !InTable(s, v)
  {
    assert InDefer(s, v);
  }

  lemma HeldInTable(s: State, k: Key, v: Value)
    requires Core(s) && Held(s, k, v) && !IsDeferred(s, k, v)
    ensures InTable(s, v) && k in s.table && s.table[k] == v
  {
    assert !InDefer(s, v);
    assert InTable(s, v) != InDefer(s, v);
  }

  /** ReleaseListed up to the question whether the cache is too big. */
  function Unpin(s: State, v: Value, now: int): State
    requires v in s.entries && s.entries[v].pin > 0
  {
    var e := s.entries[v];
    var e1 := e.(pin := e.pin - 1, lastUse := if s.lru then now else e.lastUse);
    var s1 := s.(entries := s.entries[v := e1]);
    if e.pin > 1 then s1
    else s1.(order := if s.lru then [v] + s1.order else s1.order,
             pinnedUnits := s1.pinnedUnits - e.units)
  }

  lemma UnpinKeepsOrder(s: State, v: Value, now: int)
    requires Core(s) && InTable(s, v) && s.entries[v].pin > 0 && Recent(s, now)
    requires forall u :: InTable(Unpin(s, v, now), u) <==> InTable(s, u)
    ensures OrderOk(Unpin(s, v, now)) && Sorted(Unpin(s, v, now))
  {
    OrderListed(s);
    hide Core, Sorted;
    var t := Unpin(s, v, now);
    assert v in s.order <==> Listed(s, v);
    if s.entries[v].pin == 1 && s.lru {
      forall u ensures u in t.order <==> Listed(t, u) {
        assert u in s.order <==> Listed(s, u);
      }
      UnpinSorts(s, v, now);
    } else {
      assert t.order == s.order;
      ReenterKeepsOrder(s, t, v);
    }
  }

  lemma UnpinSorts(s: State, v: Value, now: int)
    requires v in s.entries && s.entries[v].pin == 1 && s.lru && v !in s.order
    requires Sorted(s) && Recent(s, now)
    requires forall u :: u in s.order ==> u in s.entries
    ensures Sorted(Unpin(s, v, now))
  {
    var t := Unpin(s, v, now);
    forall i, j | 0 <= i < j < |t.order| && t.order[i] in t.entries && t.order[j] in t.entries
      ensures t.entries[t.order[i]].lastUse >= t.entries[t.order[j]].lastUse
    {
      assert t.order[j] == s.order[j - 1] && s.order[j - 1] in s.order;
      if i > 0 {
        assert t.order[i] == s.order[i - 1] && s.order[i - 1] in s.order;
      }
    }
  }

  lemma PinnedAfterUnpin(s: State, v: Value, now: int)
    requires v in s.entries && InTable(s, v) && s.entries[v].pin > 0
    requires forall u :: InTable(Unpin(s, v, now), u) <==> InTable(s, u)
    ensures var t := Unpin(s, v, now);
            && v in PinnedSet(s) && PinnedSet(t) == (if s.entries[v].pin == 1 then PinnedSet(s) - {v} else PinnedSet(s))
            && v in t.entries && t.entries == s.entries[v := t.entries[v]]
            && t.entries[v].units == s.entries[v].units && t.units == s.units
            && t.pinnedUnits == s.pinnedUnits - if s.entries[v].pin == 1 then s.entries[v].units else 0
  {
    hide InTable;
    var t := Unpin(s, v, now);
    forall u ensures u in PinnedSet(t) <==> u in PinnedSet(s) && (u != v || s.entries[v].pin > 1) { }
  }

  lemma UnpinKeepsCounts(s: State, v: Value, now: int)
    requires Core(s) && InTable(s, v) && v in s.entries && s.entries[v].pin > 0
    requires forall u :: InTable(Unpin(s, v, now), u) <==> InTable(s, u)
    ensures Counted(Unpin(s, v, now))
  {
    hide Core, TableOk, RingsOk, Partitioned, OrderOk, Sorted, PinnedSet, InTable, Unpin;
    CoreParts(s);
    PinnedAfterUnpin(s, v, now);
    PinnedEntries(s);
    var t := Unpin(s, v, now);
    SumUpdate(s.entries, s.entries.Keys, v, t.entries[v]);
    assert t.entries.Keys == s.entries.Keys;
    if s.entries[v].pin == 1 {
      SumRemove(s.entries, PinnedSet(s), v);
      SumFrame(s.entries, t.entries, PinnedSet(t));
    } else {
      SumUpdate(s.entries, PinnedSet(s), v, t.entries[v]);
    }
  }

  lemma UnpinKeeps(s: State, v: Value, now: int)
    requires Core(s) && InTable(s, v) && s.entries[v].pin > 0 && Recent(s, now)
    ensures Core(Unpin(s, v, now)) && Recent(Unpin(s, v, now), now)
  {
    CoreParts(s);
    hide Core, TableOk, RingsOk, Partitioned, OrderOk, Sorted, Counted;
    var t := Unpin(s, v, now);
    ReenterKeepsPlaces(s, t, v);
    UnpinKeepsOrder(s, v, now);
    UnpinKeepsCounts(s, v, now);
    CoreIntro(t);
  }

  lemma ReleaseListedIs(s: State, k: Key, v: Value, now: int)
    requires Core(s) && Held(s, k, v) && !IsDeferred(s, k, v)
    ensures var t := Unpin(s, v, now);
            ReleaseListed(s, k, v, now) ==
              if s.entries[v].pin == 1 && t.units > t.maxUnits then Remove(t, k) else t
  {
    hide Core, Remove;
  }

  lemma ReleaseListedKeeps(s: State, k: Key, v: Value, now: int)
    requires Inv(s) && Held(s, k, v) && !IsDeferred(s, k, v) && Recent(s, now)
    ensures Inv(ReleaseListed(s, k, v, now))
    ensures var t := Unpin(s, v, now);
            && Evolves(t, ReleaseListed(s, k, v, now))
            && Core(t) && Recent(t, now)
  {
    hide Core, Remove, Evolves, ReleaseListed;
    var t := Unpin(s, v, now);
    var u := ReleaseListed(s, k, v, now);
    HeldInTable(s, k, v);
    UnpinKeeps(s, v, now);
    ReleaseListedIs(s, k, v, now);
    RemoveKeeps(t, k);
    EvolvesReflexive(t);
    EvolvesFacts(t, u);
    if u.units > u.maxUnits {
      EvolvesShrinks(t, u);
      forall j | j in u.table && u.table[j] in u.entries ensures u.entries[u.table[j]].pin > 0 {
        assert t.table[j] == u.table[j];
        TableEntry(s, j);
      }
    }
  }

  lemma EvolvesShrinks(s: State, t: State)
    requires Evolves(s, t)
    ensures t.units <= s.units
  {
  }

  // ----- InsertPinned

  /** An address a client may insert: not nullptr, and no value is live at it. */
  ghost predicate Fresh(s: State, v: Value) {
    v != NULLPTR && v !in s.entries
  }

  lemma AddPlaces(s: State, k: Key, v: Value, units: nat, now: int)
    requires TableOk(s) && RingsOk(s) && Partitioned(s) && k !in s.table && Fresh(s, v)
    ensures var t := AddPinned(s, k, v, units, now);
            TableOk(t) && RingsOk(t) && Partitioned(t)
    ensures forall u {:trigger InTable(AddPinned(s, k, v, units, now), u)} ::
              InTable(AddPinned(s, k, v, units, now), u) <==> InTable(s, u) || u == v
  {
    var t := AddPinned(s, k, v, units, now);
    forall u ensures InTable(t, u) <==> InTable(s, u) || u == v {
      if u in s.entries && s.entries[u].key in s.table {
        assert s.table[s.entries[u].key] in s.entries;
      }
    }
    forall j, u | j in s.defer && u in s.defer[j] ensures u != v {
      assert u in s.entries;
    }
    forall u | u in t.entries && u != v ensures InDefer(t, u) <==> InDefer(s, u) {
      assert t.entries[u] == s.entries[u];
    }
    assert !InDefer(t, v);
  }

  lemma AddOrder(s: State, k: Key, v: Value, units: nat, now: int)
    requires OrderOk(s) && Sorted(s) && Recent(s, now) && Fresh(s, v)
    requires forall u :: InTable(AddPinned(s, k, v, units, now), u) <==> InTable(s, u) || u == v
    ensures OrderOk(AddPinned(s, k, v, units, now)) && Sorted(AddPinned(s, k, v, units, now))
  {
    var t := AddPinned(s, k, v, units, now);
    assert v !in s.order by { assert !Listed(s, v); }
    forall u ensures u in t.order <==> Listed(t, u) {
      assert u in s.order <==> Listed(s, u);
      if u != v {
        assert Listed(t, u) <==> Listed(s, u);
      }
    }
    forall i, j | 0 <= i < j < |t.order| && t.order[i] in t.entries && t.order[j] in t.entries
      ensures t.entries[t.order[i]].lastUse >= t.entries[t.order[j]].lastUse
    {
      assert t.order[j] in t.order && t.order[i] in t.order;
      if !s.lru {
        assert t.order[j] == s.order[j - 1] && s.order[j - 1] in s.order;
        if i > 0 {
          assert t.order[i] == s.order[i - 1] && s.order[i - 1] in s.order;
        }
      } else {
        assert t.order[i] != v && t.order[j] != v;
      }
    }
  }

  lemma AddCounts(s: State, k: Key, v: Value, units: nat, now: int)
    requires Counted(s) && Fresh(s, v)
    requires forall u :: InTable(AddPinned(s, k, v, units, now), u) <==> InTable(s, u) || u == v
    ensures Counted(AddPinned(s, k, v, units, now))
  {
    var t := AddPinned(s, k, v, units, now);
    assert t.entries.Keys == s.entries.Keys + {v};
    SumInsert(t.entries, s.entries.Keys, v);
    SumFrame(s.entries, t.entries, s.entries.Keys);
    assert PinnedSet(t) == PinnedSet(s) + {v};
    SumInsert(t.entries, PinnedSet(s), v);
    SumFrame(s.entries, t.entries, PinnedSet(s));
  }

  lemma AddKeeps(s: State, k: Key, v: Value, units: nat, now: int)
    requires Core(s) && k !in s.table && Fresh(s, v) && Recent(s, now)
    ensures Core(AddPinned(s, k, v, units, now))
  {
    CoreParts(s);
    hide Core, TableOk, RingsOk, Partitioned, OrderOk, Sorted, Counted, Recent;
    var t := AddPinned(s, k, v, units, now);
    AddPlaces(s, k, v, units, now);
    AddOrder(s, k, v, units, now);
    AddCounts(s, k, v, units, now);
    CoreIntro(t);
  }

  lemma RemoveKeepsFresh(s: State, k: Key, v: Value)
    requires Core(s) && Fresh(s, v)
    ensures Fresh(Remove(s, k), v)
  {
    RemoveKeeps(s, k);
    hide Core, Remove;
    EvolvesFacts(s, Remove(s, k));
  }

  /** The new entry is found under its key; every other key keeps its value or loses it. */
  lemma InsertKeeps(s: State, k: Key, v: Value, units: nat, now: int)
    requires Inv(s) && Fresh(s, v) && Recent(s, now)
    ensures var t := InsertPinned(s, k, v, units, now);
            var u := AddPinned(Remove(s, k), k, v, units, now);
            && Inv(t) && InTable(t, v)
            && k in t.table && t.table[k] == v
            && Core(u) && Evolves(u, t) && Evolves(s, Remove(s, k))
            && (forall j :: j in t.table && j != k ==> j in s.table && t.table[j] == s.table[j])
  {
    hide Core, Evolves, Fits, Remove, GarbageCollect;
    var s1 := Remove(s, k);
    RemoveKeeps(s, k);
    RemoveKeepsFresh(s, k, v);
    EvolvesKeepsRecent(s, s1, now);
    EvolvesFacts(s, s1);
    AddKeeps(s1, k, v, units, now);
    var u := AddPinned(s1, k, v, units, now);
    var t := GarbageCollect(u);
    CollectKeeps(u);
    EvolvesFacts(u, t);
    PinnedSurvives(u, t, v);
  }

  lemma PinnedSurvives(s: State, t: State, v: Value)
    requires Core(s) && Core(t) && Evolves(s, t) && t == GarbageCollect(s)
    requires InTable(s, v) && s.entries[v].pin > 0
    ensures InTable(t, v)
  {
    var n := CollectsShortestTail(s);
    CoreParts(s);
    CoreParts(t);
    EvolvesFacts(s, t);
    hide Core, Evolves, TableOk, RingsOk, OrderOk, Sorted, Counted, NullUnused, GarbageCollect;
    assert v in t.entries && t.defer == s.defer;
    assert InDefer(t, v) == InDefer(s, v);
    assert InTable(s, v) != InDefer(s, v);
  }

  // ----- UpdateSize

  lemma ResizeKeepsCounts(s: State, t: State, v: Value)
    requires Core(s) && Reentered(s, t, v) && t.entries[v].pin == s.entries[v].pin
    requires forall u :: InTable(t, u) <==> InTable(s, u)
    requires t.units == s.units - s.entries[v].units + t.entries[v].units
    requires t.pinnedUnits == (if v in PinnedSet(s)
                               then s.pinnedUnits - s.entries[v].units + t.entries[v].units
                               else s.pinnedUnits)
    ensures Counted(t)
  {
    CoreParts(s);
    hide Core, TableOk, RingsOk, Partitioned, OrderOk, Sorted;
    SumUpdate(s.entries, s.entries.Keys, v, t.entries[v]);
    SumUpdate(s.entries, PinnedSet(s), v, t.entries[v]);
    assert t.entries.Keys == s.entries.Keys;
    assert PinnedSet(t) == PinnedSet(s);
  }

  lemma ResizeKeepsRest(s: State, t: State, v: Value)
    requires Core(s) && Reentered(s, t, v) && t.order == s.order
    requires t.entries[v] == s.entries[v].(units := t.entries[v].units)
    requires t.units == s.units - s.entries[v].units + t.entries[v].units
    requires t.pinnedUnits == (if v in PinnedSet(s)
                               then s.pinnedUnits - s.entries[v].units + t.entries[v].units
                               else s.pinnedUnits)
    requires InTable(s, v) || s.entries[v].pin > 0
    ensures Core(t)
    ensures forall u {:trigger InTable(t, u)} :: InTable(t, u) <==> InTable(s, u)
    ensures forall u {:trigger InDefer(t, u)} :: InDefer(t, u) <==> InDefer(s, u)
  {
    CoreParts(s);
    hide Core, TableOk, RingsOk, Partitioned, Sorted, Counted;
    ReenterKeepsPlaces(s, t, v);
    assert v in s.order <==> Listed(s, v);
    ReenterKeepsOrder(s, t, v);
    ResizeKeepsCounts(s, t, v);
    hide OrderOk, PinnedSet;
    CoreIntro(t);
  }

  lemma ResizeListedKeeps(s: State, v: Value, units: nat)
    requires Core(s) && InTable(s, v)
    ensures Core(ResizeListed(s, v, units))
  {
    hide Core;
    ResizeKeepsRest(s, ResizeListed(s, v, units), v);
  }

  lemma ResizeDeferredKeeps(s: State, w: Value, v: Value, units: nat)
    requires Core(s) && InDefer(s, w)
    ensures Core(ResizeDeferred(s, w, v, units))
    ensures forall u {:trigger InDefer(ResizeDeferred(s, w, v, units), u)} ::
              InDefer(ResizeDeferred(s, w, v, units), u) <==> InDefer(s, u)
  {
    DeferredEntry(s, w);
    hide Core, InDefer, InTable;
    if w == v || v == NULLPTR {
      ResizeKeepsRest(s, ResizeDeferred(s, w, v, units), w);
    }
  }

  lemma DeferredEntry(s: State, w: Value)
    requires Core(s) && InDefer(s, w)
    ensures w in s.entries && s.entries[w].pin > 0 && !InTable(s, w) && w !in PinnedSet(s)
  {
    CoreParts(s);
    hide Core, TableOk, OrderOk, Sorted, Counted, NullUnused;
  }

  /** t differs from s in the sizes of elements only. */
  ghost predicate Resized(s: State, t: State) {
    && t.entries.Keys == s.entries.Keys
    && (forall v {:trigger t.entries[v]} :: v in t.entries ==>
          t.entries[v] == s.entries[v].(units := t.entries[v].units))
    && t.table == s.table && t.defer == s.defer && t.order == s.order && t.removed == s.removed
    && t.lru == s.lru && t.maxUnits == s.maxUnits && t.maxIdle == s.maxIdle
  }

  lemma {:induction false} ResizeRingKeeps(s: State, q: seq<Value>, v: Value, units: nat)
    requires Core(s)
    requires forall w :: w in q ==> InDefer(s, w)
    ensures Core(ResizeRing(s, q, v, units))
    ensures Resized(s, ResizeRing(s, q, v, units))
    ensures forall u {:trigger InDefer(ResizeRing(s, q, v, units), u)} ::
              InDefer(ResizeRing(s, q, v, units), u) <==> InDefer(s, u)
    ensures forall w :: w in q && (v == NULLPTR || v == w) ==>
              w in s.entries && ResizeRing(s, q, v, units).entries[w].units == units
    ensures forall w :: w in s.entries && !(w in q && (v == NULLPTR || v == w)) ==>
              ResizeRing(s, q, v, units).entries[w] == s.entries[w]
    decreases |q|
  {
    hide Core, InDefer;
    if q != [] {
      ResizeRingKeeps(s, q[1..], v, units);
      var t := ResizeRing(s, q[1..], v, units);
      assert q[0] in q;
      ResizeDeferredKeeps(t, q[0], v, units);
      DeferredEntry(s, q[0]);
    }
  }

  lemma ResizeOneRing(s: State, k: Key, v: Value, units: nat)
    requires Core(s) && k in s.defer
    requires !(k in s.table && s.table[k] in s.entries && (v == NULLPTR || v == s.table[k]))
    ensures s.defer[k] != []
    ensures Core(Resize(s, k, v, units)) && Resized(s, Resize(s, k, v, units))
    ensures forall w :: w in s.entries ==>
              Resize(s, k, v, units).entries[w].units ==
              if w in s.defer[k] && (v == NULLPTR || v == w) then units else s.entries[w].units
  {
    hide Core, InDefer, ResizeRing, ResizeDeferred;
    RingEntries(s, k);
    var r := s.defer[k];
    var s1 := ResizeDeferred(s, r[0], v, units);
    ResizeDeferredKeeps(s, r[0], v, units);
    ResizeDeferredSizes(s, r[0], v, units);
    forall w | w in r[1..] ensures InDefer(s1, w) {
      assert w in r && InDefer(s, w);
    }
    ResizeRingKeeps(s1, r[1..], v, units);
    assert forall w :: w in r <==> w == r[0] || w in r[1..];
    assert r[0] in s.entries && r[0] !in r[1..];
  }

  lemma ResizeDeferredSizes(s: State, w: Value, v: Value, units: nat)
    ensures var t := ResizeDeferred(s, w, v, units);
            && Resized(s, t)
            && (forall u :: u in s.entries ==>
                  t.entries[u].units ==
                  if u == w && (v == NULLPTR || v == w) then units else s.entries[u].units)
  {
  }

  lemma RingEntries(s: State, k: Key)
    requires Core(s) && k in s.defer
    ensures s.defer[k] != [] && Distinct(s.defer[k])
    ensures forall w :: w in s.defer[k] ==> w in s.entries && InDefer(s, w)
  {
    CoreParts(s);
    hide Core, TableOk, Partitioned, OrderOk, Sorted, Counted, NullUnused;
  }

  /** UpdateSize resizes the table entry of k if its value fits, and otherwise every fitting
      deferred entry of k; before GarbageCollect nothing else changes. */
  lemma ResizeKeeps(s: State, k: Key, v: Value, units: nat)
    requires Core(s)
    ensures var t := Resize(s, k, v, units);
            && Core(t) && Resized(s, t)
            && (forall w :: w in s.entries ==>
                  t.entries[w].units ==
                  if (if k in s.table && (v == NULLPTR || v == s.table[k]) then w == s.table[k]
                      else k in s.defer && w in s.defer[k] && (v == NULLPTR || v == w))
                  then units else s.entries[w].units)
  {
    hide Core;
    if k in s.table { TableEntry(s, k); }
    if k in s.table && (v == NULLPTR || v == s.table[k]) {
      ResizeListedKeeps(s, s.table[k], units);
    } else if k in s.defer {
      ResizeOneRing(s, k, v, units);
    }
  }

  lemma UpdateSizeKeeps(s: State, k: Key, v: Value, units: nat)
    requires Inv(s)
    ensures Inv(UpdateSize(s, k, v, units))
    ensures Evolves(Resize(s, k, v, units), UpdateSize(s, k, v, units))
  {
    hide Core, Fits, Evolves, GarbageCollect;
    ResizeKeeps(s, k, v, units);
    CollectKeeps(Resize(s, k, v, units));
  }
}
