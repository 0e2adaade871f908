/** What each call of the LRU cache does, told on its fields: which values leave the table, what becomes of
    them, and what is written into the entries that stay. */
module LruLaws {
  import opened LruModel
  import opened LruProofs
  import opened LruEviction
  import opened LruOperations
  import LruRuns

  /** t is s after the values of gone have left the table: those without a pin were disposed of, once, and the
      others are live without being in the table.  Nothing else has changed. */
  ghost predicate Leaves(s: State, t: State, gone: set<Value>) {
    && (forall k {:trigger k in t.table} {:trigger k in s.table} ::
          k in t.table <==> k in s.table && s.table[k] !in gone)
    && (forall k {:trigger t.table[k]} :: k in t.table ==> t.table[k] == s.table[k])
    && (forall v {:trigger v in t.entries} {:trigger v in s.entries} ::
          v in t.entries <==> v in s.entries && !(v in gone && s.entries[v].pin == 0))
    && (forall v {:trigger t.entries[v]} :: v in t.entries ==> t.entries[v] == s.entries[v])
    && (forall v {:trigger v in t.order} {:trigger v in s.order} :: v in t.order <==> v in s.order && v !in gone)
    && (forall v {:trigger t.removed[v]} {:trigger s.removed[v]} ::
          t.removed[v] == s.removed[v] + if v in s.entries && v in gone && s.entries[v].pin == 0 then 1 else 0)
    && t.maxUnits == s.maxUnits && t.maxIdle == s.maxIdle && t.lru == s.lru
  }

  lemma LeavesIntro(s: State, t: State, gone: set<Value>)
    requires Core(s) && Core(t) && Evolves(s, t)
    requires forall v :: v in gone ==> InTable(s, v)
    requires forall v :: InTable(s, v) ==> (InTable(t, v) <==> v !in gone)
    ensures Leaves(s, t, gone)
  {
    hide Core, TableOk, RingsOk, Partitioned, OrderOk, Counted, Sorted, NullUnused, InTable, Evolves, Leaves;
    CoreParts(s);
    CoreParts(t);
    LeavesTable(s, t, gone);
    LeavesEntries(s, t, gone);
    LeavesOrder(s, t, gone);
    LeavesByParts(s, t, gone);
  }

  lemma LeavesByParts(s: State, t: State, gone: set<Value>)
    requires Evolves(s, t)
    requires forall k :: k in t.table <==> k in s.table && s.table[k] !in gone
    requires forall v :: v in t.entries <==> v in s.entries && !(v in gone && s.entries[v].pin == 0)
    requires forall v :: v in t.order <==> v in s.order && v !in gone
    ensures Leaves(s, t, gone)
  {
  }

  lemma LeavesTable(s: State, t: State, gone: set<Value>)
    requires TableOk(s) && TableOk(t) && Evolves(s, t)
    requires forall v :: InTable(s, v) ==> (InTable(t, v) <==> v !in gone)
    ensures forall k :: k in t.table <==> k in s.table && s.table[k] !in gone
  {
    forall k ensures k in t.table <==> k in s.table && s.table[k] !in gone {
      if k in s.table { assert InTable(s, s.table[k]); }
      if k in t.table { assert InTable(t, t.table[k]); }
    }
  }

  lemma LeavesOrder(s: State, t: State, gone: set<Value>)
    requires OrderOk(s) && OrderOk(t) && Evolves(s, t)
    requires forall v :: InTable(s, v) ==> (InTable(t, v) <==> v !in gone)
    ensures forall v :: v in t.order <==> v in s.order && v !in gone
  {
    forall v ensures v in t.order <==> v in s.order && v !in gone {
      assert v in s.order <==> Listed(s, v);
      assert v in t.order <==> Listed(t, v);
    }
  }

  lemma LeavesEntries(s: State, t: State, gone: set<Value>)
    requires RingsOk(s) && RingsOk(t) && Partitioned(s) && Partitioned(t) && Evolves(s, t)
    requires forall v :: v in gone ==> InTable(s, v)
    requires forall v :: InTable(s, v) ==> (InTable(t, v) <==> v !in gone)
    ensures forall v :: v in t.entries <==> v in s.entries && !(v in gone && s.entries[v].pin == 0)
  {
    forall v ensures v in t.entries <==> v in s.entries && !(v in gone && s.entries[v].pin == 0) {
      if v in t.entries {
        assert InTable(t, v) != InDefer(t, v) && t.entries[v] == s.entries[v];
      } else if v in s.entries {
        assert InTable(s, v) != InDefer(s, v);
      }
    }
  }

  // ----- expiry

  /** The listed values that have been idle for more than the limit, if there is one. */
  ghost function Expired(s: State, limit: int, now: int): set<Value> {
    set v | v in s.entries && v in s.order && limit >= 0 && now - s.entries[v].lastUse > limit
  }

  lemma ExpiryIsExact(s: State, now: int)
    requires Core(s)
    ensures Leaves(s, RemoveExpired(s, now), Expired(s, s.maxIdle, now))
  {
    hide Core, Evolves, DiscardIdle;
    var t := RemoveExpired(s, now);
    if s.maxIdle >= 0 {
      DiscardIdleKeeps(s, s.maxIdle, now);
      forall v | InTable(s, v) ensures InTable(t, v) <==> v !in Expired(s, s.maxIdle, now) {
        SurvivesIdleIff(s, s.maxIdle, now, v);
      }
    } else {
      EvolvesReflexive(s);
    }
    OrderListed(s);
    LeavesIntro(s, t, Expired(s, s.maxIdle, now));
  }

  /** The entry of k is listed and has been idle for more than the limit. */
  ghost predicate IsIdle(s: State, k: Key, now: int) {
    && k in s.table && s.table[k] in s.entries && s.table[k] in s.order
    && s.maxIdle >= 0 && now - s.entries[s.table[k]].lastUse > s.maxIdle
  }

  /** Lookup finds what the table has, unless it is listed and has been idle too long. */
  lemma LookupIff(s: State, k: Key, now: int)
    requires Inv(s)
    ensures Lookup(s, k, now).1 == if k in s.table && !IsIdle(s, k, now) then s.table[k] else NULLPTR
    ensures Lookup(s, k, now).1 == NULLPTR <==> k !in s.table || IsIdle(s, k, now)
  {
    hide Core, Leaves, RemoveExpired, Pin, Lookup;
    var _ := LookupIsExact(s, k, now);
    if k in s.table {
      TableEntry(s, k);
      NotNull(s, s.table[k]);
    }
  }

  /** t is s with one pin more on v, which is no longer listed if the mode is LRU. */
  ghost predicate PinsOne(s: State, t: State, v: Value) {
    && v in s.entries
    && t.entries == s.entries[v := s.entries[v].(pin := s.entries[v].pin + 1)]
    && t.table == s.table && t.removed == s.removed && t.units == s.units
    && (forall u {:trigger u in t.order} {:trigger u in s.order} ::
          u in t.order <==> u in s.order && !(s.lru && u == v))
    && t.maxUnits == s.maxUnits && t.maxIdle == s.maxIdle && t.lru == s.lru
  }

  /** Lookup removes what has expired, and pins what it returns. */
  lemma LookupIsExact(s: State, k: Key, now: int) returns (s1: State)
    requires Inv(s)
    ensures Leaves(s, s1, Expired(s, s.maxIdle, now))
    ensures var (t, v) := Lookup(s, k, now);
            && v == (if k in s.table && s.table[k] !in Expired(s, s.maxIdle, now) then s.table[k] else NULLPTR)
            && (v == NULLPTR ==> t == s1)
            && (v != NULLPTR ==> PinsOne(s1, t, v))
  {
    s1 := RemoveExpired(s, now);
    ExpiryIsExact(s, now);
    LookupKeeps(s, k, now);
    ExpiryKeeps(s, now);
    if k in s1.table {
      TableEntry(s1, k);
      NotNull(s1, s1.table[k]);
      PinIsExact(s1, s1.table[k]);
    } else {
      NotNull(s1, NULLPTR);
    }
  }

  lemma PinIsExact(s: State, v: Value)
    requires Core(s) && InTable(s, v)
    ensures PinsOne(s, Pin(s, v), v)
  {
    OrderListed(s);
    WithoutFacts(s.order, v);
    hide Without, Core;
    assert v in s.order <==> Listed(s, v);
  }

  // ----- Remove, and the change of the timeout

  lemma RemoveIsExact(s: State, k: Key)
    requires Core(s)
    ensures Leaves(s, Remove(s, k), if k in s.table then {s.table[k]} else {})
  {
    var t := Remove(s, k);
    RemoveKeeps(s, k);
    if k in s.table {
      RemoveFromTable(s, k);
      TableEntry(s, k);
      hide Core, Evolves, Remove;
      LeavesIntro(s, t, {s.table[k]});
    } else {
      hide Core, Evolves;
      LeavesIntro(s, t, {});
    }
  }

  /** A change of the mode while a limit is set and stays is ignored, with the new limit; otherwise both are set
      and the entries that are too old by the new limit leave. */
  lemma SetTimeoutIsExact(s: State, limit: int, lru: bool, now: int)
    requires Core(s)
    ensures var t := SetTimeout(s, limit, lru, now);
            if limit >= 0 && s.maxIdle >= 0 && lru != s.lru then t == s
            else Leaves(s.(lru := lru, maxIdle := if limit < 0 then -1 else limit), t, Expired(s, limit, now))
  {
    hide Core, Evolves, LruRuns.Limited, SetTimeout;
    if limit >= 0 && s.maxIdle >= 0 && lru != s.lru {
      LruRuns.IgnoredTimeout(s, limit, lru, now);
    } else {
      LruRuns.SetTimeoutIsLimited(s, limit, lru, now);
      LimitedIsExact(s, limit, now);
      LeavesInMode(s.(maxIdle := if limit < 0 then -1 else limit), LruRuns.Limited(s, limit, now),
                   Expired(s, limit, now), lru);
    }
  }

  lemma LimitedIsExact(s: State, limit: int, now: int)
    requires Core(s)
    ensures Leaves(s.(maxIdle := if limit < 0 then -1 else limit), LruRuns.Limited(s, limit, now),
                   Expired(s, limit, now))
  {
    hide Core, Evolves, LruRuns.Limited;
    var u := s.(maxIdle := if limit < 0 then -1 else limit);
    LruRuns.LimitedKeeps(s, limit, now);
    LruRuns.ReconfigureKeeps(s, u);
    OrderListed(s);
    forall v | InTable(u, v) ensures InTable(LruRuns.Limited(s, limit, now), v) <==> v !in Expired(s, limit, now) {
      LruRuns.LimitedInTable(s, limit, now, v);
    }
    LeavesIntro(u, LruRuns.Limited(s, limit, now), Expired(s, limit, now));
  }

  lemma LeavesInMode(s: State, t: State, gone: set<Value>, lru: bool)
    requires Leaves(s, t, gone)
    ensures Leaves(s.(lru := lru), t.(lru := lru), gone)
  {
  }

  // ----- the three calls that empty the table

  lemma RemoveUnpinnedLeaves(s: State)
    requires Core(s)
    ensures Leaves(s, RemoveUnpinned(s), UnpinnedValues(s))
  {
    hide Core, Evolves, RemoveUnpinned;
    var t := RemoveUnpinned(s);
    RemoveUnpinnedIsExact(s);
    forall k | k in s.table ensures InTable(s, s.table[k]) && s.entries[s.table[k]].key == k { TableEntry(s, k); }
    forall k | k in t.table ensures InTable(t, t.table[k]) && t.entries[t.table[k]].key == k { TableEntry(t, k); }
    EvolvesFacts(s, t);
    LeavesIntro(s, t, UnpinnedValues(s));
  }

  lemma RemoveAllLeaves(s: State)
    requires Core(s)
    ensures Leaves(s, RemoveAll(s), s.table.Values) && RemoveAll(s).table == map[]
  {
    hide Core, Evolves, FullRings, UnpinnedValues;
    var ks := KeysOf(s.table.Keys);
    RemoveAllInAnyOrder(s, ks);
    forall k | k in s.table ensures InTable(s, s.table[k]) { TableEntry(s, k); }
    LeavesIntro(s, RemoveAll(s), s.table.Values);
  }

  lemma KeysOf(keys: set<Key>) returns (ks: seq<Key>)
    ensures forall k :: k in keys ==> k in ks
    decreases keys
  {
    ks := [];
    if keys != {} {
      var k :| k in keys;
      ks := KeysOf(keys - {k});
      ks := [k] + ks;
    }
  }

  lemma ClearLeaves(s: State)
    requires Core(s) && forall v :: v in s.entries ==> s.entries[v].pin == 0
    ensures Leaves(s, Clear(s), s.table.Values) && Clear(s).entries == map[] && Clear(s).table == map[]
    ensures Clear(s).units == 0 && Clear(s).pinnedUnits == 0 && Clear(s).order == [] && Clear(s).defer == map[]
  {
    LruRuns.NothingDeferred(s);
    CoreParts(s);
    hide Core, RingsOk, Sorted, Counted, NullUnused;
    forall v | v in s.entries ensures v in s.table.Values { assert InTable(s, v) != InDefer(s, v); }
    forall v ensures v !in s.order || v in s.table.Values { assert v in s.order <==> Listed(s, v); }
  }

  // ----- Release

  /** One pin less on v; its time of use is now if it is in the table and the mode is LRU. */
  ghost predicate Unpins(s: State, u: State, v: Value, now: int) {
    && v in s.entries && s.entries[v].pin > 0
    && u.entries == s.entries[v := s.entries[v].(pin := s.entries[v].pin - 1,
                                                 lastUse := if InTable(s, v) && s.lru then now
                                                            else s.entries[v].lastUse)]
    && u.order == (if InTable(s, v) && s.lru && s.entries[v].pin == 1 then [v] else []) + s.order
    && u.table == s.table && u.removed == s.removed && u.units == s.units
    && u.maxUnits == s.maxUnits && u.maxIdle == s.maxIdle && u.lru == s.lru
  }

  /** v, which was in no table, is disposed of. */
  ghost predicate Disposes(s: State, t: State, v: Value) {
    && v in s.entries && t.entries == s.entries - {v} && t.removed == s.removed + multiset{v}
    && t.units == s.units - s.entries[v].units && t.pinnedUnits == s.pinnedUnits
    && t.table == s.table && t.order == s.order
    && t.maxUnits == s.maxUnits && t.maxIdle == s.maxIdle && t.lru == s.lru
  }

  /** With its last pin, a value that is in the table leaves it if the cache is too big, and is disposed of then;
      one that is not in the table is disposed of. */
  lemma ReleaseIsExact(s: State, k: Key, v: Value, now: int) returns (u: State)
    requires Inv(s) && Held(s, k, v) && Recent(s, now)
    ensures Unpins(s, u, v, now)
    ensures var t := Release(s, k, v, now);
            if s.entries[v].pin > 1 then t == u
            else if InTable(s, v) then Leaves(u, t, if s.units > s.maxUnits then {v} else {})
            else Disposes(u, t, v)
  {
    if IsDeferred(s, k, v) {
      NotInTable(s, k, v);
      u := s.(entries := s.entries[v := s.entries[v].(pin := s.entries[v].pin - 1)]);
      DeferredReleaseIs(s, k, v, u, now);
    } else {
      HeldInTable(s, k, v);
      u := Unpin(s, v, now);
      ListedReleaseIs(s, k, v, u, now);
    }
  }

  lemma DeferredReleaseIs(s: State, k: Key, v: Value, u: State, now: int)
    requires Held(s, k, v) && IsDeferred(s, k, v) && !InTable(s, v)
    requires u == s.(entries := s.entries[v := s.entries[v].(pin := s.entries[v].pin - 1)])
    ensures Unpins(s, u, v, now)
    ensures var t := Release(s, k, v, now);
            if s.entries[v].pin > 1 then t == u else Disposes(u, t, v)
  {
    hide Detach, InTable;
    var none: seq<Value> := [];
    assert none + s.order == s.order;
  }

  lemma ListedReleaseIs(s: State, k: Key, v: Value, u: State, now: int)
    requires Inv(s) && Held(s, k, v) && !IsDeferred(s, k, v) && InTable(s, v) && Recent(s, now)
    requires k in s.table && s.table[k] == v && u == Unpin(s, v, now)
    ensures Unpins(s, u, v, now)
    ensures var t := Release(s, k, v, now);
            if s.entries[v].pin > 1 then t == u else Leaves(u, t, if s.units > s.maxUnits then {v} else {})
  {
    hide Core, Leaves, Remove, Evolves, ReleaseListed;
    var none: seq<Value> := [];
    assert none + s.order == s.order;
    UnpinKeeps(s, v, now);
    ReleaseListedIs(s, k, v, now);
    RemoveIsExact(u, k);
    NothingLeaves(u);
  }

  lemma NothingLeaves(s: State)
    ensures Leaves(s, s, {})
  {
  }

  // ----- the calls that may make the cache too big

  /** t is s after the unpinned values from position n of the recency list on have left: none if s fits, no more
      than are needed to make it fit otherwise, and all if that is not enough. */
  ghost predicate Trims(s: State, t: State, n: nat) {
    && n <= |s.order|
    && Leaves(s, t, Victims(s, n))
    && Victims(s, n) <= s.entries.Keys && t.units == s.units - Sum(s.entries, Victims(s, n))
    && (s.units <= s.maxUnits ==> n == |s.order|)
    && (n > 0 ==> t.units <= s.maxUnits)
    && (forall m :: n < m <= |s.order| ==>
          Victims(s, m) <= s.entries.Keys && s.units - Sum(s.entries, Victims(s, m)) > s.maxUnits)
  }

  lemma CollectIsExact(s: State) returns (n: nat)
    requires Core(s)
    ensures Trims(s, GarbageCollect(s), n)
  {
    hide Core, Evolves, GarbageCollect;
    var t := GarbageCollect(s);
    n := CollectsShortestTail(s);
    OrderListed(s);
    if n < |s.order| {
      assert Victims(s, |s.order|) == {};
      assert s.units - Sum(s.entries, Victims(s, |s.order|)) > s.maxUnits;
    }
    EvictedInTable(s, t, n);
    LeavesIntro(s, t, Victims(s, n));
  }

  lemma EvictedInTable(s: State, t: State, n: nat)
    requires Core(s) && EvictedDownTo(s, t, n)
    ensures forall v :: v in Victims(s, n) ==> InTable(s, v)
    ensures forall v :: InTable(s, v) ==> (InTable(t, v) <==> v !in Victims(s, n))
  {
    CoreParts(s);
    CoreParts(t);
    hide Core, Counted, Sorted, NullUnused, TableOk, RingsOk;
    forall v | v in Victims(s, n) ensures InTable(s, v) {
      assert v in s.order && Listed(s, v);
    }
    forall v | InTable(s, v) ensures InTable(t, v) <==> v !in Victims(s, n) {
      if v !in Victims(s, n) {
        assert v in t.entries && t.entries[v] == s.entries[v];
        assert InDefer(t, v) == InDefer(s, v);
      }
    }
  }

  lemma SetMaxSizeIsExact(s: State, totalUnits: int) returns (n: nat)
    requires Core(s)
    ensures Trims(s.(maxUnits := totalUnits), SetMaxSize(s, totalUnits), n)
  {
    hide Core, Trims, GarbageCollect;
    LruRuns.ReconfigureKeeps(s, s.(maxUnits := totalUnits));
    n := CollectIsExact(s.(maxUnits := totalUnits));
  }

  /** u is s with v as the new entry of k: pinned once, used now, and listed first if the mode is by age. */
  ghost predicate Enters(s: State, u: State, k: Key, v: Value, units: nat, now: int) {
    && k !in s.table && v !in s.entries
    && u.table == s.table[k := v] && u.entries == s.entries[v := Entry(k, 1, units, now)]
    && u.order == (if s.lru then [] else [v]) + s.order
    && u.units == s.units + units && u.removed == s.removed && u.defer == s.defer
    && u.maxUnits == s.maxUnits && u.maxIdle == s.maxIdle && u.lru == s.lru
  }

  /** The old entry of the key leaves, the new one enters, and then what is too much leaves. */
  lemma InsertIsExact(s: State, k: Key, v: Value, units: nat, now: int) returns (s1: State, u: State, n: nat)
    requires Inv(s) && Fresh(s, v) && Recent(s, now)
    ensures Core(u)
    ensures Leaves(s, s1, if k in s.table then {s.table[k]} else {}) && Enters(s1, u, k, v, units, now)
    ensures Trims(u, InsertPinned(s, k, v, units, now), n)
  {
    hide Core, Trims, GarbageCollect, Evolves, AddPinned, Leaves, Enters, Remove;
    s1 := Remove(s, k);
    u := AddPinned(s1, k, v, units, now);
    RemoveIsExact(s, k);
    RemoveKeeps(s, k);
    RemoveKeepsFresh(s, k, v);
    InsertKeeps(s, k, v, units, now);
    AddEnters(s1, k, v, units, now);
    n := CollectIsExact(u);
  }

  lemma AddEnters(s: State, k: Key, v: Value, units: nat, now: int)
    requires k !in s.table && v !in s.entries
    ensures Enters(s, AddPinned(s, k, v, units, now), k, v, units, now)
  {
    var none: seq<Value> := [];
    assert none + s.order == s.order;
  }

  /** All fitting sizes are set: that of the table entry if it is meant, or those on the ring; then eviction. */
  lemma UpdateSizeIsExact(s: State, k: Key, v: Value, units: nat) returns (u: State, n: nat)
    requires Core(s)
    ensures Core(u) && Resized(s, u) && Trims(u, UpdateSize(s, k, v, units), n)
    ensures forall w :: w in s.entries ==>
              u.entries[w].units ==
              if s.entries[w].key == k && (v == NULLPTR || v == w)
                 && (k in s.table && (v == NULLPTR || v == s.table[k]) ==> w == s.table[k])
              then units else s.entries[w].units
  {
    hide Core, Trims, GarbageCollect, Resize;
    u := Resize(s, k, v, units);
    ResizeKeeps(s, k, v, units);
    LivePlaces(s, k);
    n := CollectIsExact(u);
  }

  /** After the last pin of a new entry was released, and it was not dropped for its size, it is found as long as
      it has not been idle too long: since its release, or in age mode since its insertion. */
  lemma FoundUntilIdle(s: State, k: Key, v: Value, units: nat, inserted: int, released: int, now: int)
    requires Inv(s) && Fresh(s, v) && Recent(s, inserted) && inserted <= released <= now && s.maxIdle >= 0
    requires InsertPinned(s, k, v, units, inserted).units <= s.maxUnits
    ensures Held(InsertPinned(s, k, v, units, inserted), k, v)
    ensures Lookup(Insert(s, k, v, units, inserted, released), k, now).1 ==
            if now - (if s.lru then released else inserted) <= s.maxIdle then v else NULLPTR
  {
    hide Inv, Recent, Leaves, Release, Lookup, InsertPinned, InTable;
    var t := InsertPinned(s, k, v, units, inserted);
    InsertedEntry(s, k, v, units, inserted, released);
    ReleasedEntry(t, k, v, released);
    LookupIff(Release(t, k, v, released), k, now);
  }

  lemma InsertedEntry(s: State, k: Key, v: Value, units: nat, inserted: int, released: int)
    requires Inv(s) && Fresh(s, v) && Recent(s, inserted) && inserted <= released
    ensures var t := InsertPinned(s, k, v, units, inserted);
            && Inv(t) && InTable(t, v) && Recent(t, released) && k in t.table && t.table[k] == v
            && v in t.entries && t.entries[v] == Entry(k, 1, units, inserted)
            && t.maxUnits == s.maxUnits && t.maxIdle == s.maxIdle && t.lru == s.lru
  {
    hide Inv, InsertPinned, Victims, InTable;
    InsertKeeps(s, k, v, units, inserted);
    var s1, u, n := InsertIsExact(s, k, v, units, inserted);
  }

  lemma ReleasedEntry(s: State, k: Key, v: Value, now: int)
    requires Inv(s) && InTable(s, v) && Recent(s, now) && k in s.table && s.table[k] == v && s.units <= s.maxUnits
    requires v in s.entries && s.entries[v].key == k && s.entries[v].pin == 1
    ensures Held(s, k, v)
    ensures var t := Release(s, k, v, now);
            && Inv(t) && v in t.order && k in t.table && t.table[k] == v && v in t.entries
            && t.entries[v].lastUse == (if s.lru then now else s.entries[v].lastUse)
            && t.maxIdle == s.maxIdle
  {
    hide Core, ReleaseListed, ReleaseDeferred, Evolves, Fits;
    var u := ReleaseIsExact(s, k, v, now);
    NotDeferred(s, k);
    ReleaseListedKeeps(s, k, v, now);
    var t := Release(s, k, v, now);
    OrderListed(t);
    assert Listed(t, v);
  }
}
