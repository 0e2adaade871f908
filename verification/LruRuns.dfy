/** Whole runs of the LRU cache.  The client's own book-keeping (which values it inserted,
    under which key, and how many pins it still owes) is kept next to the cache; every
    run of calls that the book-keeping permits keeps the two in agreement. */
module LruRuns {
  import opened LruModel
  import opened LruProofs
  import opened LruEviction
  import opened LruOperations

  datatype Op =
    | OpLookup(k: Key, now: int)
    | OpRelease(k: Key, v: Value, now: int)
    | OpInsertPinned(k: Key, v: Value, units: nat, now: int)
    | OpUpdateSize(k: Key, v: Value, units: nat)
    | OpRemove(k: Key)
    | OpRemoveAll
    | OpRemoveUnpinned
    | OpRemoveExpired(now: int)
    | OpSetMaxSize(totalUnits: int)
    | OpSetTimeout(limit: int, lru: bool, now: int)
    | OpClear

  /** inserted: how often each address was inserted; pins: the outstanding pins of the value last inserted at
      an address; keys: the key it went under; latest: the value last inserted under each key, unless the key
      was removed since. */
  datatype Client = Client(inserted: multiset<Value>, pins: map<Value, nat>, keys: map<Value, Key>,
                           latest: map<Key, Value>, now: int)

  /** What the cache's comments ask of a caller, read off the client's own books and the calls of
      RemoveElement: an address may be inserted again once its earlier value was disposed of.  Only a change
      of the mode needs to know what is in the table. */
  ghost predicate Legal(c: Client, s: State, op: Op) {
    match op
    case OpLookup(_, now) => c.now <= now
    case OpRelease(k, v, now) =>
      c.now <= now && v in c.pins && c.pins[v] > 0 && v in c.keys && c.keys[v] == k
    case OpInsertPinned(_, v, _, now) => c.now <= now && v != NULLPTR && c.inserted[v] == s.removed[v]
    case OpRemoveExpired(now) => c.now <= now
    case OpSetTimeout(limit, lru, now) => c.now <= now && ModeFits(s, limit, lru, now)
    case OpClear => forall v :: v in c.pins ==> c.pins[v] == 0
    case _ => true
  }

  ghost function Step(s: State, op: Op): State
    requires op.OpRelease? ==> Held(s, op.k, op.v)
  {
    match op
    case OpLookup(k, now) => Lookup(s, k, now).0
    case OpRelease(k, v, now) => Release(s, k, v, now)
    case OpInsertPinned(k, v, units, now) => InsertPinned(s, k, v, units, now)
    case OpUpdateSize(k, v, units) => UpdateSize(s, k, v, units)
    case OpRemove(k) => Remove(s, k)
    case OpRemoveAll => RemoveAll(s)
    case OpRemoveUnpinned => RemoveUnpinned(s)
    case OpRemoveExpired(now) => RemoveExpired(s, now)
    case OpSetMaxSize(n) => SetMaxSize(s, n)
    case OpSetTimeout(limit, lru, now) => SetTimeout(s, limit, lru, now)
    case OpClear => Clear(s)
  }

  /** The client's books after a call, given what the call returned. */
  ghost function Book(c: Client, s: State, op: Op): Client {
    match op
    case OpLookup(k, now) =>
      var v := Lookup(s, k, now).1;
      c.(pins := if v != NULLPTR && v in c.pins then c.pins[v := c.pins[v] + 1] else c.pins, now := now)
    case OpRelease(k, v, now) =>
      c.(pins := if v in c.pins && c.pins[v] > 0 then c.pins[v := c.pins[v] - 1] else c.pins, now := now)
    case OpInsertPinned(k, v, units, now) =>
      Client(c.inserted + multiset{v}, c.pins[v := 1], c.keys[v := k], c.latest[k := v], now)
    case OpRemove(k) => c.(latest := c.latest - {k})
    case OpRemoveAll => c.(latest := map[])
    case OpClear => c.(latest := map[])
    case OpRemoveExpired(now) => c.(now := now)
    case OpSetTimeout(_, _, now) => c.(now := now)
    case _ => c
  }

  ghost predicate BooksAgree(c: Client, s: State) {
    && (forall v {:trigger c.inserted[v]} {:trigger v in s.entries} {:trigger s.removed[v]} ::
          c.inserted[v] == if v in s.entries then s.removed[v] + 1 else s.removed[v])
    && (forall v {:trigger s.entries[v]} :: v in s.entries ==>
          v in c.pins && v in c.keys && s.entries[v].pin == c.pins[v] && s.entries[v].key == c.keys[v])
    && (forall v {:trigger c.pins[v]} :: v in c.pins && c.pins[v] > 0 ==> v in s.entries)
  }

  /** The table has no value but the latest of its key. */
  ghost predicate UpToDate(latest: map<Key, Value>, table: map<Key, Value>) {
    forall k :: k in table ==> k in latest && table[k] == latest[k]
  }

  ghost predicate RunInv(c: Client, s: State) {
    Inv(s) && Recent(s, c.now) && BooksAgree(c, s)
  }

  // ----- one step

  lemma BooksEvolve(c: Client, s: State, t: State)
    requires BooksAgree(c, s) && Evolves(s, t)
    ensures BooksAgree(c, t)
  {
  }

  lemma RecentLater(s: State, now: int, later: int)
    requires Recent(s, now) && now <= later
    ensures Recent(s, later)
  {
  }

  lemma StepEvolves(c: Client, s: State, t: State, c': Client)
    requires RunInv(c, s) && Evolves(s, t) && Inv(t)
    requires c'.inserted == c.inserted && c'.pins == c.pins && c'.keys == c.keys && c.now <= c'.now
    ensures RunInv(c', t)
  {
    hide Inv, Recent, BooksAgree, Evolves;
    BooksEvolve(c, s, t);
    EvolvesKeepsRecent(s, t, c.now);
    RecentLater(t, c.now, c'.now);
    BooksOnlyPins(c, c', t);
  }

  lemma BooksOnlyPins(c: Client, d: Client, s: State)
    requires BooksAgree(c, s) && d.inserted == c.inserted && d.pins == c.pins && d.keys == c.keys
    ensures BooksAgree(d, s)
  {
  }

  lemma PinBooks(c: Client, s: State, v: Value, d: Client)
    requires BooksAgree(c, s) && v in s.entries && v in c.pins
    requires d.inserted == c.inserted && d.keys == c.keys && d.pins == c.pins[v := c.pins[v] + 1]
    ensures BooksAgree(d, Pin(s, v))
  {
  }

  lemma LookupStep(c: Client, s: State, k: Key, now: int)
    requires RunInv(c, s) && c.now <= now
    ensures RunInv(Book(c, s, OpLookup(k, now)), Lookup(s, k, now).0)
  {
    hide Inv, Recent, BooksAgree, Evolves, Pin, RemoveExpired, InTable, Lookup;
    var s1 := RemoveExpired(s, now);
    ExpiryKeeps(s, now);
    LookupKeeps(s, k, now);
    var (t, v) := Lookup(s, k, now);
    var d := Book(c, s, OpLookup(k, now));
    StepEvolves(c, s, s1, c.(now := now));
    if v != NULLPTR {
      TabledIsBooked(c.(now := now), s1, v);
      PinBooks(c.(now := now), s1, v, d);
      PinRecent(s1, v, now);
    } else {
      BooksOnlyPins(c.(now := now), d, t);
    }
  }

  lemma TabledIsBooked(c: Client, s: State, v: Value)
    requires Inv(s) && BooksAgree(c, s) && InTable(s, v)
    ensures v in s.entries && v in c.pins
  {
  }

  lemma PinRecent(s: State, v: Value, now: int)
    requires Recent(s, now) && v in s.entries
    ensures Recent(Pin(s, v), now)
  {
  }

  lemma BooksHold(c: Client, s: State, k: Key, v: Value)
    requires Inv(s) && BooksAgree(c, s)
    requires v in c.pins && c.pins[v] > 0 && v in c.keys && c.keys[v] == k
    ensures Held(s, k, v)
  {
    assert v in s.entries;
  }

  lemma ReleaseDeferredBooks(c: Client, s: State, k: Key, v: Value, d: Client)
    requires BooksAgree(c, s) && Held(s, k, v) && IsDeferred(s, k, v)
    requires v in c.pins && c.pins[v] > 0
    requires d.inserted == c.inserted && d.keys == c.keys && d.pins == c.pins[v := c.pins[v] - 1]
    ensures BooksAgree(d, ReleaseDeferred(s, k, v))
  {
    hide Detach;
    var t := ReleaseDeferred(s, k, v);
    forall u ensures t.removed[u] == if u == v && s.entries[v].pin == 1 then s.removed[u] + 1 else s.removed[u] { }
  }

  lemma UnpinBooks(c: Client, s: State, v: Value, now: int, d: Client)
    requires BooksAgree(c, s) && v in s.entries && s.entries[v].pin > 0
    requires v in c.pins && c.pins[v] > 0
    requires d.inserted == c.inserted && d.keys == c.keys && d.pins == c.pins[v := c.pins[v] - 1]
    ensures BooksAgree(d, Unpin(s, v, now))
  {
  }

  lemma ReleaseDeferredRecent(s: State, k: Key, v: Value, now: int)
    requires Recent(s, now) && Held(s, k, v) && IsDeferred(s, k, v)
    ensures Recent(ReleaseDeferred(s, k, v), now)
  {
    hide Detach;
  }

  /** A client that keeps to its books never trips the asserts of Release. */
  lemma ReleaseStep(c: Client, s: State, k: Key, v: Value, now: int)
    requires RunInv(c, s) && Legal(c, s, OpRelease(k, v, now))
    ensures Held(s, k, v)
    ensures RunInv(Book(c, s, OpRelease(k, v, now)), Release(s, k, v, now))
  {
    hide Inv, Recent, BooksAgree, Evolves, ReleaseDeferred, ReleaseListed, Unpin, IsDeferred, Core;
    BooksHold(c, s, k, v);
    RecentLater(s, c.now, now);
    var d := Book(c, s, OpRelease(k, v, now));
    if IsDeferred(s, k, v) {
      ReleaseDeferredKeeps(s, k, v);
      ReleaseDeferredBooks(c, s, k, v, d);
      ReleaseDeferredRecent(s, k, v, now);
    } else {
      ReleaseListedKeeps(s, k, v, now);
      UnpinBooks(c, s, v, now, d);
      BooksEvolve(d, Unpin(s, v, now), ReleaseListed(s, k, v, now));
      EvolvesKeepsRecent(Unpin(s, v, now), ReleaseListed(s, k, v, now), now);
    }
  }

  lemma AddBooks(c: Client, s: State, k: Key, v: Value, units: nat, now: int, d: Client)
    requires BooksAgree(c, s) && v !in s.entries
    requires d.inserted == c.inserted + multiset{v} && d.keys == c.keys[v := k] && d.pins == c.pins[v := 1]
    ensures BooksAgree(d, AddPinned(s, k, v, units, now))
  {
  }

  lemma AddRecent(s: State, k: Key, v: Value, units: nat, now: int)
    requires Recent(s, now)
    ensures Recent(AddPinned(s, k, v, units, now), now)
  {
  }

  lemma InsertStep(c: Client, s: State, k: Key, v: Value, units: nat, now: int)
    requires RunInv(c, s) && Legal(c, s, OpInsertPinned(k, v, units, now))
    ensures Fresh(s, v)
    ensures RunInv(Book(c, s, OpInsertPinned(k, v, units, now)), InsertPinned(s, k, v, units, now))
  {
    assert Fresh(s, v);
    hide Inv, Recent, BooksAgree, Evolves, Remove, AddPinned, GarbageCollect, Core, InsertPinned, InTable;
    RecentLater(s, c.now, now);
    InsertKeeps(s, k, v, units, now);
    var s1 := Remove(s, k);
    var s2 := AddPinned(s1, k, v, units, now);
    var t := InsertPinned(s, k, v, units, now);
    var d := Book(c, s, OpInsertPinned(k, v, units, now));
    BooksEvolve(c, s, s1);
    AddBooks(c, s1, k, v, units, now, d);
    BooksEvolve(d, s2, t);
    EvolvesKeepsRecent(s, s1, now);
    AddRecent(s1, k, v, units, now);
    EvolvesKeepsRecent(s2, t, now);
  }

  /** Insert may release what InsertPinned has just pinned. */
  lemma InsertedIsHeld(s: State, k: Key, v: Value, units: nat, now: int, later: int)
    requires Inv(s) && Fresh(s, v) && Recent(s, now) && now <= later
    ensures Held(InsertPinned(s, k, v, units, now), k, v)
    ensures Recent(InsertPinned(s, k, v, units, now), later)
  {
    hide Inv, Evolves, Remove, AddPinned, GarbageCollect, Core, InsertPinned, InTable, Recent, Fresh;
    InsertKeeps(s, k, v, units, now);
    var s1 := Remove(s, k);
    var s2 := AddPinned(s1, k, v, units, now);
    var t := InsertPinned(s, k, v, units, now);
    EvolvesKeepsRecent(s, s1, now);
    AddRecent(s1, k, v, units, now);
    EvolvesKeepsRecent(s2, t, now);
    RecentLater(t, now, later);
    EvolvesFacts(s2, t);
    InsertedEntry(s1, t, k, v, units, now);
  }

  lemma InsertedEntry(s: State, t: State, k: Key, v: Value, units: nat, now: int)
    requires Evolves(AddPinned(s, k, v, units, now), t) && InTable(t, v)
    ensures Held(t, k, v)
  {
  }

  lemma ResizedBooks(c: Client, s: State, t: State)
    requires BooksAgree(c, s) && Resized(s, t) && Recent(s, c.now)
    ensures BooksAgree(c, t) && Recent(t, c.now)
  {
    forall v | v in t.entries
      ensures v in c.pins && v in c.keys && t.entries[v].pin == c.pins[v] && t.entries[v].key == c.keys[v]
      ensures t.entries[v].lastUse <= c.now
    {
      assert t.entries[v] == s.entries[v].(units := t.entries[v].units);
    }
  }

  lemma UpdateSizeStep(c: Client, s: State, k: Key, v: Value, units: nat)
    requires RunInv(c, s)
    ensures RunInv(c, UpdateSize(s, k, v, units))
  {
    var t := Resize(s, k, v, units);
    var u := UpdateSize(s, k, v, units);
    assert Core(s);
    hide Inv, Recent, BooksAgree, Evolves, Resize, UpdateSize, Core, Resized;
    UpdateSizeKeeps(s, k, v, units);
    ResizeKeeps(s, k, v, units);
    ResizedBooks(c, s, t);
    BooksEvolve(c, t, u);
    EvolvesKeepsRecent(t, u, c.now);
  }

  /** Changing max_units_, max_idle_ or, while no table entry is pinned, the mode breaks nothing. */
  lemma ReconfigureKeeps(s: State, t: State)
    requires Core(s) && t == s.(maxUnits := t.maxUnits, maxIdle := t.maxIdle, lru := t.lru)
    requires t.lru == s.lru || NonePinned(s)
    ensures Core(t)
  {
    CoreParts(s);
    hide Core;
    assert PinnedSet(t) == PinnedSet(s);
    assert forall v :: InTable(t, v) <==> InTable(s, v);
    assert forall v :: InDefer(t, v) <==> InDefer(s, v);
    assert OrderOk(t) by {
      forall v ensures v in t.order <==> Listed(t, v) {
        assert v in s.order <==> Listed(s, v);
      }
    }
    CoreIntro(t);
  }

  /** Changing the mode keeps the recency list right if and only if no table entry is pinned. */
  lemma ModeChangeIff(s: State)
    requires Core(s)
    ensures Core(s.(lru := !s.lru)) <==> NonePinned(s)
  {
    var t := s.(lru := !s.lru);
    if NonePinned(s) { ReconfigureKeeps(s, t); }
    if Core(t) {
      CoreParts(s);
      CoreParts(t);
      hide Core, TableOk, RingsOk, Partitioned, Sorted, Counted, NullUnused;
      forall v | InTable(s, v) ensures s.entries[v].pin == 0 {
        assert InTable(t, v);
        assert v in s.order <==> Listed(s, v);
        assert v in t.order <==> Listed(t, v);
      }
    }
  }

  lemma ReconfigureStep(c: Client, s: State, t: State, c': Client)
    requires RunInv(c, s) && t == s.(maxUnits := t.maxUnits, maxIdle := t.maxIdle, lru := t.lru)
    requires t.lru == s.lru || NonePinned(s)
    requires c'.inserted == c.inserted && c'.pins == c.pins && c'.keys == c.keys && c.now <= c'.now
    ensures Core(t) && Recent(t, c'.now) && BooksAgree(c', t)
    ensures t.maxUnits == s.maxUnits ==> Inv(t)
  {
    ReconfigureKeeps(s, t);
    hide Core;
  }

  lemma SetMaxSizeStep(c: Client, s: State, totalUnits: int)
    requires RunInv(c, s)
    ensures RunInv(c, SetMaxSize(s, totalUnits))
  {
    hide Core, Fits, Recent, BooksAgree, Evolves, GarbageCollect;
    var t := s.(maxUnits := totalUnits);
    ReconfigureStep(c, s, t, c);
    CollectKeeps(t);
    BooksEvolve(c, t, GarbageCollect(t));
    EvolvesKeepsRecent(t, GarbageCollect(t), c.now);
  }

  // ----- SetTimeout

  /** SetTimeout before the mode changes. */
  function Limited(s: State, limit: int, now: int): State {
    if limit < 0 then s.(maxIdle := -1) else DiscardIdle(s.(maxIdle := limit), limit, now)
  }

  lemma {:induction false} DropOlderInMode(s: State, q: seq<Value>, threshold: int, lru: bool)
    ensures DropOlder(s.(lru := lru), q, threshold) == DropOlder(s, q, threshold).(lru := lru)
    decreases |q|
  {
    hide Remove;
    if q != [] {
      var v := q[|q| - 1];
      if v in s.entries {
        RemoveInMode(s, s.entries[v].key, lru);
        DropOlderInMode(Remove(s, s.entries[v].key), q[..|q| - 1], threshold, lru);
      }
    }
  }

  lemma RemoveInMode(s: State, k: Key, lru: bool)
    ensures Remove(s.(lru := lru), k) == Remove(s, k).(lru := lru)
  {
    hide Without, Attach, RemoveElem;
    if k in s.table && s.table[k] in s.entries { ElemInMode(s.(table := s.table - {k}), s.table[k], lru); }
  }

  lemma ElemInMode(s: State, v: Value, lru: bool)
    requires v in s.entries
    ensures RemoveElem(s.(lru := lru), v) == RemoveElem(s, v).(lru := lru)
  {
    hide Without, Attach;
  }

  /** The mode plays no part in expiry, so it may as well change behind it. */
  lemma SetTimeoutIsLimited(s: State, limit: int, lru: bool, now: int)
    ensures !(limit >= 0 && s.maxIdle >= 0 && lru != s.lru) ==>
              SetTimeout(s, limit, lru, now) == Limited(s, limit, now).(lru := lru)
  {
    hide DropOlder;
    if limit >= 0 { DropOlderInMode(s.(maxIdle := limit), s.order, now - limit, lru); }
  }

  lemma LimitedParts(s: State, limit: int, now: int)
    ensures Limited(s, limit, now) ==
            if limit < 0 then s.(maxIdle := -1) else DiscardIdle(s.(maxIdle := limit), limit, now)
  {
  }

  lemma LimitedKeeps(s: State, limit: int, now: int)
    requires Core(s)
    ensures var t := Limited(s, limit, now);
            Core(t) && Evolves(s.(maxIdle := t.maxIdle), t) && t.maxIdle == (if limit < 0 then -1 else limit)
  {
    hide Core, Evolves, DiscardIdle;
    var t := s.(maxIdle := if limit < 0 then -1 else limit);
    ReconfigureKeeps(s, t);
    EvolvesReflexive(t);
    if limit >= 0 {
      DiscardIdleKeeps(t, limit, now);
      EvolvesFacts(t, DiscardIdle(t, limit, now));
    }
  }

  lemma LimitedInTable(s: State, limit: int, now: int, v: Value)
    requires Core(s) && v in s.entries
    ensures InTable(Limited(s, limit, now), v) <==>
            InTable(s, v) && !(limit >= 0 && v in s.order && s.entries[v].lastUse < now - limit)
  {
    hide Core, DiscardIdle;
    var t := s.(maxIdle := limit);
    assert InTable(t, v) <==> InTable(s, v);
    if limit >= 0 {
      ReconfigureKeeps(s, t);
      if InTable(s, v) {
        SurvivesIdleIff(t, limit, now, v);
      } else {
        DiscardIdleKeeps(t, limit, now);
        EvolvesFacts(t, DiscardIdle(t, limit, now));
      }
    }
  }

  lemma LimitedOthers(s: State, limit: int, now: int)
    requires Core(s)
    ensures forall v {:trigger InTable(Limited(s, limit, now), v)} :: InTable(Limited(s, limit, now), v) ==>
              InTable(s, v) && v in Limited(s, limit, now).entries && Limited(s, limit, now).entries[v] == s.entries[v]
  {
    hide Core, Limited;
    LimitedKeeps(s, limit, now);
    var t := Limited(s, limit, now);
    EvolvesFacts(s.(maxIdle := t.maxIdle), t);
    hide Evolves;
  }

  /** After the limit is applied no table entry is pinned, exactly if the mode may change. */
  lemma LimitedNonePinnedIff(s: State, limit: int, lru: bool, now: int)
    requires Core(s) && lru != s.lru && !(limit >= 0 && s.maxIdle >= 0)
    ensures NonePinned(Limited(s, limit, now)) <==> ModeFits(s, limit, lru, now)
  {
    hide Core, Limited;
    LimitedOthers(s, limit, now);
    forall v | InTable(s, v) && s.entries[v].pin > 0
      ensures InTable(Limited(s, limit, now), v) <==>
              !(lru && limit >= 0 && s.entries[v].lastUse < now - limit)
    {
      LimitedInTable(s, limit, now, v);
      ListedIff(s, v);
    }
  }

  lemma ListedIff(s: State, v: Value)
    requires Core(s)
    ensures v in s.order <==> Listed(s, v)
  {
  }

  /** SetTimeout keeps the representation invariants if and only if the mode stays, or its change is ignored, or
      no table entry is pinned when it changes. */
  lemma SetTimeoutIff(s: State, limit: int, lru: bool, now: int)
    requires Core(s)
    ensures Core(SetTimeout(s, limit, lru, now)) <==> ModeFits(s, limit, lru, now)
  {
    if !(limit >= 0 && s.maxIdle >= 0 && lru != s.lru) {
      hide Core, Limited, SetTimeout, NonePinned;
      SetTimeoutIsLimited(s, limit, lru, now);
      LimitedKeeps(s, limit, now);
      EvolvesFacts(s.(maxIdle := Limited(s, limit, now).maxIdle), Limited(s, limit, now));
      hide Evolves;
      if lru != s.lru {
        ModeChangeIff(Limited(s, limit, now));
        LimitedNonePinnedIff(s, limit, lru, now);
      } else {
        assert Limited(s, limit, now).(lru := lru) == Limited(s, limit, now);
      }
    }
  }

  lemma SetTimeoutStep(c: Client, s: State, limit: int, lru: bool, now: int)
    requires RunInv(c, s) && Legal(c, s, OpSetTimeout(limit, lru, now))
    ensures RunInv(c.(now := now), SetTimeout(s, limit, lru, now))
  {
    hide Core, Fits, Recent, BooksAgree, Evolves, Limited, SetTimeout, ModeFits;
    var d := c.(now := now);
    SetTimeoutIff(s, limit, lru, now);
    if limit >= 0 && s.maxIdle >= 0 && lru != s.lru {
      EvolvesReflexive(s);
      StepEvolves(c, s, s, d);
      IgnoredTimeout(s, limit, lru, now);
    } else {
      var t := Limited(s, limit, now);
      var s1 := s.(maxIdle := t.maxIdle);
      SetTimeoutIsLimited(s, limit, lru, now);
      LimitedKeeps(s, limit, now);
      ReconfigureStep(c, s, s1, d);
      EvolvedInv(s1, t);
      StepEvolves(d, s1, t, d);
      SwitchStep(d, t, lru);
    }
  }

  lemma IgnoredTimeout(s: State, limit: int, lru: bool, now: int)
    requires limit >= 0 && s.maxIdle >= 0 && lru != s.lru
    ensures SetTimeout(s, limit, lru, now) == s
  {
  }

  lemma SwitchStep(c: Client, s: State, lru: bool)
    requires RunInv(c, s) && Core(s.(lru := lru))
    ensures RunInv(c, s.(lru := lru))
  {
    hide Core;
  }

  lemma ClearEvolves(s: State)
    requires Core(s) && forall v :: v in s.entries ==> s.entries[v].pin == 0
    ensures Evolves(s, Clear(s))
  {
    CoreParts(s);
    hide Core, TableOk, RingsOk, Partitioned, OrderOk, Sorted;
    UnitsNonNegative(s.entries, s.entries.Keys);
    hide Sum;
  }

  lemma ClearInv(s: State)
    requires Core(s) && s.defer == map[]
    ensures Inv(Clear(s))
  {
    CoreParts(s);
    hide Core, TableOk, RingsOk, Partitioned, OrderOk, Sorted, Counted;
    var t := Clear(s);
    assert PinnedSet(t) == {};
    assert NullUnused(t);
    forall v ensures !InTable(t, v) && !InDefer(t, v) { }
    hide NullUnused;
    assert TableOk(t) && RingsOk(t) && Partitioned(t) && OrderOk(t) && Sorted(t) && Counted(t);
    CoreIntro(t);
  }

  lemma ClearStep(c: Client, s: State)
    requires RunInv(c, s) && Legal(c, s, OpClear)
    ensures RunInv(c, Clear(s)) && s.defer == map[]
  {
    hide Core, Recent, Evolves, Clear;
    forall v | v in s.entries ensures s.entries[v].pin == 0 { }
    NothingDeferred(s);
    ClearEvolves(s);
    ClearInv(s);
    hide BooksAgree, Inv;
    StepEvolves(c, s, Clear(s), c);
  }

  lemma RingHeadPinned(s: State, k: Key)
    requires Core(s) && k in s.defer
    ensures s.defer[k] != [] && s.defer[k][0] in s.entries && s.entries[s.defer[k][0]].pin > 0
  {
    CoreParts(s);
    hide Core, TableOk, Partitioned, OrderOk, Sorted, Counted, NullUnused;
    assert s.defer[k][0] in s.defer[k];
  }

  lemma NothingDeferred(s: State)
    requires Core(s) && forall v :: v in s.entries ==> s.entries[v].pin == 0
    ensures s.defer == map[]
  {
    hide Core;
    forall k | k in s.defer ensures false {
      RingHeadPinned(s, k);
    }
  }

  lemma AllInTable(s: State, v: Value)
    requires Core(s) && s.defer == map[] && v in s.entries
    ensures InTable(s, v)
  {
    assert !InDefer(s, v);
    assert InTable(s, v) != InDefer(s, v);
  }

  lemma {:induction false} UnitsNonNegative(m: map<Value, Entry>, vs: set<Value>)
    requires vs <= m.Keys
    ensures Sum(m, vs) >= 0
    decreases |vs|
  {
    if vs != {} {
      var v :| v in vs;
      SumRemove(m, vs, v);
      UnitsNonNegative(m, vs - {v});
    }
  }

  lemma SweepStep(c: Client, s: State, op: Op)
    requires RunInv(c, s)
    requires op.OpRemove? || op.OpRemoveAll? || op.OpRemoveUnpinned?
    ensures RunInv(c, Step(s, op))
  {
    hide Core, Fits, Recent, BooksAgree, Evolves, Remove, RemoveAll, RemoveUnpinned;
    match op
    case OpRemove(k) =>
      RemoveKeeps(s, k);
      EvolvedInv(s, Remove(s, k));
      StepEvolves(c, s, Remove(s, k), c);
    case OpRemoveAll =>
      var ks := Enumerate(s.table.Keys);
      RemoveAllInAnyOrder(s, ks);
      EvolvedInv(s, RemoveAll(s));
      StepEvolves(c, s, RemoveAll(s), c);
    case OpRemoveUnpinned =>
      RemoveUnpinnedIsExact(s);
      EvolvedInv(s, RemoveUnpinned(s));
      StepEvolves(c, s, RemoveUnpinned(s), c);
    case _ =>
  }

  /** Some order in which the keys can be visited. */
  ghost function Enumerate(keys: set<Key>): (ks: seq<Key>)
    ensures forall k :: k in keys <==> k in ks
  {
    if keys == {} then [] else
      var k :| k in keys;
      [k] + Enumerate(keys - {k})
  }

  lemma RunInvOnlyPins(c: Client, d: Client, s: State)
    requires RunInv(c, s) && d.inserted == c.inserted && d.pins == c.pins && d.keys == c.keys && d.now == c.now
    ensures RunInv(d, s)
  {
    hide Inv, Recent, BooksAgree;
    BooksOnlyPins(c, d, s);
  }

  /** One permitted call keeps the cache's invariants and its agreement with the books. */
  lemma StepKeeps(c: Client, s: State, op: Op)
    requires RunInv(c, s) && Legal(c, s, op)
    ensures op.OpRelease? ==> Held(s, op.k, op.v)
    ensures RunInv(Book(c, s, op), Step(s, op))
  {
    hide RunInv, Lookup, Release, InsertPinned, UpdateSize, Remove, RemoveAll, RemoveUnpinned,
         RemoveExpired, SetMaxSize, SetTimeout, Clear, Held, Fresh;
    match op
    case OpLookup(k, now) => LookupStep(c, s, k, now);
    case OpRelease(k, v, now) => ReleaseStep(c, s, k, v, now);
    case OpInsertPinned(k, v, units, now) => InsertStep(c, s, k, v, units, now);
    case OpUpdateSize(k, v, units) => UpdateSizeStep(c, s, k, v, units);
    case OpRemove(k) => SweepStep(c, s, op); RunInvOnlyPins(c, Book(c, s, op), Remove(s, k));
    case OpRemoveAll => SweepStep(c, s, op); RunInvOnlyPins(c, Book(c, s, op), RemoveAll(s));
    case OpRemoveUnpinned => SweepStep(c, s, op);
    case OpRemoveExpired(now) => ExpireStep(c, s, now);
    case OpSetMaxSize(n) => SetMaxSizeStep(c, s, n);
    case OpSetTimeout(limit, lru, now) => SetTimeoutStep(c, s, limit, lru, now);
    case OpClear => ClearStep(c, s); RunInvOnlyPins(c, Book(c, s, op), Clear(s));
  }

  /** One permitted call keeps the table up to date with the books. */
  lemma TableStep(c: Client, s: State, op: Op)
    requires RunInv(c, s) && Legal(c, s, op) && UpToDate(c.latest, s.table)
    requires op.OpRelease? ==> Held(s, op.k, op.v)
    ensures UpToDate(Book(c, s, op).latest, Step(s, op).table)
  {
    hide Core, Fits, Recent, BooksAgree, Held, Fresh, Lookup, Release, InsertPinned, UpdateSize, Remove,
         RemoveUnpinned, RemoveExpired, SetMaxSize, SetTimeout;
    match op
    case OpLookup(k, now) =>
      ExpiryKeeps(s, now);
      LookupTable(s, k, now);
    case OpRelease(k, v, now) =>
      RecentLater(s, c.now, now);
      ReleaseTable(s, k, v, now);
    case OpInsertPinned(k, v, units, now) =>
      InsertStep(c, s, k, v, units, now);
      RecentLater(s, c.now, now);
      InsertKeeps(s, k, v, units, now);
    case OpUpdateSize(k, v, units) =>
      UpdateSizeKeeps(s, k, v, units);
      ResizeKeeps(s, k, v, units);
    case OpRemove(k) => RemoveKeeps(s, k);
    case OpRemoveUnpinned => RemoveUnpinnedIsExact(s);
    case OpRemoveExpired(now) => ExpiryKeeps(s, now);
    case OpSetMaxSize(n) => SetMaxSizeTable(s, n);
    case OpSetTimeout(limit, lru, now) => SetTimeoutTable(s, limit, lru, now);
    case _ =>
  }

  lemma LookupTable(s: State, k: Key, now: int)
    requires Inv(s)
    ensures Lookup(s, k, now).0.table == RemoveExpired(s, now).table
  {
    hide RemoveExpired, Without;
    LookupKeeps(s, k, now);
    hide Inv, Evolves;
  }

  lemma ReleaseTable(s: State, k: Key, v: Value, now: int)
    requires Inv(s) && Held(s, k, v) && Recent(s, now)
    ensures forall j :: j in Release(s, k, v, now).table ==>
              j in s.table && Release(s, k, v, now).table[j] == s.table[j]
  {
    hide Core, Fits, Recent, ReleaseListed, Detach;
    if !IsDeferred(s, k, v) { ReleaseListedKeeps(s, k, v, now); }
  }

  lemma SetMaxSizeTable(s: State, totalUnits: int)
    requires Inv(s)
    ensures Evolves(s.(maxUnits := totalUnits), SetMaxSize(s, totalUnits))
  {
    hide Core, Fits, GarbageCollect, Evolves;
    ReconfigureKeeps(s, s.(maxUnits := totalUnits));
    CollectKeeps(s.(maxUnits := totalUnits));
  }

  lemma SetTimeoutTable(s: State, limit: int, lru: bool, now: int)
    requires Inv(s)
    ensures forall k :: k in SetTimeout(s, limit, lru, now).table ==>
              k in s.table && SetTimeout(s, limit, lru, now).table[k] == s.table[k]
  {
    hide Core, Fits, DiscardIdle, Limited;
    SetTimeoutIsLimited(s, limit, lru, now);
    LimitedKeeps(s, limit, now);
  }

  lemma ExpireStep(c: Client, s: State, now: int)
    requires RunInv(c, s) && c.now <= now
    ensures RunInv(c.(now := now), RemoveExpired(s, now))
  {
    hide Core, Fits, Recent, BooksAgree, Evolves, RemoveExpired;
    ExpiryKeeps(s, now);
    StepEvolves(c, s, RemoveExpired(s, now), c.(now := now));
  }

  // ----- whole runs

  /** The states a client can bring about by permitted calls. */
  ghost predicate Reaches(c: Client, s: State, ops: seq<Op>, d: Client, t: State)
    decreases |ops|
  {
    if ops == [] then c == d && s == t
    else
      && Legal(c, s, ops[0])
      && (ops[0].OpRelease? ==> Held(s, ops[0].k, ops[0].v))
      && Reaches(Book(c, s, ops[0]), Step(s, ops[0]), ops[1..], d, t)
  }

  lemma {:induction false} RunKeeps(c: Client, s: State, ops: seq<Op>, d: Client, t: State)
    requires RunInv(c, s) && UpToDate(c.latest, s.table) && Reaches(c, s, ops, d, t)
    ensures RunInv(d, t) && UpToDate(d.latest, t.table)
    decreases |ops|
  {
    hide RunInv, Step, Book, Legal, Held, UpToDate;
    if ops != [] {
      StepKeeps(c, s, ops[0]);
      TableStep(c, s, ops[0]);
      RunKeeps(Book(c, s, ops[0]), Step(s, ops[0]), ops[1..], d, t);
    }
  }

  lemma InitRunInv(totalUnits: int, now: int)
    ensures RunInv(Client(multiset{}, map[], map[], map[], now), Init(totalUnits))
  {
    var s := Init(totalUnits);
    assert forall v :: !InTable(s, v) && !InDefer(s, v);
    assert PinnedSet(s) == {};
  }

  /** In every state a run can reach: what was inserted is, as often as it was inserted, either disposed of
      or live, and live in just one of the table and the deferred rings; a value that the client has pinned
      is live, so not disposed of, with exactly the client's pins; the counters are the sums they claim to
      be; and a lookup never finds a value that was superseded under its key or removed with it. */
  lemma {:induction false} RunsAreSafe(totalUnits: int, now: int, ops: seq<Op>, c: Client, s: State)
    requires Reaches(Client(multiset{}, map[], map[], map[], now), Init(totalUnits), ops, c, s)
    ensures Inv(s)
    ensures forall v :: c.inserted[v] == if InTable(s, v) || InDefer(s, v) then s.removed[v] + 1 else s.removed[v]
    ensures forall v :: !(InTable(s, v) && InDefer(s, v))
    ensures forall v :: v in s.entries <==> InTable(s, v) || InDefer(s, v)
    ensures forall v :: v in c.pins && c.pins[v] > 0 ==>
              v in s.entries && s.entries[v].pin == c.pins[v]
    ensures s.units == Sum(s.entries, s.entries.Keys)
    ensures s.pinnedUnits == Sum(s.entries, PinnedSet(s))
    ensures s.units > s.maxUnits ==> forall v :: InTable(s, v) ==> v in c.pins && c.pins[v] > 0
    ensures forall k, t :: Lookup(s, k, t).1 != NULLPTR ==> k in c.latest && Lookup(s, k, t).1 == c.latest[k]
  {
    InitRunInv(totalUnits, now);
    RunKeeps(Client(multiset{}, map[], map[], map[], now), Init(totalUnits), ops, c, s);
    CoreParts(s);
    hide Core, Reaches, Init, RingsOk, OrderOk, Sorted, TableOk, Lookup;
    forall k, t ensures Lookup(s, k, t).1 != NULLPTR ==> k in s.table && Lookup(s, k, t).1 == s.table[k] {
      LookupKeeps(s, k, t);
    }
    forall v | v in s.entries ensures InTable(s, v) != InDefer(s, v) { }
    hide InDefer;
    if s.units > s.maxUnits {
      forall v | InTable(s, v) ensures v in c.pins && c.pins[v] > 0 {
        assert s.table[s.entries[v].key] == v;
      }
    }
  }
}
