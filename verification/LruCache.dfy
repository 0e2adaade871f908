/** The LRU cache as a class over the linked structure.  Every public method computes the
    function of the same name in LruModel on the abstract state that Valid ties to the heap. */
module LruCache {
  import opened LruModel
  import opened LruLinks
  import P = LruProofs
  import E = LruEviction
  import O = LruOperations
  import R = LruRuns

  // ----- what the operations do to the model, in the form the methods need it

  lemma DiscardKeepsTable(s: State, v: Value)
    requires v in s.entries
    ensures LruModel.Discard(s, v).table == s.table
  {
  }

  lemma ClearParts(s: State)
    requires s.defer == map[]
    ensures var t := LruModel.Clear(s);
            && t.entries == map[] && t.order == [] && t.defer == map[] && t.units == 0
            && t.pinnedUnits == 0 && t.maxUnits == s.maxUnits && t.maxIdle == s.maxIdle && t.lru == s.lru
            && t.removed == s.removed + multiset(s.entries.Keys) && TableOk(map[], map[], t.table)
  {
  }

  lemma {:induction false} ResizeIs(s: State, k: Key, v: Value, units: nat)
    requires P.Core(s)
    ensures k in s.table ==> s.table[k] in s.entries
    ensures Resize(s, k, v, units).table == s.table
    ensures k in s.table && (v == NULLPTR || v == s.table[k]) ==>
              Resize(s, k, v, units) == ResizeListed(s, s.table[k], units)
    ensures !(k in s.table && (v == NULLPTR || v == s.table[k])) && k in s.defer && s.defer[k] != [] ==>
              Resize(s, k, v, units) ==
              ResizeRing(ResizeDeferred(s, s.defer[k][0], v, units), s.defer[k][1..], v, units)
    ensures k !in s.table && k !in s.defer ==> Resize(s, k, v, units) == s
    ensures k in s.table && !(v == NULLPTR || v == s.table[k]) && k !in s.defer ==>
              Resize(s, k, v, units) == s
  {
    if k in s.table { P.TableEntry(s, k); }
    O.ResizeKeeps(s, k, v, units);
    hide P.Core;
  }

  lemma UpdateSizeIs(s: State, k: Key, v: Value, units: nat)
    ensures LruModel.UpdateSize(s, k, v, units) == LruModel.GarbageCollect(Resize(s, k, v, units))
  {
  }

  lemma EmptyTable(table: map<Key, Elem>, elems: map<Value, Elem>, s: State)
    requires TableOk(table, elems, s.table) && table.Keys == {}
    ensures s.table == map[] && TableOk(map[], elems, s.table)
  {
    assert s.table.Keys == {};
  }

  lemma DeferEmpty(a: Arena, f: Fields, s: State)
    requires Represents(a, f, s) && s.defer == map[]
    ensures f.defer == map[] && a.head in a.frame && a.head.value == NULLPTR
  {
    assert f.defer.Keys == {};
  }

  lemma EmptyRepresents(a: Arena, f: Fields, s: State)
    requires a.elems == map[] && a.head in a.frame && a.head.value == NULLPTR
    requires a.head.next == a.head && a.head.prev == a.head
    requires s.entries == map[] && s.order == [] && s.defer == map[]
    requires f.defer == map[] && f.units == s.units && f.pinnedUnits == s.pinnedUnits
    requires f.maxUnits == s.maxUnits && f.maxIdle == s.maxIdle && f.lru == s.lru && f.removed == s.removed
    ensures Represents(a, f, s)
  {
  }

  lemma TableSurvives(table: map<Key, Elem>, elems: map<Value, Elem>, s: State, v: Value)
    requires TableOk(table, elems, s.table) && P.Core(s) && v in s.entries
    requires IsDeferred(s, s.entries[v].key, v)
    ensures TableOk(table, elems - {v}, s.table)
  {
    hide P.Core;
    forall k | k in s.table ensures s.table[k] != v {
      P.TableEntry(s, k);
      P.NotDeferred(s, k);
    }
  }

  lemma HeadsAfterHead(heads: map<Key, Elem>, a: Arena, r: seq<Value>, k: Key)
    requires 0 < |r| && r[|r| - 1] in a.elems && r[0] in a.elems
    ensures HeadsAfter(heads, a, r, k, 0) ==
            if |r| == 1 then heads - {k} else (heads - {k})[k := a.elems[r[|r| - 1]]]
  {
  }

  lemma HeadsAfterRest(heads: map<Key, Elem>, a: Arena, r: seq<Value>, k: Key, j: nat)
    requires 0 < j < |r| && r[|r| - 1] in a.elems
    ensures HeadsAfter(heads, a, r, k, j) == heads
  {
  }

  lemma DetachedIsLoose(a: Arena, s: State, t: State, k: Key, j: nat)
    requires k in s.defer && j < |s.defer[k]| && P.Distinct(s.defer[k]) && s.defer[k][j] in a.elems
    requires t.defer == Detach(s.defer, k, s.defer[k][j]) && t.order == s.order
    requires a.elems[s.defer[k][j]].key == k && a.elems[s.defer[k][j]].value == s.defer[k][j]
    requires s.defer[k][j] !in s.order
    ensures Loose(t, a.elems[s.defer[k][j]])
  {
    P.DetachFacts(s.defer, k, s.defer[k][j]);
    hide Detach, P.Distinct;
  }

  lemma ResizeKeepsRings(s: State, w: Value, v: Value, units: nat)
    ensures ResizeDeferred(s, w, v, units).defer == s.defer
  {
  }

  lemma {:induction false} ResizeRingStep(s: State, r: seq<Value>, j: nat, v: Value, units: nat)
    requires j <= |r|
    ensures j == |r| ==> ResizeRing(s, r[j..], v, units) == s
    ensures j < |r| ==>
              ResizeRing(s, r[j..], v, units) ==
              ResizeDeferred(ResizeRing(s, r[j + 1..], v, units), r[j], v, units)
  {
    if j < |r| {
      assert r[j..][1..] == r[j + 1..];
    }
  }

  /** What Lookup does to the entry it finds. */
  lemma PinIs(s: State, k: Key)
    requires P.Core(s) && k in s.table
    ensures var v := s.table[k];
            && v in s.entries && P.InTable(s, v) && v != NULLPTR
            && !OnRing(s.defer, s.entries[v].key, v) && s.entries[v].key == k
            && Pin(s, v) == s.(entries := s.entries[v := s.entries[v].(pin := s.entries[v].pin + 1)],
                 pinnedUnits := if s.entries[v].pin > 0 then s.pinnedUnits else s.pinnedUnits + s.entries[v].units,
                 order := if s.entries[v].pin == 0 && s.lru then Without(s.order, v) else s.order)
  {
    P.TableEntry(s, k);
    P.NotDeferred(s, k);
  }

  lemma TableAdded(table: map<Key, Elem>, elems: map<Value, Elem>, s: State, k: Key, e: Elem)
    requires TableOk(table, elems, s.table) && e.value !in elems
    ensures TableOk(table[k := e], elems[e.value := e], s.table[k := e.value])
  {
  }

  lemma ReconfigureFits(s: State, t: State)
    requires P.Fits(s) && t == s.(maxIdle := t.maxIdle, lru := t.lru)
    ensures P.Fits(t)
  {
  }

  lemma {:induction false} DropStops(s: State, threshold: int)
    requires P.Core(s)
    requires s.order == [] || (s.order[|s.order| - 1] in s.entries &&
               s.entries[s.order[|s.order| - 1]].lastUse >= threshold)
    ensures DropOlder(s, s.order, threshold) == s
  {
  }

  lemma DropStep(s: State, threshold: int)
    requires P.Core(s) && s.order != []
    ensures var n := |s.order|; var v := s.order[n - 1];
            && v in s.entries
            && (s.entries[v].lastUse < threshold ==>
                  var t := LruModel.Remove(s, s.entries[v].key);
                  && DropOlder(s, s.order, threshold) == DropOlder(t, t.order, threshold)
                  && t.order == s.order[..n - 1])
  {
    var n := |s.order|;
    P.OrderListed(s);
    P.OrderEntry(s, n - 1);
    P.RemoveLocal(s, s.entries[s.order[n - 1]].key);
    P.WithoutAt(s.order, n - 1);
    hide P.Core, LruModel.Remove;
    var t := LruModel.Remove(s, s.entries[s.order[n - 1]].key);
    assert t.order == s.order[..n - 1];
  }

  lemma {:induction false} UnpinnedStops(s: State)
    ensures RemoveUnpinnedOf(s, s.order[|s.order|..]) == s
  {
  }

  lemma {:induction false} UnpinnedStep(s: State, i: nat)
    requires P.Core(s) && i < |s.order|
    ensures var v := s.order[i];
            && v in s.entries
            && (if s.entries[v].pin > 0 then
                  RemoveUnpinnedOf(s, s.order[i..]) == RemoveUnpinnedOf(s, s.order[i + 1..])
                else
                  var t := LruModel.Remove(s, s.entries[v].key);
                  && |t.order| == |s.order| - 1
                  && RemoveUnpinnedOf(s, s.order[i..]) == RemoveUnpinnedOf(t, t.order[i..])
                  && (i < |t.order| ==> t.order[i] == s.order[i + 1]))
  {
    P.OrderListed(s);
    P.OrderEntry(s, i);
    P.RemoveLocal(s, s.entries[s.order[i]].key);
    P.WithoutAt(s.order, i);
    hide P.Core, LruModel.Remove;
    assert s.order[i..][1..] == s.order[i + 1..];
    var t := LruModel.Remove(s, s.entries[s.order[i]].key);
    if s.entries[s.order[i]].pin == 0 {
      assert t.order[i..] == s.order[i + 1..];
    }
  }

  lemma {:induction false} EvictedParts(s: State, v: Value)
    requires P.Core(s) && v in s.order && v in s.entries && s.entries[v].pin == 0
    ensures var k := s.entries[v].key;
            && k in s.table && s.table[k] == v && P.Core(LruModel.Evict(s, v))
            && LruModel.Evict(s, v).table == s.table - {k} && !OnRing(s.defer, k, v)
            && LruModel.Evict(s, v) ==
                 LruModel.Discard(s.(table := s.table - {k}, order := Without(s.order, v)), v)
  {
    hide P.Core, Without;
    E.EvictedKey(s, v);
    E.EvictIsRemove(s, v);
    P.RemoveKeeps(s, s.entries[v].key);
    P.RemoveLocal(s, s.entries[v].key);
  }

  lemma {:induction false} CollectStops(s: State, n: nat)
    requires n <= |s.order| && (n == 0 || s.units <= s.maxUnits)
    ensures CollectFrom(s, s.order[..n]) == s
  {
  }

  /** What visiting position n does to the rest of the walk. */
  lemma CollectStep(s: State, n: nat)
    requires P.Core(s) && 0 < n <= |s.order| && s.units > s.maxUnits
    ensures s.order[n - 1] in s.entries
    ensures var v := s.order[n - 1];
            if s.entries[v].pin > 0 then
              CollectFrom(s, s.order[..n]) == CollectFrom(s, s.order[..n - 1])
            else
              var t := LruModel.Evict(s, v);
              && n - 1 <= |t.order|
              && (n > 1 ==> s.order[n - 2] in t.entries && t.order[n - 2] == s.order[n - 2]
                            && s.order[n - 2] != v)
              && CollectFrom(s, s.order[..n]) == CollectFrom(t, t.order[..n - 1])
  {
    hide P.Core, LruModel.Evict, P.Distinct;
    P.OrderListed(s);
    P.OrderEntry(s, n - 1);
    assert s.order[..n][..n - 1] == s.order[..n - 1];
    if s.entries[s.order[n - 1]].pin == 0 {
      E.EvictFacts(s, n - 1);
      hide P.Evolves;
      var t := LruModel.Evict(s, s.order[n - 1]);
      assert t.order[..n - 1] == s.order[..n - 1];
      if n > 1 {
        P.OrderEntry(s, n - 2);
        P.DistinctAt(s.order, n - 2, n - 1);
        assert t.order[n - 2] == t.order[..n - 1][n - 2];
      }
    }
  }

  /** Remove, spelled out over the state without the key. */
  lemma RemovedParts(whole: State, k: Key)
    requires P.Core(whole) && k in whole.table
    ensures var v := whole.table[k]; var s := whole.(table := whole.table - {k});
            var s1 := s.(order := Without(s.order, v));
            && v in whole.entries && !OnRing(s.defer, k, v)
            && LruModel.Remove(whole, k) ==
                 if whole.entries[v].pin > 0
                 then s1.(pinnedUnits := s1.pinnedUnits - whole.entries[v].units,
                          defer := Attach(s1.defer, k, v))
                 else LruModel.Discard(s1, v)
  {
    P.RemoveLocal(whole, k);
    hide P.Core, Without, Attach;
  }

  lemma InitCore(totalUnits: int)
    ensures P.Core(Init(totalUnits))
  {
    var s := Init(totalUnits);
    assert P.PinnedSet(s) == {};
  }

  /** The values of some keys of the table. */
  ghost function Values(s: State, ks: set<Key>): set<Value> {
    set k | k in ks && k in s.table :: s.table[k]
  }

  lemma OneValueMore(s: State, ks: set<Key>, rest: set<Key>, k: Key)
    requires P.Core(s) && k in rest && rest <= ks && k in s.table
    ensures s.table[k] !in Values(s, ks - rest)
    ensures Values(s, ks - (rest - {k})) == Values(s, ks - rest) + {s.table[k]}
  {
    hide P.Core;
    assert ks - (rest - {k}) == (ks - rest) + {k};
    forall j | j in ks - rest && j in s.table ensures s.table[j] != s.table[k] {
      P.TableEntry(s, j);
      P.TableEntry(s, k);
    }
  }

  lemma NoValues(s: State)
    ensures Values(s, s.table.Keys - s.table.Keys) == {}
  {
  }

  lemma SameKeys(table: map<Key, Elem>, elems: map<Value, Elem>, s: State)
    requires TableOk(table, elems, s.table)
    ensures table.Keys == table.Keys - {} == s.table.Keys
  {
  }

  lemma AllValues(s: State)
    requires P.Core(s) && s.defer == map[]
    ensures Values(s, s.table.Keys) == s.entries.Keys
  {
    hide P.Core;
    forall v | v in s.entries ensures v in Values(s, s.table.Keys) {
      R.AllInTable(s, v);
      assert s.table[s.entries[v].key] == v;
    }
    forall k | k in s.table ensures s.table[k] in s.entries { P.TableEntry(s, k); }
  }

  class SimpleLRUCache {
    var table: map<Key, Elem>
    var defer: map<Key, Elem>
    var units: int
    var maxUnits: int
    var pinnedUnits: int
    const head: Elem              // dummy head of the recency list
    var maxIdle: int
    var lru: bool
    var removed: multiset<Value>  // what RemoveElement has been handed

    ghost var elems: map<Value, Elem>
    ghost var frame: set<Elem>
    ghost var model: State

    ghost function Objects(): Arena
      reads this
    {
      Arena(head, elems, frame)
    }

    ghost function Now(): Fields
      reads this
    {
      Fields(defer, units, pinnedUnits, maxUnits, maxIdle, lru, removed)
    }

    /** What holds between operations, and inside them wherever the size bound may be broken. */
    ghost predicate Sound()
      reads this, frame
    {
      && Represents(Objects(), Now(), model)
      && TableOk(table, elems, model.table) && P.Core(model)
    }

    ghost predicate Valid()
      reads this, frame
    {
      Sound() && P.Fits(model)
    }

    ghost function Repr(): set<object>
      reads this
    {
      {this} + frame
    }

    constructor (totalUnits: int)
      ensures Valid() && fresh(Repr()) && model == Init(totalUnits)
      ensures model.entries == map[] && model.removed == multiset{}
      ensures model.maxUnits == totalUnits && model.maxIdle < 0 && model.lru
    {
      var h := new Elem("", NULLPTR, 0, 0, -1);
      table, defer, removed := map[], map[], multiset{};
      units, pinnedUnits, maxUnits := 0, 0, totalUnits;
      maxIdle, lru := -1, true;
      head := h;
      elems, frame, model := map[], {h}, Init(totalUnits);
      new;
      head.next, head.prev := head, head;
      InitCore(totalUnits);
    }

    /** Element e is off every list; it is handed to RemoveElement and forgotten. */
    method Discard(e: Elem, ghost s: State)
      requires Represents(Objects(), Now(), s) && Live(Objects(), e) && Loose(s, e) && e.pin == 0
      modifies this`units, this`removed, this`elems
      ensures e.value in s.entries
      ensures Represents(Objects(), Now(), LruModel.Discard(s, e.value))
      ensures elems == old(elems) - {e.value}
    {
      hide Represents, LruModel.Discard;
      Forget(Objects(), Now(), s, e);
      units := units - e.units;
      removed := removed + multiset{e.value};
      elems := elems - {e.value};
    }

    /** The first half of Remove(Elem*) for a pinned element: it joins the deferred table. */
    method DeferElem(e: Elem, ghost s: State)
      requires Represents(Objects(), Now(), s) && Live(Objects(), e) && Loose(s, e)
      modifies this`pinnedUnits, this`defer, frame`next, frame`prev
      ensures Represents(Objects(), Now(), s.(pinnedUnits := s.pinnedUnits - e.units,
                                              defer := Attach(s.defer, e.key, e.value)))
    {
      hide Represents, Attach;
      ghost var a := Objects();
      ghost var t := s.(pinnedUnits := s.pinnedUnits - e.units);
      ghost var f := Now().(pinnedUnits := pinnedUnits - e.units);
      ElementFields(a, Now(), s, e);
      Rescale(a, Now(), s, f, t);
      pinnedUnits := pinnedUnits - e.units;
      if e.key !in defer {
        StartRing(e, a, f, t);
        defer := defer[e.key := e];
      } else {
        JoinRing(e, defer[e.key], a, f, t);
      }
    }

    /** Remove(Elem*): e leaves the recency list and is deferred or discarded.  Its key is out
        of the table already; `whole` is the state with the key still in it. */
    method RemoveElem(e: Elem, ghost whole: State)
      requires Represents(Objects(), Now(), whole.(table := whole.table - {e.key}))
      requires Live(Objects(), e)
      requires P.Core(whole) && e.key in whole.table && whole.table[e.key] == e.value
      modifies this`units, this`pinnedUnits, this`defer, this`removed, this`elems
      modifies frame`next, frame`prev
      ensures Represents(Objects(), Now(), LruModel.Remove(whole, e.key))
      ensures elems == if e.pin > 0 then old(elems) else old(elems) - {e.value}
    {
      hide Represents, P.Core, Without, Attach, LruModel.Remove, LruModel.Discard;
      ghost var s := whole.(table := whole.table - {e.key});
      RemovedParts(whole, e.key);
      ElementFields(Objects(), Now(), s, e);
      UnlinkFromOrder(e, Objects(), Now(), s);
      s := s.(order := Without(s.order, e.value));
      if e.pin > 0 {
        DeferElem(e, s);
      } else {
        Discard(e, s);
      }
    }

    /** Remove(Elem*) against the table `entries` as it was before the element's key went. */
    method RemoveEntry(e: Elem, ghost entries: map<Key, Elem>)
      requires Represents(Objects(), Now(), model) && TableOk(entries, elems, model.table) && P.Core(model)
      requires e.key in entries && entries[e.key] == e && e in frame
      modifies this`units, this`pinnedUnits, this`defer, this`removed, this`elems, this`model
      modifies frame`next, frame`prev
      ensures Represents(Objects(), Now(), model) && P.Core(model)
      ensures TableOk(entries - {e.key}, elems, model.table)
      ensures model == LruModel.Remove(old(model), e.key) && Fewer(elems, old(elems))
    {
      hide Represents, P.Core, LruModel.Remove, TableOk;
      ghost var s, a, k := model, Objects(), e.key;
      TableFound(a, Now(), s, entries, k);
      P.RemoveKeeps(s, k);
      P.RemoveLocal(s, k);
      Rescale(a, Now(), s, Now(), s.(table := s.table - {k}));
      RemoveElem(e, s);
      TableErased(entries, a.elems, s, k, elems);
      model := LruModel.Remove(s, k);
    }

    /** Remove(const Key&). */
    method Remove(k: Key)
      requires Sound()
      modifies this, frame
      ensures Sound() && model == LruModel.Remove(old(model), k)
      ensures frame == old(frame) && Fewer(elems, old(elems))
    {
      hide Represents, P.Core, LruModel.Remove, TableOk;
      ghost var entries := table;
      TableFound(Objects(), Now(), model, table, k);
      if k in table {
        var e := table[k];
        table := table - {k};
        RemoveEntry(e, entries);
      } else {
        P.RemoveAbsent(model, k);
      }
    }

    /** One step of GarbageCollect at position n of the recency list: an unpinned element
        leaves the table and the list. */
    method Evict(e: Elem, ghost n: nat)
      requires Sound() && 0 < n <= |model.order| && model.order[n - 1] in elems
      requires e == elems[model.order[n - 1]] && e.pin == 0
      modifies this, frame
      ensures Sound() && frame == old(frame) && elems == old(elems) - {e.value}
      ensures old(model.order[n - 1] in model.entries)
      ensures model == LruModel.Evict(old(model), old(model.order[n - 1]))
    {
      hide Represents, P.Core, TableOk, LruModel.Discard, LruModel.Evict, Without;
      ghost var s, a := model, Objects();
      Neighbours(a, Now(), s, n);
      ElementFields(a, Now(), s, e);
      EvictedParts(s, e.value);
      TableErased(table, elems, s, e.key, elems - {e.value});
      table := table - {e.key};
      ghost var s1 := s.(table := s.table - {e.key});
      Rescale(a, Now(), s, Now(), s1);
      UnlinkFromOrder(e, a, Now(), s1);
      Discard(e, s1.(order := Without(s1.order, e.value)));
      model := LruModel.Evict(s, e.value);
    }

    method GarbageCollect()
      requires Sound()
      modifies this, frame
      ensures Valid() && model == LruModel.GarbageCollect(old(model))
      ensures frame == old(frame)
    {
      hide Represents, P.Core, P.Fits, TableOk, LruModel.Evict, CollectFrom;
      ghost var s := model;
      ghost var n: nat := |model.order|;
      Neighbours(Objects(), Now(), model, 0);
      Neighbours(Objects(), Now(), model, n);
      var e := head.prev;
      assert s.order[..n] == s.order;
      FieldsAgree(Objects(), Now(), model);
      while units > maxUnits && e != head
        invariant Sound() && frame == old(frame)
        invariant n <= |model.order| && (n > 0 ==> model.order[n - 1] in elems)
        invariant e == NodeAt(Objects(), model.order, n) && (n == 0 <==> e == head)
        invariant units == model.units && maxUnits == model.maxUnits
        invariant CollectFrom(model, model.order[..n]) == LruModel.GarbageCollect(s)
        decreases n
      {
        Neighbours(Objects(), Now(), model, n);
        ElementFields(Objects(), Now(), model, e);
        CollectStep(model, n);
        var prev := e.prev;
        if e.pin == 0 {
          Evict(e, n);
        }
        e := prev;
        n := n - 1;
        Neighbours(Objects(), Now(), model, n);
        FieldsAgree(Objects(), Now(), model);
      }
      CollectStops(model, n);
      E.CollectKeeps(s);
    }

    method DiscardIdle(maxIdle: int, now: int)
      requires Sound()
      modifies this, frame
      ensures Sound() && model == LruModel.DiscardIdle(old(model), maxIdle, now)
      ensures frame == old(frame)
    {
      hide Represents, P.Core, TableOk, LruModel.Remove, DropOlder;
      if maxIdle < 0 { return; }
      ghost var s := model;
      var threshold := now - maxIdle;
      Neighbours(Objects(), Now(), model, 0);
      Neighbours(Objects(), Now(), model, |model.order|);
      var e := head.prev;
      while e != head && e.lastUse < threshold
        invariant Sound() && frame == old(frame)
        invariant model.order != [] ==> model.order[|model.order| - 1] in elems
        invariant e == NodeAt(Objects(), model.order, |model.order|) && e in frame
        invariant model.order == [] <==> e == head
        invariant DropOlder(model, model.order, threshold) == DropOlder(s, s.order, threshold)
        decreases |model.order|
      {
        ghost var n := |model.order|;
        Neighbours(Objects(), Now(), model, n);
        ElementFields(Objects(), Now(), model, e);
        DropStep(model, threshold);
        var prev := e.prev;
        Remove(e.key);
        e := prev;
        Neighbours(Objects(), Now(), model, n - 1);
      }
      if e != head {
        Neighbours(Objects(), Now(), model, |model.order|);
        ElementFields(Objects(), Now(), model, e);
      }
      DropStops(model, threshold);
    }

    method RemoveExpiredEntries(now: int)
      requires Sound()
      modifies this, frame
      ensures Sound() && model == LruModel.RemoveExpired(old(model), now)
      ensures frame == old(frame)
    {
      FieldsAgree(Objects(), Now(), model);
      hide Represents, P.Core, TableOk, LruModel.DiscardIdle;
      if maxIdle >= 0 {
        DiscardIdle(maxIdle, now);
      }
    }

    method SetMaxSize(totalUnits: int)
      requires Valid()
      modifies this, frame
      ensures Valid() && model == LruModel.SetMaxSize(old(model), totalUnits)
      ensures frame == old(frame)
    {
      hide Represents, P.Core, P.Fits, TableOk, LruModel.GarbageCollect;
      ghost var s := model.(maxUnits := totalUnits);
      Rescale(Objects(), Now(), model, Now().(maxUnits := totalUnits), s);
      R.ReconfigureKeeps(model, s);
      maxUnits := totalUnits;
      model := s;
      GarbageCollect();
    }

    /** SetTimeout with the limit already converted to cycles, negative for "never".  The mode is assigned
        last here, as nothing in between reads it. */
    method SetTimeout(limit: int, lru: bool, now: int)
      requires Valid()
      modifies this, frame
      ensures Represents(Objects(), Now(), model) && TableOk(table, elems, model.table)
      ensures model == LruModel.SetTimeout(old(model), limit, lru, now) && frame == old(frame)
      ensures Valid() <==> old(P.ModeFits(model, limit, lru, now))
    {
      hide Represents, P.Core, P.Fits, TableOk, LruModel.DiscardIdle, P.NonePinned, P.Evolves, P.ModeFits, R.Limited,
           LruModel.SetTimeout;
      ghost var s := model;
      FieldsAgree(Objects(), Now(), s);
      R.SetTimeoutIsLimited(s, limit, lru, now);
      R.SetTimeoutIff(s, limit, lru, now);
      if limit < 0 {
        SetLimit(-1);
        R.LimitedParts(s, limit, now);
        SetMode(lru);
      } else if maxIdle >= 0 && lru != this.lru {
        // the source only complains here, and only in debug builds
        R.IgnoredTimeout(s, limit, lru, now);
      } else {
        SetLimit(limit);
        ghost var s1 := model;
        E.DiscardIdleKeeps(s1, limit, now);
        DiscardIdle(maxIdle, now);
        O.EvolvedInv(s1, model);
        R.LimitedParts(s, limit, now);
        SetMode(lru);
      }
    }

    method SetLimit(limit: int)
      requires Valid()
      modifies this`maxIdle, this`model
      ensures Valid() && model == old(model).(maxIdle := limit) && maxIdle == limit
    {
      hide Represents, P.Core, P.Fits, TableOk;
      ghost var s := model.(maxIdle := limit);
      Rescale(Objects(), Now(), model, Now().(maxIdle := limit), s);
      R.ReconfigureKeeps(model, s);
      ReconfigureFits(model, s);
      maxIdle := limit;
      model := s;
    }

    method SetMode(lru: bool)
      requires Valid()
      modifies this`lru, this`model
      ensures Represents(Objects(), Now(), model) && TableOk(table, elems, model.table) && P.Fits(model)
      ensures model == old(model).(lru := lru)
    {
      hide Represents, P.Core, P.Fits, TableOk;
      ghost var s := model.(lru := lru);
      Rescale(Objects(), Now(), model, Now().(lru := lru), s);
      ReconfigureFits(model, s);
      this.lru := lru;
      model := s;
    }

    method RemoveUnpinned()
      requires Valid()
      modifies this, frame
      ensures Valid() && model == LruModel.RemoveUnpinned(old(model))
      ensures frame == old(frame)
    {
      hide Represents, P.Core, P.Fits, TableOk, LruModel.Remove, RemoveUnpinnedOf;
      ghost var s := model;
      ghost var i: nat := 0;
      Neighbours(Objects(), Now(), model, 0);
      Neighbours(Objects(), Now(), model, if |model.order| > 0 then 1 else 0);
      var e := head.next;
      assert s.order[0..] == s.order;
      while e != head
        invariant Sound() && frame == old(frame)
        invariant i <= |model.order| && (i < |model.order| ==> model.order[i] in elems)
        invariant e == NodeAt(Objects(), model.order, if i < |model.order| then i + 1 else 0)
        invariant e in frame && (i == |model.order| <==> e == head)
        invariant RemoveUnpinnedOf(model, model.order[i..]) == LruModel.RemoveUnpinned(s)
        decreases |model.order| - i
      {
        Neighbours(Objects(), Now(), model, i + 1);
        ElementFields(Objects(), Now(), model, e);
        UnpinnedStep(model, i);
        var next := e.next;
        if e.pin == 0 {
          Remove(e.key);
        } else {
          i := i + 1;
        }
        e := next;
        Neighbours(Objects(), Now(), model, if i < |model.order| then i + 1 else 0);
      }
      UnpinnedStops(model);
      E.RemoveUnpinnedIsExact(s);
      O.EvolvedInv(s, model);
    }

    /** RemoveAll visits the table in any order and clears it at the end. */
    method RemoveAll()
      requires Valid()
      modifies this, frame
      ensures Valid() && model == E.RemoveAll(old(model))
      ensures frame == old(frame)
    {
      hide Represents, P.Core, P.Fits, TableOk, LruModel.Remove, E.RemoveAll, P.Evolves;
      ghost var s, entries := model, table;
      var rest := table.Keys;
      P.EvolvesReflexive(s);
      while rest != {}
        invariant Represents(Objects(), Now(), model) && P.Core(model)
        invariant TableOk(entries, elems, model.table) && P.Evolves(s, model)
        invariant entries.Keys == rest && rest <= table.Keys
        invariant forall k :: k in rest ==> entries[k] == table[k]
        invariant E.RemoveAll(model) == E.RemoveAll(s) && frame == old(frame)
        decreases rest
      {
        var k :| k in rest;
        ghost var t := model;
        TableFound(Objects(), Now(), t, entries, k);
        var e := table[k];
        RemoveEntry(e, entries);
        P.RemoveKeeps(t, k);
        P.EvolvesTransitive(s, t, model);
        E.RemoveAllAbsorbs(t, k);
        entries := entries - {k};
        rest := rest - {k};
      }
      EmptyTable(entries, elems, model);
      E.RemoveAllOfNothing(model);
      O.EvolvedInv(s, model);
      table := map[];
    }

    /** Clear disposes of everything; no entry may be pinned. */
    method Clear()
      requires Valid() && forall v :: v in model.entries ==> model.entries[v].pin == 0
      modifies this, head
      ensures Valid() && model == LruModel.Clear(old(model))
      ensures frame == old(frame)
    {
      hide P.Core, P.Fits, Represents, TableOk, LruModel.Clear;
      ghost var s := model;
      R.NothingDeferred(s);
      R.ClearInv(s);
      ClearParts(s);
      FieldsAgree(Objects(), Now(), s);
      DeferEmpty(Objects(), Now(), s);
      DisposeAll();
      Pristine();
      EmptyRepresents(Objects(), Now(), LruModel.Clear(s));
      model := LruModel.Clear(s);
    }

    /** Back to an empty table, an empty list and zero counts. */
    method Pristine()
      requires head in frame
      modifies this`table, this`units, this`pinnedUnits, this`elems, head`next, head`prev
      ensures table == map[] && elems == map[] && units == 0 && pinnedUnits == 0
      ensures head.next == head && head.prev == head
    {
      table := map[];
      head.next, head.prev := head, head;
      units, pinnedUnits := 0, 0;
      elems := map[];
    }

    /** The loop of Clear: every table entry is handed to RemoveElement. */
    method DisposeAll()
      requires Sound() && model.defer == map[]
      modifies this`units, this`removed
      ensures removed == old(removed) + multiset(model.entries.Keys)
    {
      hide Represents, P.Core, TableOk, Values;
      SameKeys(table, elems, model);
      NoValues(model);
      var rest := table.Keys;
      ghost var gone: set<Value> := {};
      while rest != {}
        invariant rest <= table.Keys && removed == old(removed) + multiset(gone)
        invariant gone == Values(model, table.Keys - rest)
        modifies this`units, this`removed
        decreases rest
      {
        var k :| k in rest;
        var e := table[k];
        TableFound(Objects(), old(Now()), model, table, k);
        OneValueMore(model, table.Keys, rest, k);
        units := units - e.units;
        removed := removed + multiset{e.value};
        rest := rest - {k};
        gone := gone + {e.value};
      }
      AllValues(model);
    }

    // ----- client operations

    method Lookup(k: Key, now: int) returns (v: Value)
      requires Valid()
      modifies this, frame
      ensures Valid() && (model, v) == LruModel.Lookup(old(model), k, now)
      ensures frame == old(frame)
    {
      hide Represents, P.Core, P.Fits, TableOk, LruModel.RemoveExpired, Pin;
      ghost var s := model;
      RemoveExpiredEntries(now);
      O.LookupKeeps(s, k, now);
      TableFound(Objects(), Now(), model, table, k);
      v := NULLPTR;
      if k in table {
        var e := table[k];
        PinIs(model, k);
        PinEntry(e);
        v := e.value;
      }
      model := LruModel.Lookup(s, k, now).0;
    }

    /** Takes one more pin on a table entry. */
    method PinEntry(e: Elem)
      requires Sound() && Live(Objects(), e) && e.key in model.table && model.table[e.key] == e.value
      modifies this`pinnedUnits, frame
      ensures old(e.value in model.entries)
      ensures Represents(Objects(), Now(), Pin(old(model), e.value))
    {
      hide Represents, P.Core, TableOk, Without;
      ghost var s := model;
      ElementFields(Objects(), Now(), s, e);
      FieldsAgree(Objects(), Now(), s);
      PinIs(s, e.key);
      if e.pin == 0 {
        ghost var s1 := s.(pinnedUnits := s.pinnedUnits + e.units);
        Rescale(Objects(), Now(), s, Now().(pinnedUnits := pinnedUnits + e.units), s1);
        pinnedUnits := pinnedUnits + e.units;
        s := s1;
        if lru {
          UnlinkFromOrder(e, Objects(), Now(), s);
          s := s.(order := Without(s.order, e.value));
        }
      }
      Update(e, e.pin + 1, e.units, e.lastUse, Objects(), Now(), s);
    }

    method InsertPinned(k: Key, value: Value, units: nat, now: int)
      requires Valid() && O.Fresh(model, value) && P.Recent(model, now)
      modifies this, frame
      ensures Valid() && model == LruModel.InsertPinned(old(model), k, value, units, now)
      ensures fresh(frame - old(frame))
    {
      hide Represents, P.Core, P.Fits, P.Recent, TableOk, LruModel.Remove, LruModel.GarbageCollect, AddPinned;
      ghost var s := model;
      O.InsertKeeps(s, k, value, units, now);
      O.RemoveKeepsFresh(s, k, value);
      P.RemoveKeeps(s, k);
      Remove(k);
      AddEntry(k, value, units, now);
      GarbageCollect();
    }

    /** The new element of InsertPinned, known to the cache but not yet entered anywhere. */
    method NewElem(k: Key, value: Value, units: nat, now: int, ghost s: State) returns (e: Elem)
      requires Represents(Objects(), Now(), s) && O.Fresh(s, value)
      modifies this`elems, this`frame
      ensures Represents(Objects(), Now(), s.(entries := s.entries[value := Entry(k, 1, units, now)]))
      ensures Live(Objects(), e) && Loose(s, e) && e.key == k && e.value == value
      ensures value !in old(elems) && elems == old(elems)[value := e]
      ensures fresh(frame - old(frame))
    {
      hide Represents;
      FieldsAgree(Objects(), Now(), s);
      e := new Elem(k, value, 1, units, now);
      Admit(Objects(), Now(), s, e);
      elems, frame := elems[value := e], frame + {e};
    }

    /** The new element of InsertPinned, in the counts, the table and, by age, on the list. */
    method AddEntry(k: Key, value: Value, units: nat, now: int)
      requires Represents(Objects(), Now(), model) && TableOk(table, elems, model.table)
      requires O.Fresh(model, value)
      modifies this, frame
      ensures Represents(Objects(), Now(), model) && TableOk(table, elems, model.table)
      ensures model == AddPinned(old(model), k, value, units, now)
      ensures fresh(frame - old(frame))
    {
      hide Represents, TableOk, O.Fresh;
      ghost var s := model;
      var e := NewElem(k, value, units, now, s);
      TableAdded(table, old(elems), s, k, e);
      EnterEntry(e, units, s.(entries := s.entries[value := Entry(k, 1, units, now)]));
      model := AddPinned(s, k, value, units, now);
    }

    /** Counts the new element and enters it into the table and, by age, on the list. */
    method EnterEntry(e: Elem, units: nat, ghost s: State)
      requires Represents(Objects(), Now(), s) && Live(Objects(), e) && Loose(s, e)
      modifies this`units, this`pinnedUnits, this`table, frame
      ensures Represents(Objects(), Now(),
                         s.(units := s.units + units, pinnedUnits := s.pinnedUnits + units,
                            table := s.table[e.key := e.value],
                            order := if s.lru then s.order else [e.value] + s.order))
      ensures table == old(table)[e.key := e]
    {
      hide Represents;
      ghost var f := Now();
      FieldsAgree(Objects(), f, s);
      ghost var t := s.(units := s.units + units, pinnedUnits := s.pinnedUnits + units,
                        table := s.table[e.key := e.value]);
      Rescale(Objects(), f, s, f.(units := f.units + units, pinnedUnits := f.pinnedUnits + units), t);
      this.units := this.units + units;
      pinnedUnits := pinnedUnits + units;
      table := table[e.key := e];
      if !lru {
        LinkToOrder(e, head, Objects(), Now(), t);
      }
    }

    method Insert(k: Key, value: Value, units: nat, now: int, later: int)
      requires Valid() && O.Fresh(model, value) && P.Recent(model, now) && now <= later
      modifies this, frame
      ensures P.Inv(old(model)) && Held(LruModel.InsertPinned(old(model), k, value, units, now), k, value)
      ensures Valid() && model == LruModel.Insert(old(model), k, value, units, now, later)
      ensures fresh(frame - old(frame))
    {
      hide Represents, P.Core, P.Fits, TableOk, LruModel.InsertPinned, P.Recent, LruModel.Release;
      R.InsertedIsHeld(model, k, value, units, now, later);
      InsertPinned(k, value, units, now);
      Release(k, value, later);
    }

    method Release(k: Key, value: Value, now: int)
      requires Valid() && Held(model, k, value) && P.Recent(model, now)
      modifies this, frame
      ensures Valid() && model == LruModel.Release(old(model), k, value, now)
      ensures frame == old(frame)
    {
      hide Represents, P.Core, P.Fits, TableOk, ReleaseDeferred, ReleaseListed, P.Distinct;
      ghost var s := model;
      RingExists(Objects(), Now(), s, k);
      if k in defer {
        // from oldest to newest
        var first := defer[k];
        ghost var r := s.defer[k];
        ghost var j: nat := |r| - 1;
        RingNeighbours(Objects(), Now(), s, k, 0);
        RingNeighbours(Objects(), Now(), s, k, j);
        var e := first.prev;
        while e != first && e.value != value
          invariant j < |r| && r[j] in elems && e == elems[r[j]] && e.value == r[j]
          invariant e == first <==> j == 0
          invariant forall i :: j < i < |r| ==> r[i] != value
          decreases j
          modifies {}
        {
          RingNeighbours(Objects(), Now(), s, k, j);
          e := e.prev;
          j := j - 1;
          RingNeighbours(Objects(), Now(), s, k, j);
        }
        if e.value == value {
          O.ReleaseDeferredKeeps(s, k, value);
          ReleaseFromRing(e, k, j);
          return;
        }
      }
      ReleaseFromTable(k, value, now);
    }

    /** The second half of Release: the value is not deferred, so look in the table. */
    method ReleaseFromTable(k: Key, value: Value, now: int)
      requires Valid() && Held(model, k, value) && P.Recent(model, now) && !IsDeferred(model, k, value)
      modifies this, frame
      ensures Valid() && model == ReleaseListed(old(model), k, value, now)
      ensures frame == old(frame)
    {
      hide Represents, P.Core, P.Fits, TableOk, ReleaseListed, P.Recent, O.Unpin, P.Evolves;
      ghost var s := model;
      O.ReleaseListedKeeps(s, k, value, now);
      O.HeldInTable(s, k, value);
      O.ReleaseListedIs(s, k, value, now);
      TableFound(Objects(), Now(), s, table, k);
      var e := table[k];
      ElementFields(Objects(), Now(), s, e);
      UnpinEntry(e, now);
      FieldsAgree(Objects(), Now(), model);
      if e.pin == 0 {
        if units > maxUnits {
          Remove(k);
        }
      }
    }

    /** Drops a pin on the element at position j of a deferred ring, and the element with
        its last pin. */
    method ReleaseFromRing(e: Elem, k: Key, ghost j: nat)
      requires Sound() && k in model.defer && j < |model.defer[k]|
      requires model.defer[k][j] in elems && e == elems[model.defer[k][j]] && e.value == model.defer[k][j]
      requires Held(model, k, e.value) && P.Core(ReleaseDeferred(model, k, e.value))
      modifies this`defer, this`units, this`removed, this`elems, this`model, frame
      ensures Sound() && old(Held(model, k, e.value) && IsDeferred(model, k, e.value))
      ensures model == ReleaseDeferred(old(model), k, e.value)
    {
      hide Represents, P.Core, TableOk, LruModel.Discard, Detach, P.Distinct;
      ghost var s := model;
      RingNeighbours(Objects(), Now(), s, k, j);
      ElementFields(Objects(), Now(), s, e);
      TableSurvives(table, elems, s, e.value);
      ghost var s1 := s.(entries := s.entries[e.value := s.entries[e.value].(pin := e.pin - 1)]);
      Update(e, e.pin - 1, e.units, e.lastUse, Objects(), Now(), s);
      if e.pin == 0 {
        DropFromRing(e, k, j, s1);
        DiscardKeepsTable(s1.(defer := Detach(s1.defer, k, e.value)), e.value);
      }
      model := ReleaseDeferred(s, k, e.value);
    }

    /** Takes an unpinned element off its deferred ring and disposes of it. */
    method DropFromRing(e: Elem, k: Key, ghost j: nat, ghost s: State)
      requires Represents(Objects(), Now(), s) && k in s.defer && j < |s.defer[k]|
      requires s.defer[k][j] in elems && e == elems[s.defer[k][j]] && e.value == s.defer[k][j] && e.pin == 0
      requires P.Distinct(s.defer[k]) && e.value !in s.order
      modifies this`defer, this`units, this`removed, this`elems, frame`next, frame`prev
      ensures e.value in s.entries && elems == old(elems) - {e.value}
      ensures Represents(Objects(), Now(),
                         LruModel.Discard(s.(defer := Detach(s.defer, k, e.value)), e.value))
    {
      hide Represents, LruModel.Discard, Detach, P.Distinct, HeadsAfter;
      ghost var f, r := Now(), s.defer[k];
      RingNeighbours(Objects(), f, s, k, j);
      RingNeighbours(Objects(), f, s, k, 0);
      RingNeighbours(Objects(), f, s, k, |r| - 1);
      if e == defer[k] {
        HeadsAfterHead(f.defer, Objects(), r, k);
        defer := defer - {k};
        if e.prev != e {
          defer := defer[e.prev.key := e.prev];
        }
      } else {
        HeadsAfterRest(f.defer, Objects(), r, k, j);
      }
      UnlinkFromRing(e, k, j, Objects(), f, s);
      ghost var t := s.(defer := Detach(s.defer, k, e.value));
      DetachedIsLoose(Objects(), s, t, k, j);
      Discard(e, t);
    }

    /** Drops a pin on a table entry; with the last one, the entry may be listed again. */
    method UnpinEntry(e: Elem, now: int)
      requires Sound() && Live(Objects(), e) && P.InTable(model, e.value) && e.pin > 0
      requires P.Recent(model, now)
      modifies this`pinnedUnits, this`model, frame
      ensures old(e.value in model.entries && model.entries[e.value].pin > 0)
      ensures Sound() && model == O.Unpin(old(model), e.value, now)
      ensures e.pin == old(e.pin) - 1
    {
      hide Represents, P.Core, TableOk, P.Recent;
      ghost var s, f := model, Now();
      ElementFields(Objects(), f, s, e);
      FieldsAgree(Objects(), f, s);
      O.UnpinKeeps(s, e.value, now);
      P.NotDeferred(s, e.key);
      P.OrderListed(s);
      Update(e, e.pin - 1, e.units, if lru then now else e.lastUse, Objects(), f, s);
      ghost var s1 := s.(entries := s.entries[e.value := Entry(e.key, e.pin, e.units, e.lastUse)]);
      if e.pin == 0 {
        if lru {
          assert e.value !in s.order by { assert !P.Listed(s, e.value); }
          LinkToOrder(e, head, Objects(), f, s1);
          s1 := s1.(order := [e.value] + s1.order);
        }
        ghost var s2 := s1.(pinnedUnits := s1.pinnedUnits - e.units);
        Rescale(Objects(), f, s1, f.(pinnedUnits := f.pinnedUnits - e.units), s2);
        pinnedUnits := pinnedUnits - e.units;
      }
      model := O.Unpin(s, e.value, now);
    }

    method UpdateSize(k: Key, value: Value, units: nat)
      requires Valid()
      modifies this, frame
      ensures Valid() && model == LruModel.UpdateSize(old(model), k, value, units)
      ensures frame == old(frame)
    {
      hide LruModel.UpdateSize;
      hide Represents, P.Core, P.Fits, TableOk, LruModel.GarbageCollect, ResizeRing, ResizeDeferred;
      hide Resize, ResizeListed, O.Resized, P.Evolves;
      ghost var s := model;
      O.UpdateSizeKeeps(s, k, value, units);
      O.ResizeKeeps(s, k, value, units);
      TableFound(Objects(), Now(), s, table, k);
      RingExists(Objects(), Now(), s, k);
      ResizeIs(s, k, value, units);
      if k in table && (value == NULLPTR || value == table[k].value) {
        ResizeEntry(table[k], units);
      } else if k in defer {
        ResizeDeferredRing(k, value, units);
      }
      model := Resize(s, k, value, units);
      GarbageCollect();
      UpdateSizeIs(s, k, value, units);
    }

    /** UpdateSize for a table entry. */
    method ResizeEntry(e: Elem, units: nat)
      requires Sound() && Live(Objects(), e)
      modifies this`units, this`pinnedUnits, frame`pin, frame`units, frame`lastUse
      ensures old(e.value in model.entries)
      ensures Represents(Objects(), Now(), ResizeListed(old(model), e.value, units))
    {
      hide Represents, P.Core, TableOk;
      ghost var s, f := model, Now();
      ElementFields(Objects(), f, s, e);
      FieldsAgree(Objects(), f, s);
      ghost var s1 := s.(units := s.units - e.units + units,
                         pinnedUnits := if e.pin > 0 then s.pinnedUnits - e.units + units else s.pinnedUnits);
      Rescale(Objects(), f, s, f.(units := s1.units, pinnedUnits := s1.pinnedUnits), s1);
      this.units := this.units - e.units + units;
      if e.pin > 0 {
        pinnedUnits := pinnedUnits - e.units + units;
      }
      Update(e, e.pin, units, e.lastUse, Objects(), Now(), s1);
    }

    /** One step of the loop of UpdateSize over a deferred ring. */
    method ResizeOne(e: Elem, value: Value, units: nat, ghost s: State)
      requires Represents(Objects(), Now(), s) && Live(Objects(), e)
      modifies this`units, frame`pin, frame`units, frame`lastUse
      ensures Represents(Objects(), Now(), ResizeDeferred(s, e.value, value, units))
    {
      hide Represents;
      ElementFields(Objects(), Now(), s, e);
      if e.value == value || value == NULLPTR {
        ghost var f := Now();
        ghost var s1 := s.(units := s.units - e.units + units);
        Rescale(Objects(), f, s, f.(units := f.units - e.units + units), s1);
        this.units := this.units - e.units + units;
        Update(e, e.pin, units, e.lastUse, Objects(), Now(), s1);
      }
    }

    /** The loop of UpdateSize over the deferred ring of k: the head, then backwards. */
    method ResizeDeferredRing(k: Key, value: Value, units: nat)
      requires Sound() && k in defer
      modifies this`units, frame`pin, frame`units, frame`lastUse
      ensures k in model.defer && model.defer[k] != []
      ensures Represents(Objects(), Now(),
                ResizeRing(ResizeDeferred(model, model.defer[k][0], value, units),
                           model.defer[k][1..], value, units))
    {
      hide Represents, P.Core, TableOk, P.Distinct, ResizeRing, ResizeDeferred;
      RingExists(Objects(), Now(), model, k);
      ghost var r := model.defer[k];
      ghost var j: nat := |r|;
      ghost var s0 := ResizeDeferred(model, r[0], value, units);
      ghost var t := s0;
      RingNeighbours(Objects(), Now(), model, k, 0);
      var first := defer[k];
      ResizeOne(first, value, units, model);
      ResizeKeepsRings(model, r[0], value, units);
      ResizeRingStep(s0, r, j, value, units);
      var e := first.prev;
      RingNeighbours(Objects(), Now(), t, k, j - 1);
      while e != first
        invariant 0 < j <= |r| && k in t.defer && t.defer[k] == r
        invariant Represents(Objects(), Now(), t) && t == ResizeRing(s0, r[j..], value, units)
        invariant r[j - 1] in elems && e == elems[r[j - 1]] && Live(Objects(), e) && e.value == r[j - 1]
        invariant e == first <==> j == 1
        decreases j
      {
        ResizeOne(e, value, units, t);
        ResizeKeepsRings(t, e.value, value, units);
        ResizeRingStep(s0, r, j - 1, value, units);
        t := ResizeDeferred(t, e.value, value, units);
        RingNeighbours(Objects(), Now(), t, k, j - 1);
        e := e.prev;
        j := j - 1;
        RingNeighbours(Objects(), Now(), t, k, j - 1);
      }
    }

    // ----- queries

    method InDeferredTable(k: Key, value: Value) returns (found: bool)
      requires Sound()
      ensures found <==> k in model.defer && exists v :: v in model.defer[k] && (value == NULLPTR || v == value)
    {
      hide Represents, P.Core, TableOk, P.Distinct;
      RingExists(Objects(), Now(), model, k);
      if k !in defer { return false; }
      ghost var r := model.defer[k];
      RingNeighbours(Objects(), Now(), model, k, 0);
      var first := defer[k];
      assert first.value == r[0] && r[0] in r;
      if first.value == value || value == NULLPTR { return true; }
      var e := first.prev;
      ghost var j: nat := |r|;
      RingNeighbours(Objects(), Now(), model, k, j - 1);
      while e != first
        invariant 0 < j <= |r| && r[j - 1] in elems && e == elems[r[j - 1]] && e.value == r[j - 1]
        invariant e == first <==> j == 1
        invariant forall i :: j <= i < |r| ==> r[i] != value
        decreases j
        modifies {}
      {
        assert r[j - 1] in r;
        if e.value == value || value == NULLPTR { return true; }
        RingNeighbours(Objects(), Now(), model, k, j - 1);
        e := e.prev;
        j := j - 1;
        RingNeighbours(Objects(), Now(), model, k, j - 1);
      }
      return false;
    }

    /** A value is in use while it is in the table or deferred; nullptr asks about the key. */
    method StillInUse(k: Key, value: Value) returns (found: bool)
      requires Sound()
      ensures found <==> exists v :: v in model.entries && model.entries[v].key == k
                                     && (value == NULLPTR || v == value)
    {
      hide Represents, P.Core, TableOk;
      TableFound(Objects(), Now(), model, table, k);
      P.LivePlaces(model, k);
      if k in table && (value == NULLPTR || value == table[k].value) {
        assert model.table[k] in model.entries && model.entries[model.table[k]].key == k;
        return true;
      }
      found := InDeferredTable(k, value);
      if found {
        ghost var v :| v in model.defer[k] && (value == NULLPTR || v == value);
        assert IsDeferred(model, k, v);
      } else {
        forall v | v in model.entries && model.entries[v].key == k
          ensures !(value == NULLPTR || v == value)
        {
          assert (k in model.table && model.table[k] == v) || IsDeferred(model, k, v);
        }
      }
    }
  }
}
