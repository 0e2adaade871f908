/** What the pinning LRU cache of utils/simple_lru_cache_inl.h does, told on values.

    A cached pointer is named by its address, and an address names at most one
    element, so the address also stands for the element itself.  The hash table,
    the recency list and the per-key rings of removed-but-pinned elements become a
    map, a sequence and a map of sequences.  LruCache.dfy proves that the linked
    structure computes exactly these functions; LruProofs.dfy and LruRuns.dfy prove
    what they guarantee. */
module LruModel {

  type Key = string

  /** The address of a cached value. */
  type Value = nat

  const NULLPTR: Value := 0

  /** An element without its links. */
  datatype Entry = Entry(key: Key, pin: nat, units: nat, lastUse: int)

  datatype State = State(
    entries: map<Value, Entry>,    // every live element
    table: map<Key, Value>,        // the main table
    order: seq<Value>,             // the recency list, most recent first
    defer: map<Key, seq<Value>>,   // each deferred ring, from its head along `next`
    units: int,
    pinnedUnits: int,
    maxUnits: int,
    maxIdle: int,                  // negative: entries never expire
    lru: bool,                     // false: strict age-based eviction
    removed: multiset<Value>       // the values handed to RemoveElement so far
  )

  function Init(totalUnits: int): State {
    State(map[], map[], [], map[], 0, 0, totalUnits, -1, true, multiset{})
  }

  // ----- list surgery

  function Without(q: seq<Value>, v: Value): seq<Value> {
    if q == [] then []
    else if q[0] == v then q[1..]
    else [q[0]] + Without(q[1..], v)
  }

  /** Links v right behind the head of k's ring, or starts a ring with it. */
  function Attach(defer: map<Key, seq<Value>>, k: Key, v: Value): map<Key, seq<Value>> {
    if k in defer && defer[k] != [] then defer[k := [defer[k][0], v] + defer[k][1..]]
    else defer[k := [v]]
  }

  /** Takes v out of k's ring.  When v heads the ring, its predecessor takes over. */
  function Detach(defer: map<Key, seq<Value>>, k: Key, v: Value): map<Key, seq<Value>>
    requires k in defer && defer[k] != []
  {
    var r := defer[k];
    if r[0] != v then defer[k := Without(r, v)]
    else if |r| == 1 then defer - {k}
    else defer[k := [r[|r| - 1]] + r[1..|r| - 1]]
  }

  // ----- removal

  function Discard(s: State, v: Value): State
    requires v in s.entries
  {
    s.(entries := s.entries - {v},
       units := s.units - s.entries[v].units,
       removed := s.removed + multiset{v})
  }

  /** Remove(Elem*): the element leaves the recency list and is deferred or discarded. */
  function RemoveElem(s: State, v: Value): State
    requires v in s.entries
  {
    var s1 := s.(order := Without(s.order, v));
    var e := s.entries[v];
    if e.pin > 0 then
      s1.(pinnedUnits := s1.pinnedUnits - e.units, defer := Attach(s1.defer, e.key, v))
    else
      Discard(s1, v)
  }

  function Remove(s: State, k: Key): State {
    if k in s.table && s.table[k] in s.entries
    then RemoveElem(s.(table := s.table - {k}), s.table[k])
    else s
  }

  /** RemoveAll and RemoveUnpinned visit the elements of q from the front. */
  function RemoveAllOf(s: State, ks: seq<Key>): State
    decreases |ks|
  {
    if ks == [] then s else RemoveAllOf(Remove(s, ks[0]), ks[1..])
  }

  function RemoveUnpinnedOf(s: State, q: seq<Value>): State
    decreases |q|
  {
    if q == [] then s
    else if q[0] in s.entries && s.entries[q[0]].pin == 0
    then RemoveUnpinnedOf(Remove(s, s.entries[q[0]].key), q[1..])
    else RemoveUnpinnedOf(s, q[1..])
  }

  function RemoveUnpinned(s: State): State { RemoveUnpinnedOf(s, s.order) }

  function Clear(s: State): State {
    s.(entries := map[], table := map[], order := [], units := 0, pinnedUnits := 0,
       removed := s.removed + multiset(s.entries.Keys))
  }

  // ----- eviction; q is the part of the recency list not yet visited

  function Evict(s: State, v: Value): State
    requires v in s.entries
  {
    Discard(s.(table := s.table - {s.entries[v].key}, order := Without(s.order, v)), v)
  }

  function CollectFrom(s: State, q: seq<Value>): State
    decreases |q|
  {
    if q == [] || s.units <= s.maxUnits then s
    else
      var v := q[|q| - 1];
      if v in s.entries && s.entries[v].pin == 0
      then CollectFrom(Evict(s, v), q[..|q| - 1])
      else CollectFrom(s, q[..|q| - 1])
  }

  function GarbageCollect(s: State): State { CollectFrom(s, s.order) }

  function DropOlder(s: State, q: seq<Value>, threshold: int): State
    decreases |q|
  {
    if q == [] then s
    else
      var v := q[|q| - 1];
      if v in s.entries && s.entries[v].lastUse < threshold
      then DropOlder(Remove(s, s.entries[v].key), q[..|q| - 1], threshold)
      else s
  }

  function DiscardIdle(s: State, maxIdle: int, now: int): State {
    if maxIdle < 0 then s else DropOlder(s, s.order, now - maxIdle)
  }

  function RemoveExpired(s: State, now: int): State {
    if s.maxIdle >= 0 then DiscardIdle(s, s.maxIdle, now) else s
  }

  function SetMaxSize(s: State, totalUnits: int): State {
    GarbageCollect(s.(maxUnits := totalUnits))
  }

  /** SetTimeout after the conversion to cycles; a negative limit stands for "never". */
  function SetTimeout(s: State, limit: int, lru: bool, now: int): State {
    if limit < 0 then s.(lru := lru, maxIdle := -1)
    else if s.maxIdle >= 0 && lru != s.lru then s
    else DiscardIdle(s.(lru := lru, maxIdle := limit), limit, now)
  }

  // ----- client operations

  /** The element found, or NULLPTR. */
  function Found(s: State, k: Key): Value {
    if k in s.table then s.table[k] else NULLPTR
  }

  function Pin(s: State, v: Value): State
    requires v in s.entries
  {
    var e := s.entries[v];
    var s1 := s.(entries := s.entries[v := e.(pin := e.pin + 1)]);
    if e.pin > 0 then s1
    else s1.(pinnedUnits := s1.pinnedUnits + e.units,
             order := if s.lru then Without(s1.order, v) else s1.order)
  }

  function Lookup(s: State, k: Key, now: int): (r: (State, Value)) {
    var s1 := RemoveExpired(s, now);
    var v := Found(s1, k);
    if v in s1.entries then (Pin(s1, v), v) else (s1, NULLPTR)
  }

  predicate IsDeferred(s: State, k: Key, v: Value) {
    k in s.defer && v in s.defer[k]
  }

  function ReleaseDeferred(s: State, k: Key, v: Value): State
    requires v in s.entries && s.entries[v].pin > 0 && IsDeferred(s, k, v)
  {
    var e := s.entries[v];
    var s1 := s.(entries := s.entries[v := e.(pin := e.pin - 1)]);
    if e.pin > 1 then s1 else Discard(s1.(defer := Detach(s1.defer, k, v)), v)
  }

  function ReleaseListed(s: State, k: Key, v: Value, now: int): State
    requires v in s.entries && s.entries[v].pin > 0
  {
    var e := s.entries[v];
    var e1 := e.(pin := e.pin - 1, lastUse := if s.lru then now else e.lastUse);
    var s1 := s.(entries := s.entries[v := e1]);
    if e.pin > 1 then s1
    else
      var s2 := s1.(order := if s.lru then [v] + s1.order else s1.order,
                    pinnedUnits := s1.pinnedUnits - e.units);
      if s2.units > s2.maxUnits then Remove(s2, k) else s2
  }

  /** What the asserts of ReleaseWithOptions ask of the caller. */
  predicate Held(s: State, k: Key, v: Value) {
    v in s.entries && s.entries[v].key == k && s.entries[v].pin > 0
  }

  function Release(s: State, k: Key, v: Value, now: int): State
    requires Held(s, k, v)
  {
    if IsDeferred(s, k, v) then ReleaseDeferred(s, k, v) else ReleaseListed(s, k, v, now)
  }

  function AddPinned(s: State, k: Key, v: Value, units: nat, now: int): State {
    s.(entries := s.entries[v := Entry(k, 1, units, now)],
       table := s.table[k := v],
       units := s.units + units,
       pinnedUnits := s.pinnedUnits + units,
       order := if s.lru then s.order else [v] + s.order)
  }

  function InsertPinned(s: State, k: Key, v: Value, units: nat, now: int): State {
    GarbageCollect(AddPinned(Remove(s, k), k, v, units, now))
  }

  function Insert(s: State, k: Key, v: Value, units: nat, now: int, later: int): State
    requires Held(InsertPinned(s, k, v, units, now), k, v)
  {
    Release(InsertPinned(s, k, v, units, now), k, v, later)
  }

  function ResizeListed(s: State, v: Value, units: nat): State
    requires v in s.entries
  {
    var e := s.entries[v];
    s.(entries := s.entries[v := e.(units := units)],
       units := s.units - e.units + units,
       pinnedUnits := if e.pin > 0 then s.pinnedUnits - e.units + units else s.pinnedUnits)
  }

  /** w is on a deferred ring; v selects it when it is nullptr or w itself. */
  function ResizeDeferred(s: State, w: Value, v: Value, units: nat): State {
    if w in s.entries && (w == v || v == NULLPTR)
    then s.(entries := s.entries[w := s.entries[w].(units := units)],
            units := s.units - s.entries[w].units + units)
    else s
  }

  function ResizeRing(s: State, q: seq<Value>, v: Value, units: nat): State
    decreases |q|
  {
    if q == [] then s else ResizeDeferred(ResizeRing(s, q[1..], v, units), q[0], v, units)
  }

  /** The head first, then backwards from the end of the ring. */
  function Resize(s: State, k: Key, v: Value, units: nat): State {
    if k in s.table && s.table[k] in s.entries && (v == NULLPTR || v == s.table[k])
    then ResizeListed(s, s.table[k], units)
    else if k in s.defer && s.defer[k] != []
    then ResizeRing(ResizeDeferred(s, s.defer[k][0], v, units), s.defer[k][1..], v, units)
    else s
  }

  function UpdateSize(s: State, k: Key, v: Value, units: nat): State {
    GarbageCollect(Resize(s, k, v, units))
  }
}
