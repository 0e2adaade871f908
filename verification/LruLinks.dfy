/** The linked structure of the LRU cache: elements with intrusive links, standing on
    circular lists.  Represents ties it to a state of LruModel; each method here moves one
    element and says which state the structure represents afterwards. */
module LruLinks {
  import opened LruModel
  import P = LruProofs

  class Elem {
    const key: Key
    const value: Value
    var pin: nat
    var units: nat
    var next: Elem?
    var prev: Elem?
    var lastUse: int

    constructor (key: Key, value: Value, pin: nat, units: nat, lastUse: int)
      ensures this.key == key && this.value == value && this.pin == pin
      ensures this.units == units && this.lastUse == lastUse
      ensures next == null && prev == null
    {
      this.key, this.value, this.pin, this.units, this.lastUse := key, value, pin, units, lastUse;
      next, prev := null, null;
    }

    predicate IsLinked()
      reads this
    {
      next != null
    }

    /** Takes this element out of the ring it stands on at position i, if any. */
    method Unlink(ghost ring: seq<Elem>, ghost i: nat)
      requires if ring == [] then next == null && prev == null
               else Circular(ring) && i < |ring| && ring[i] == this
      modifies this`next, this`prev, (set e | e in ring)`next, (set e | e in ring)`prev
      ensures next == null && prev == null
      ensures |ring| > 1 ==> Circular(ring[..i] + ring[i + 1..])
    {
      if !IsLinked() { return; }
      prev.next := next;
      next.prev := prev;
      prev := null;
      next := null;
    }

    /** Links this element right behind the head of a ring. */
    method Link(head: Elem, ghost ring: seq<Elem>)
      requires Circular(ring) && ring[0] == head && this !in ring
      modifies this`next, this`prev, (set e | e in ring)`next, (set e | e in ring)`prev
      ensures Circular([head, this] + ring[1..])
    {
      next := head.next;
      prev := head;
      next.prev := this;
      prev.next := this;
    }
  }

  /** A well-linked circular doubly linked list, from its first element along `next`. */
  ghost predicate Circular(r: seq<Elem>)
    reads (set e | e in r)`next, (set e | e in r)`prev
  {
    && |r| > 0
    && (forall i, j :: 0 <= i < j < |r| ==> r[i] != r[j])
    && (forall i {:trigger r[i].next} :: 0 <= i < |r| - 1 ==> r[i].next == r[i + 1])
    && (forall i {:trigger r[i].prev} :: 1 <= i < |r| ==> r[i].prev == r[i - 1])
    && r[|r| - 1].next == r[0] && r[0].prev == r[|r| - 1]
  }

  /** The elements that a list of addresses names. */
  ghost function Nodes(elems: map<Value, Elem>, ids: seq<Value>): (r: seq<Elem>)
    requires forall v :: v in ids ==> v in elems
    ensures |r| == |ids| && forall i {:trigger r[i]} :: 0 <= i < |r| ==> r[i] == elems[ids[i]]
  {
    if ids == [] then [] else [elems[ids[0]]] + Nodes(elems, ids[1..])
  }

  /** Every address on a list is live, and no address is on two lists. */
  ghost predicate IdsOk(elems: map<Value, Elem>, order: seq<Value>, defer: map<Key, seq<Value>>) {
    && (forall v {:trigger v in order} :: v in order ==> v in elems)
    && (forall k {:trigger defer[k]} :: k in defer ==> defer[k] != [])
    && (forall k, v {:trigger v in defer[k]} :: k in defer && v in defer[k] ==>
          v in elems && elems[v].key == k && v !in order)
  }

  ghost predicate OnRing(defer: map<Key, seq<Value>>, k: Key, v: Value) {
    k in defer && v in defer[k]
  }

  /** The objects of a cache: its dummy head, its live elements, and a frame around them. */
  datatype Arena = Arena(head: Elem, elems: map<Value, Elem>, frame: set<Elem>)

  ghost predicate Closed(a: Arena) {
    a.head in a.frame && forall v {:trigger a.elems[v]} :: v in a.elems ==> a.elems[v] in a.frame
  }

  ghost function ListRing(a: Arena, order: seq<Value>): (r: seq<Elem>)
    requires forall v :: v in order ==> v in a.elems
    ensures |r| == |order| + 1 && r[0] == a.head
    ensures forall i {:trigger r[i]} :: 1 <= i < |r| ==> r[i] == a.elems[order[i - 1]]
  {
    [a.head] + Nodes(a.elems, order)
  }

  /** The recency list, the dummy head first, and every deferred ring is a circular list;
      an element that is on neither has no links. */
  ghost predicate Linked(a: Arena, order: seq<Value>, defer: map<Key, seq<Value>>)
    requires Closed(a) && IdsOk(a.elems, order, defer)
    reads a.frame`next, a.frame`prev
  {
    && Circular(ListRing(a, order))
    && (forall k {:trigger defer[k]} :: k in defer ==> Circular(Nodes(a.elems, defer[k])))
    && (forall v {:trigger a.elems[v]} :: v in a.elems ==>
          v in order || OnRing(defer, a.elems[v].key, v)
          || (a.elems[v].next == null && a.elems[v].prev == null))
  }

  /** An element is filed under its address; no live element has the dummy's. */
  ghost predicate Named(a: Arena) {
    a.head.value == NULLPTR && NULLPTR !in a.elems
    && forall v {:trigger a.elems[v]} :: v in a.elems ==> a.elems[v].value == v
  }

  ghost predicate ElemsOk(a: Arena, entries: map<Value, Entry>)
    requires Closed(a)
    reads a.frame`pin, a.frame`units, a.frame`lastUse
  {
    && a.elems.Keys == entries.Keys
    && (forall v {:trigger a.elems[v]} :: v in a.elems ==>
          var e := a.elems[v];
          Entry(e.key, e.pin, e.units, e.lastUse) == entries[v])
  }

  /** Each deferred ring is entered through its first element. */
  ghost predicate HeadsOk(heads: map<Key, Elem>, elems: map<Value, Elem>, rings: map<Key, seq<Value>>) {
    && heads.Keys == rings.Keys
    && (forall k {:trigger heads[k]} {:trigger rings[k]} :: k in heads ==>
          rings[k] != [] && rings[k][0] in rings[k] && rings[k][0] in elems
          && heads[k] == elems[rings[k][0]])
  }

  ghost predicate TableOk(table: map<Key, Elem>, elems: map<Value, Elem>, values: map<Key, Value>) {
    && table.Keys == values.Keys
    && (forall k {:trigger table[k]} {:trigger values[k]} :: k in table ==>
          values[k] in elems && table[k] == elems[values[k]])
  }

  lemma {:induction false} NodesShrink(elems: map<Value, Elem>, fewer: map<Value, Elem>, ids: seq<Value>)
    requires forall v :: v in ids ==> v in elems && v in fewer && fewer[v] == elems[v]
    ensures Nodes(fewer, ids) == Nodes(elems, ids)
  {
    if ids != [] { NodesShrink(elems, fewer, ids[1..]); }
  }

  /** Forgetting an element that is on no list. */
  lemma LinkedForget(a: Arena, order: seq<Value>, defer: map<Key, seq<Value>>, v: Value)
    requires Closed(a) && IdsOk(a.elems, order, defer) && Linked(a, order, defer)
    requires v in a.elems && v !in order && !OnRing(defer, a.elems[v].key, v)
    ensures Closed(a.(elems := a.elems - {v})) && IdsOk(a.elems - {v}, order, defer)
    ensures Linked(a.(elems := a.elems - {v}), order, defer)
  {
    hide Circular, Nodes;
    var fewer := a.elems - {v};
    NodesShrink(a.elems, fewer, order);
    forall k | k in defer ensures Nodes(fewer, defer[k]) == Nodes(a.elems, defer[k]) {
      NodesShrink(a.elems, fewer, defer[k]);
    }
  }

  twostate lemma CircularUnchanged(r: seq<Elem>)
    requires old(Circular(r))
    requires forall e {:trigger e.next} {:trigger e.prev} :: e in r ==>
               e.next == old(e.next) && e.prev == old(e.prev)
    ensures Circular(r)
  {
  }

  /** The lists of a cache before and after an element moved.  (One parameter, so that the
      two-state lemmas below can be called.) */
  datatype Move = Move(a: Arena, order: seq<Value>, order': seq<Value>,
                       defer: map<Key, seq<Value>>, defer': map<Key, seq<Value>>, k: Key)
  {
    ghost predicate Ids() {
      Closed(a) && IdsOk(a.elems, order, defer) && IdsOk(a.elems, order', defer')
    }

    /** v is on a list that may have changed. */
    ghost predicate Involved(v: Value) {
      if order == order' then OnRing(defer, k, v) || OnRing(defer', k, v)
      else v in order || v in order'
    }

    /** v has left its list. */
    ghost predicate Departed(v: Value) {
      if order == order' then OnRing(defer, k, v) && !OnRing(defer', k, v)
      else v in order && v !in order'
    }
  }

  /** A change of links confined to the recency list. */
  twostate lemma OrderRelinked(m: Move)
    requires m.Ids() && m.order != m.order' && m.defer' == m.defer
    requires old(Linked(m.a, m.order, m.defer))
    requires Circular(ListRing(m.a, m.order'))
    requires forall u {:trigger m.a.elems[u]} :: u in m.a.elems && !m.Involved(u) ==>
               m.a.elems[u].next == old(m.a.elems[u].next) && m.a.elems[u].prev == old(m.a.elems[u].prev)
    requires forall u {:trigger m.Departed(u)} :: m.Departed(u) ==>
               m.a.elems[u].next == null && m.a.elems[u].prev == null
    ensures Linked(m.a, m.order', m.defer)
  {
    hide Circular;
    forall k | k in m.defer ensures Circular(Nodes(m.a.elems, m.defer[k])) {
      var r := Nodes(m.a.elems, m.defer[k]);
      forall e | e in r ensures e.next == old(e.next) && e.prev == old(e.prev) {
        var i :| 0 <= i < |r| && r[i] == e;
        assert m.defer[k][i] in m.defer[k];
      }
      CircularUnchanged(r);
    }
    forall u | u in m.a.elems
      ensures u in m.order' || OnRing(m.defer, m.a.elems[u].key, u)
              || (m.a.elems[u].next == null && m.a.elems[u].prev == null)
    {
      assert m.Departed(u) || u !in m.order || u in m.order';
    }
  }

  twostate lemma OrderUntouched(m: Move)
    requires m.Ids() && m.order == m.order'
    requires old(Circular(ListRing(m.a, m.order)))
    requires m.a.head.next == old(m.a.head.next) && m.a.head.prev == old(m.a.head.prev)
    requires forall u {:trigger m.a.elems[u]} :: u in m.a.elems && !m.Involved(u) ==>
               m.a.elems[u].next == old(m.a.elems[u].next) && m.a.elems[u].prev == old(m.a.elems[u].prev)
    ensures Circular(ListRing(m.a, m.order))
  {
    hide Circular;
    var main := ListRing(m.a, m.order);
    forall e | e in main ensures e.next == old(e.next) && e.prev == old(e.prev) {
      var i :| 0 <= i < |main| && main[i] == e;
      if i > 0 {
        assert m.order[i - 1] in m.order;
      }
    }
    CircularUnchanged(main);
  }

  twostate lemma OtherRingsUntouched(m: Move)
    requires m.Ids() && m.order == m.order'
    requires forall j {:trigger m.defer[j]} :: j in m.defer ==> old(Circular(Nodes(m.a.elems, m.defer[j])))
    requires forall u {:trigger m.a.elems[u]} :: u in m.a.elems && !m.Involved(u) ==>
               m.a.elems[u].next == old(m.a.elems[u].next) && m.a.elems[u].prev == old(m.a.elems[u].prev)
    ensures forall j {:trigger m.defer[j]} :: j in m.defer && j != m.k ==>
              Circular(Nodes(m.a.elems, m.defer[j]))
  {
    hide Circular;
    forall j | j in m.defer && j != m.k ensures Circular(Nodes(m.a.elems, m.defer[j])) {
      var r := Nodes(m.a.elems, m.defer[j]);
      forall e | e in r ensures e.next == old(e.next) && e.prev == old(e.prev) {
        var i :| 0 <= i < |r| && r[i] == e;
        assert m.defer[j][i] in m.defer[j];
        assert !m.Involved(m.defer[j][i]);
      }
      CircularUnchanged(r);
    }
  }

  /** A change of links confined to the deferred ring of k. */
  twostate lemma RingRelinked(m: Move)
    requires m.Ids() && m.order == m.order'
    requires old(Linked(m.a, m.order, m.defer))
    requires m.k in m.defer' ==> Circular(Nodes(m.a.elems, m.defer'[m.k]))
    requires forall j :: j != m.k ==> (j in m.defer' <==> j in m.defer)
    requires forall j :: j != m.k && j in m.defer ==> m.defer'[j] == m.defer[j]
    requires m.a.head.next == old(m.a.head.next) && m.a.head.prev == old(m.a.head.prev)
    requires forall u {:trigger m.a.elems[u]} :: u in m.a.elems && !m.Involved(u) ==>
               m.a.elems[u].next == old(m.a.elems[u].next) && m.a.elems[u].prev == old(m.a.elems[u].prev)
    requires forall u {:trigger m.Departed(u)} :: m.Departed(u) ==>
               m.a.elems[u].next == null && m.a.elems[u].prev == null
    ensures Linked(m.a, m.order, m.defer')
  {
    hide Circular, Nodes, ListRing;
    OrderUntouched(m);
    OtherRingsUntouched(m);
    forall j | j in m.defer' ensures Circular(Nodes(m.a.elems, m.defer'[j])) {
      assert j != m.k ==> j in m.defer && m.defer'[j] == m.defer[j];
    }
    forall u | u in m.a.elems
      ensures u in m.order || OnRing(m.defer', m.a.elems[u].key, u)
              || (m.a.elems[u].next == null && m.a.elems[u].prev == null)
    {
      assert m.Departed(u) || OnRing(m.defer', m.k, u) || !OnRing(m.defer, m.k, u);
    }
  }

  // ----- reading the invariant

  lemma LinkedRing(a: Arena, order: seq<Value>, defer: map<Key, seq<Value>>)
    requires Closed(a) && IdsOk(a.elems, order, defer) && Linked(a, order, defer)
    ensures Circular(ListRing(a, order))
  {
  }

  lemma LinkedLoose(a: Arena, order: seq<Value>, defer: map<Key, seq<Value>>, v: Value)
    requires Closed(a) && IdsOk(a.elems, order, defer) && Linked(a, order, defer)
    requires v in a.elems && v !in order && !OnRing(defer, a.elems[v].key, v)
    ensures a.elems[v].next == null && a.elems[v].prev == null
  {
  }

  lemma OrderIsDistinct(a: Arena, order: seq<Value>, defer: map<Key, seq<Value>>)
    requires Closed(a) && IdsOk(a.elems, order, defer) && Linked(a, order, defer)
    ensures P.Distinct(order)
  {
    var r := ListRing(a, order);
    forall i, j | 0 <= i < j < |order| ensures order[i] != order[j] {
      assert r[i + 1] != r[j + 1];
      assert order[i] in order && order[j] in order;
    }
  }

  lemma {:induction false} NodesConcat(elems: map<Value, Elem>, p: seq<Value>, q: seq<Value>)
    requires forall v :: v in p + q ==> v in elems
    requires forall v :: v in p ==> v in elems
    requires forall v :: v in q ==> v in elems
    ensures Nodes(elems, p + q) == Nodes(elems, p) + Nodes(elems, q)
  {
  }

  lemma {:induction false} NodesWithout(elems: map<Value, Elem>, ids: seq<Value>, i: nat)
    requires forall v :: v in ids ==> v in elems
    requires i < |ids| && P.Distinct(ids)
    requires forall v :: v in Without(ids, ids[i]) ==> v in elems
    ensures Nodes(elems, Without(ids, ids[i])) == Nodes(elems, ids)[..i] + Nodes(elems, ids)[i + 1..]
  {
    P.WithoutAt(ids, i);
    hide P.Distinct, Without;
    var p, q := ids[..i], ids[i + 1..];
    assert ids == p + [ids[i]] + q;
    NodesConcat(elems, p, q);
    NodesConcat(elems, p, [ids[i]]);
    NodesConcat(elems, p + [ids[i]], q);
  }

  lemma ConsWithout<T>(h: T, q: seq<T>, i: nat)
    requires i < |q|
    ensures [h] + (q[..i] + q[i + 1..]) == ([h] + q)[..i + 1] + ([h] + q)[i + 2..]
  {
  }

  /** The recency ring without the element at position i of the list. */
  lemma {:induction false} RingWithout(a: Arena, order: seq<Value>, i: nat)
    requires forall v :: v in order ==> v in a.elems
    requires i < |order| && P.Distinct(order)
    requires forall v :: v in Without(order, order[i]) ==> v in a.elems
    ensures ListRing(a, Without(order, order[i])) == ListRing(a, order)[..i + 1] + ListRing(a, order)[i + 2..]
  {
    NodesWithout(a.elems, order, i);
    ConsWithout(a.head, Nodes(a.elems, order), i);
    hide P.Distinct, Without, Nodes;
  }

  /** An element of the recency ring is the dummy head or named by the list. */
  lemma RingMembers(a: Arena, order: seq<Value>)
    requires forall v :: v in order ==> v in a.elems && a.elems[v].value == v
    ensures forall e :: e in ListRing(a, order) ==>
              e == a.head || (e.value in order && a.elems[e.value] == e)
  {
    hide Nodes, ListRing;
    var r := ListRing(a, order);
    forall e | e in r ensures e == a.head || (e.value in order && a.elems[e.value] == e) {
      var i :| 0 <= i < |r| && r[i] == e;
      if i > 0 {
        assert order[i - 1] in order;
      }
    }
  }

  lemma IdsLive(elems: map<Value, Elem>, order: seq<Value>, defer: map<Key, seq<Value>>)
    requires IdsOk(elems, order, defer)
    ensures forall v {:trigger v in order} :: v in order ==> v in elems
    ensures forall k, v {:trigger v in defer[k]} :: k in defer && v in defer[k] ==> v in elems
  {
  }

  lemma {:induction false} IdsWithout(elems: map<Value, Elem>, order: seq<Value>, defer: map<Key, seq<Value>>, v: Value)
    requires IdsOk(elems, order, defer) && P.Distinct(order)
    ensures IdsOk(elems, Without(order, v), defer)
  {
    P.WithoutFacts(order, v);
    hide Without;
    forall u | u in Without(order, v) ensures u in elems { assert u in order; }
  }

  lemma IdsCons(elems: map<Value, Elem>, order: seq<Value>, defer: map<Key, seq<Value>>, v: Value)
    requires IdsOk(elems, order, defer) && v in elems && elems[v].value == v
    requires v !in order && !OnRing(defer, elems[v].key, v)
    ensures IdsOk(elems, [v] + order, defer)
  {
    forall k, u | k in defer && u in defer[k] ensures u != v {
    }
  }

  lemma RingCons(a: Arena, order: seq<Value>, v: Value)
    requires v in a.elems && forall u :: u in order ==> u in a.elems
    requires forall u :: u in [v] + order ==> u in a.elems
    ensures ListRing(a, [v] + order) == [a.head, a.elems[v]] + ListRing(a, order)[1..]
  {
    NodesConcat(a.elems, [v], order);
    hide Nodes;
  }

  lemma IdsAttach(elems: map<Value, Elem>, order: seq<Value>, defer: map<Key, seq<Value>>, k: Key, v: Value)
    requires IdsOk(elems, order, defer) && v in elems && elems[v].key == k
    requires v !in order && !OnRing(defer, k, v)
    ensures IdsOk(elems, order, Attach(defer, k, v))
    ensures forall u :: OnRing(Attach(defer, k, v), k, u) <==> OnRing(defer, k, u) || u == v
    ensures forall j :: j != k ==> (j in Attach(defer, k, v) <==> j in defer)
    ensures forall j :: j != k && j in defer ==> Attach(defer, k, v)[j] == defer[j]
    ensures k in Attach(defer, k, v) && Attach(defer, k, v)[k] != []
    ensures k in defer ==> defer[k] != [] && Attach(defer, k, v)[k][0] == defer[k][0]
    ensures k !in defer ==> Attach(defer, k, v)[k] == [v]
  {
    var d' := Attach(defer, k, v);
    if k in defer {
      var r := defer[k];
      assert r == [r[0]] + r[1..];
      assert d'[k] == [r[0], v] + r[1..];
    }
    forall j, u | j in d' && u in d'[j] ensures u in elems && elems[u].key == j && u !in order {
      assert (j in defer && u in defer[j]) || u == v;
    }
  }

  lemma HeadsAttach(heads: map<Key, Elem>, elems: map<Value, Elem>, rings: map<Key, seq<Value>>, k: Key, v: Value)
    requires HeadsOk(heads, elems, rings) && v in elems
    ensures k in heads <==> k in rings
    ensures k in rings ==>
              rings[k] != [] && heads[k] == elems[rings[k][0]] && HeadsOk(heads, elems, Attach(rings, k, v))
    ensures k !in rings ==> HeadsOk(heads[k := elems[v]], elems, Attach(rings, k, v))
  {
  }

  lemma {:induction false} InFrame(a: Arena, ids: seq<Value>)
    requires Closed(a) && forall v :: v in ids ==> v in a.elems
    ensures forall e :: e in Nodes(a.elems, ids) ==> e in a.frame
  {
    hide Nodes;
    forall e | e in Nodes(a.elems, ids) ensures e in a.frame {
      var i :| 0 <= i < |ids| && Nodes(a.elems, ids)[i] == e;
      assert ids[i] in ids;
    }
  }

  lemma SelfRing(a: Arena, v: Value)
    requires v in a.elems && a.elems[v].next == a.elems[v] && a.elems[v].prev == a.elems[v]
    ensures Circular(Nodes(a.elems, [v]))
  {
  }

  lemma LinkedDeferred(a: Arena, order: seq<Value>, defer: map<Key, seq<Value>>, k: Key)
    requires Closed(a) && IdsOk(a.elems, order, defer) && Linked(a, order, defer)
    requires k in defer
    ensures Circular(Nodes(a.elems, defer[k])) && defer[k] != []
  {
  }

  lemma {:induction false} NodesMembers(elems: map<Value, Elem>, ids: seq<Value>)
    requires forall v :: v in ids ==> v in elems && elems[v].value == v
    ensures forall e :: e in Nodes(elems, ids) ==> e.value in ids && elems[e.value] == e
  {
    hide Nodes;
    forall e | e in Nodes(elems, ids) ensures e.value in ids && elems[e.value] == e {
      var i :| 0 <= i < |ids| && Nodes(elems, ids)[i] == e;
      assert ids[i] in ids;
    }
  }

  lemma {:induction false} NodesAttach(elems: map<Value, Elem>, defer: map<Key, seq<Value>>, k: Key, v: Value)
    requires v in elems && k in defer && defer[k] != []
    requires forall u :: u in defer[k] ==> u in elems
    requires forall u :: u in Attach(defer, k, v)[k] ==> u in elems
    ensures var r := Nodes(elems, defer[k]);
            Nodes(elems, Attach(defer, k, v)[k]) == [r[0], elems[v]] + r[1..]
  {
    var r := defer[k];
    NodesConcat(elems, [r[0]], r[1..]);
    assert r == [r[0]] + r[1..];
    NodesConcat(elems, [r[0], v], r[1..]);
  }

  // ----- the heap against the model

  /** The scalar fields of a cache and its table of deferred rings. */
  datatype Fields = Fields(defer: map<Key, Elem>, units: int, pinnedUnits: int, maxUnits: int,
                           maxIdle: int, lru: bool, removed: multiset<Value>)

  /** The objects and fields, the main table aside, represent the state s. */
  ghost predicate Represents(a: Arena, f: Fields, s: State)
    reads a.frame
  {
    && Closed(a) && Named(a) && ElemsOk(a, s.entries)
    && IdsOk(a.elems, s.order, s.defer) && Linked(a, s.order, s.defer)
    && HeadsOk(f.defer, a.elems, s.defer)
    && f.units == s.units && f.pinnedUnits == s.pinnedUnits && f.maxUnits == s.maxUnits
    && f.maxIdle == s.maxIdle && f.lru == s.lru && f.removed == s.removed
  }

  ghost predicate Fewer(fewer: map<Value, Elem>, elems: map<Value, Elem>) {
    forall v {:trigger fewer[v]} :: v in fewer ==> v in elems && fewer[v] == elems[v]
  }

  ghost predicate Live(a: Arena, e: Elem) {
    e.value in a.elems && a.elems[e.value] == e
  }

  /** e is on neither kind of list. */
  ghost predicate Loose(s: State, e: Elem) {
    e.value !in s.order && !OnRing(s.defer, e.key, e.value)
  }

  lemma ElementFields(a: Arena, f: Fields, s: State, e: Elem)
    requires Represents(a, f, s) && Live(a, e)
    ensures e in a.frame && e.value != NULLPTR
    ensures e.value in s.entries && Entry(e.key, e.pin, e.units, e.lastUse) == s.entries[e.value]
  {
  }

  /** Fields and state move by the same amounts, and nothing else but the table changes. */
  lemma Rescale(a: Arena, f: Fields, s: State, f': Fields, s': State)
    requires Represents(a, f, s) && f'.defer == f.defer
    requires s'.entries == s.entries && s'.order == s.order && s'.defer == s.defer
    requires f'.units - f.units == s'.units - s.units
    requires f'.pinnedUnits - f.pinnedUnits == s'.pinnedUnits - s.pinnedUnits
    requires f'.maxUnits == s'.maxUnits || (f'.maxUnits == f.maxUnits && s'.maxUnits == s.maxUnits)
    requires f'.maxIdle == s'.maxIdle || (f'.maxIdle == f.maxIdle && s'.maxIdle == s.maxIdle)
    requires f'.lru == s'.lru || (f'.lru == f.lru && s'.lru == s.lru)
    requires f'.removed == f.removed && s'.removed == s.removed
    ensures Represents(a, f', s')
  {
  }

  lemma FieldsAgree(a: Arena, f: Fields, s: State)
    requires Represents(a, f, s)
    ensures f.units == s.units && f.pinnedUnits == s.pinnedUnits && f.maxUnits == s.maxUnits
    ensures f.maxIdle == s.maxIdle && f.lru == s.lru && f.removed == s.removed
    ensures f.defer.Keys == s.defer.Keys && a.elems.Keys == s.entries.Keys
  {
  }

  ghost function NodeAt(a: Arena, order: seq<Value>, i: nat): Elem
    requires i <= |order| && (i > 0 ==> order[i - 1] in a.elems)
  {
    if i == 0 then a.head else a.elems[order[i - 1]]
  }

  /** Walking the recency list either way from position i, the dummy head being 0. */
  lemma Neighbours(a: Arena, f: Fields, s: State, i: nat)
    requires Represents(a, f, s) && i <= |s.order|
    ensures forall j {:trigger s.order[j]} :: 0 <= j < |s.order| ==> s.order[j] in a.elems
    ensures NodeAt(a, s.order, i) in a.frame
    ensures NodeAt(a, s.order, i).prev == NodeAt(a, s.order, if i == 0 then |s.order| else i - 1)
    ensures NodeAt(a, s.order, i).next == NodeAt(a, s.order, if i == |s.order| then 0 else i + 1)
    ensures NodeAt(a, s.order, i) == a.head <==> i == 0
    ensures i > 0 ==> Live(a, NodeAt(a, s.order, i)) && NodeAt(a, s.order, i).value == s.order[i - 1]
  {
    LinkedRing(a, s.order, s.defer);
    IdsLive(a.elems, s.order, s.defer);
    hide Linked, IdsOk, HeadsOk, ElemsOk, Nodes, ListRing;
    forall j | 0 <= j < |s.order| ensures s.order[j] in a.elems { assert s.order[j] in s.order; }
    var r := ListRing(a, s.order);
    assert r[i] == NodeAt(a, s.order, i);
  }

  lemma TableFound(a: Arena, f: Fields, s: State, table: map<Key, Elem>, k: Key)
    requires Represents(a, f, s) && TableOk(table, a.elems, s.table) && P.Core(s)
    ensures k in table <==> k in s.table
    ensures k in table ==>
              && Live(a, table[k]) && table[k].key == k && table[k].value == s.table[k]
              && table[k].value in s.entries && table[k] in a.frame
  {
    if k in table {
      P.TableEntry(s, k);
    }
    hide P.Core, Linked, IdsOk, HeadsOk;
  }

  lemma TableErased(table: map<Key, Elem>, elems: map<Value, Elem>, s: State, k: Key, elems': map<Value, Elem>)
    requires TableOk(table, elems, s.table) && P.Core(s) && k in s.table
    requires elems' == elems || elems' == elems - {s.table[k]}
    ensures TableOk(table - {k}, elems', s.table - {k})
  {
    hide P.Core;
    forall j | j in s.table && j != k ensures s.table[j] != s.table[k] {
      P.TableEntry(s, j);
      P.TableEntry(s, k);
    }
  }

  lemma ElemsForget(a: Arena, entries: map<Value, Entry>, v: Value)
    requires Closed(a) && Named(a) && ElemsOk(a, entries) && v in a.elems
    ensures Closed(a.(elems := a.elems - {v})) && Named(a.(elems := a.elems - {v}))
    ensures ElemsOk(a.(elems := a.elems - {v}), entries - {v})
  {
  }

  lemma HeadsForget(heads: map<Key, Elem>, a: Arena, order: seq<Value>, rings: map<Key, seq<Value>>, v: Value)
    requires HeadsOk(heads, a.elems, rings) && IdsOk(a.elems, order, rings)
    requires v in a.elems && !OnRing(rings, a.elems[v].key, v)
    ensures HeadsOk(heads, a.elems - {v}, rings)
  {
    forall k | k in heads ensures rings[k][0] != v { assert rings[k][0] in rings[k]; }
  }

  /** Forgetting an element that is on no list. */
  lemma Forget(a: Arena, f: Fields, s: State, e: Elem)
    requires Represents(a, f, s) && Live(a, e) && Loose(s, e)
    ensures e.value in s.entries && e.units == s.entries[e.value].units
    ensures Represents(a.(elems := a.elems - {e.value}),
                       f.(units := f.units - e.units, removed := f.removed + multiset{e.value}),
                       Discard(s, e.value))
  {
    hide Linked, IdsOk, HeadsOk, Named, ElemsOk;
    ElementFields(a, f, s, e);
    LinkedForget(a, s.order, s.defer, e.value);
    ElemsForget(a, s.entries, e.value);
    HeadsForget(f.defer, a, s.order, s.defer, e.value);
  }

  /** e.Unlink() for an element that is on the recency list or on no list. */
  method UnlinkFromOrder(e: Elem, ghost a: Arena, ghost f: Fields, ghost s: State)
    requires Represents(a, f, s) && Live(a, e) && !OnRing(s.defer, e.key, e.value)
    modifies a.frame`next, a.frame`prev
    ensures Represents(a, f, s.(order := Without(s.order, e.value)))
    ensures e.value !in Without(s.order, e.value) && e.next == null && e.prev == null
  {
    hide Circular, Linked, IdsOk, Nodes, ListRing, P.Distinct, Without, HeadsOk, ElemsOk;
    ghost var v, order := e.value, s.order;
    OrderIsDistinct(a, order, s.defer);
    IdsLive(a.elems, order, s.defer);
    RingMembers(a, order);
    IdsWithout(a.elems, order, s.defer, v);
    P.WithoutFacts(order, v);
    ghost var ring: seq<Elem>, i: nat := [], 0;
    if v in order {
      i :| i < |order| && order[i] == v;
      RingWithout(a, order, i);
      ring, i := ListRing(a, order), i + 1;
      LinkedRing(a, order, s.defer);
    } else {
      LinkedLoose(a, order, s.defer, v);
    }
    e.Unlink(ring, i);
    if v in order {
      OrderRelinked(Move(a, order, Without(order, v), s.defer, s.defer, e.key));
    }
  }

  /** e.Link(&head_) for an element that is on no list. */
  method LinkToOrder(e: Elem, head: Elem, ghost a: Arena, ghost f: Fields, ghost s: State)
    requires Represents(a, f, s) && Live(a, e) && Loose(s, e) && head == a.head
    modifies a.frame`next, a.frame`prev
    ensures Represents(a, f, s.(order := [e.value] + s.order))
  {
    hide Circular, Linked, IdsOk, Nodes, ListRing, HeadsOk, ElemsOk;
    IdsLive(a.elems, s.order, s.defer);
    RingMembers(a, s.order);
    IdsCons(a.elems, s.order, s.defer, e.value);
    LinkedRing(a, s.order, s.defer);
    RingCons(a, s.order, e.value);
    e.Link(head, ListRing(a, s.order));
    OrderRelinked(Move(a, s.order, [e.value] + s.order, s.defer, s.defer, e.key));
  }

  /** Starts the deferred ring of a key with e, which is on no list. */
  method StartRing(e: Elem, ghost a: Arena, ghost f: Fields, ghost s: State)
    requires Represents(a, f, s) && Live(a, e) && Loose(s, e) && e.key !in f.defer
    modifies e`next, e`prev
    ensures Represents(a, f.(defer := f.defer[e.key := e]),
                       s.(defer := Attach(s.defer, e.key, e.value)))
  {
    hide Circular, Linked, IdsOk, Nodes, ListRing, Attach, HeadsOk, ElemsOk;
    HeadsAttach(f.defer, a.elems, s.defer, e.key, e.value);
    IdsAttach(a.elems, s.order, s.defer, e.key, e.value);
    e.prev, e.next := e, e;
    SelfRing(a, e.value);
    RingRelinked(Move(a, s.order, s.order, s.defer, Attach(s.defer, e.key, e.value), e.key));
  }

  /** Links e, which is on no list, behind the first element of its key's deferred ring. */
  method JoinRing(e: Elem, first: Elem, ghost a: Arena, ghost f: Fields, ghost s: State)
    requires Represents(a, f, s) && Live(a, e) && Loose(s, e)
    requires e.key in f.defer && first == f.defer[e.key]
    modifies a.frame`next, a.frame`prev
    ensures Represents(a, f, s.(defer := Attach(s.defer, e.key, e.value)))
  {
    hide Circular, Linked, IdsOk, Nodes, ListRing, Attach, HeadsOk, ElemsOk;
    HeadsAttach(f.defer, a.elems, s.defer, e.key, e.value);
    IdsLive(a.elems, s.order, s.defer);
    IdsAttach(a.elems, s.order, s.defer, e.key, e.value);
    LinkedDeferred(a, s.order, s.defer, e.key);
    NodesMembers(a.elems, s.defer[e.key]);
    NodesAttach(a.elems, s.defer, e.key, e.value);
    InFrame(a, s.defer[e.key]);
    e.Link(first, Nodes(a.elems, s.defer[e.key]));
    RingRelinked(Move(a, s.order, s.order, s.defer, Attach(s.defer, e.key, e.value), e.key));
  }

  /** Stores new scalar fields in an element, wherever it is linked. */
  method Update(e: Elem, pin: nat, units: nat, lastUse: int, ghost a: Arena, ghost f: Fields, ghost s: State)
    requires Represents(a, f, s) && Live(a, e)
    modifies e`pin, e`units, e`lastUse
    ensures e.pin == pin && e.units == units && e.lastUse == lastUse
    ensures Represents(a, f, s.(entries := s.entries[e.value := Entry(e.key, pin, units, lastUse)]))
  {
    hide Linked, IdsOk, HeadsOk;
    e.pin, e.units, e.lastUse := pin, units, lastUse;
  }

  lemma AdmitLinks(a: Arena, order: seq<Value>, rings: map<Key, seq<Value>>, e: Elem)
    requires Closed(a) && IdsOk(a.elems, order, rings) && Linked(a, order, rings)
    requires e.value !in a.elems && e.next == null && e.prev == null
    ensures var a' := Arena(a.head, a.elems[e.value := e], a.frame + {e});
            Closed(a') && IdsOk(a'.elems, order, rings) && Linked(a', order, rings)
    ensures e.value !in order && !OnRing(rings, e.key, e.value)
  {
    var more := a.elems[e.value := e];
    IdsLive(a.elems, order, rings);
    assert IdsOk(more, order, rings);
    NodesShrink(a.elems, more, order);
    forall k | k in rings ensures Nodes(more, rings[k]) == Nodes(a.elems, rings[k]) {
      NodesShrink(a.elems, more, rings[k]);
    }
    hide Nodes, Circular;
  }

  /** A new element, on no list yet. */
  lemma Admit(a: Arena, f: Fields, s: State, e: Elem)
    requires Represents(a, f, s) && e.value !in a.elems && e.value != NULLPTR
    requires e.next == null && e.prev == null
    ensures var a' := Arena(a.head, a.elems[e.value := e], a.frame + {e});
            && Live(a', e)
            && Represents(a', f, s.(entries := s.entries[e.value := Entry(e.key, e.pin, e.units, e.lastUse)]))
    ensures Loose(s, e)
  {
    hide Linked, IdsOk;
    AdmitLinks(a, s.order, s.defer, e);
  }

  /** Walking a deferred ring backwards from position j. */
  lemma RingNeighbours(a: Arena, f: Fields, s: State, k: Key, j: nat)
    requires Represents(a, f, s) && k in s.defer && j < |s.defer[k]|
    ensures var r := s.defer[k];
            && k in f.defer && r[0] in a.elems && f.defer[k] == a.elems[r[0]]
            && r[j] in a.elems && Live(a, a.elems[r[j]]) && a.elems[r[j]].value == r[j]
            && a.elems[r[j]].key == k && a.elems[r[j]] in a.frame
            && (var i := if j == 0 then |r| - 1 else j - 1;
                r[i] in a.elems && a.elems[r[j]].prev == a.elems[r[i]])
            && (a.elems[r[j]] == a.elems[r[0]] <==> j == 0)
            && r[j] !in s.order && P.Distinct(r)
  {
    var r := s.defer[k];
    LinkedDeferred(a, s.order, s.defer, k);
    var n := Nodes(a.elems, r);
    forall i | 0 <= i < |r| ensures r[i] in a.elems && a.elems[r[i]].key == k && r[i] !in s.order {
      assert r[i] in r;
    }
    hide Linked, IdsOk, ElemsOk, Nodes;
    assert n[j] == a.elems[r[j]] && n[0] == a.elems[r[0]];
    forall i, i' | 0 <= i < i' < |r| ensures r[i] != r[i'] {
      assert n[i] != n[i'];
    }
  }

  lemma RingExists(a: Arena, f: Fields, s: State, k: Key)
    requires Represents(a, f, s)
    ensures k in f.defer <==> k in s.defer
    ensures k in s.defer ==> s.defer[k] != []
  {
  }

  /** Taking the last element of a ring to its front leaves it the same ring. */
  lemma Rotate(r: seq<Elem>)
    requires Circular(r)
    ensures Circular([r[|r| - 1]] + r[..|r| - 1])
  {
    var q := [r[|r| - 1]] + r[..|r| - 1];
    forall i {:trigger q[i].next} | 0 <= i < |q| - 1 ensures q[i].next == q[i + 1] {
      if i > 0 { assert r[i - 1].next == r[i]; }
    }
    forall i {:trigger q[i].prev} | 1 <= i < |q| ensures q[i].prev == q[i - 1] {
      if i > 1 { assert r[i - 1].prev == r[i - 2]; }
    }
  }

  /** Where the ring of k is entered once its element at position j is gone. */
  ghost function HeadsAfter(heads: map<Key, Elem>, a: Arena, r: seq<Value>, k: Key, j: nat): map<Key, Elem>
    requires j < |r| && r[|r| - 1] in a.elems
  {
    if j > 0 then heads else if |r| == 1 then heads - {k} else heads[k := a.elems[r[|r| - 1]]]
  }

  lemma IdsDetach(elems: map<Value, Elem>, order: seq<Value>, rings: map<Key, seq<Value>>, k: Key, j: nat)
    requires IdsOk(elems, order, rings) && k in rings && j < |rings[k]| && P.Distinct(rings[k])
    ensures var rings' := Detach(rings, k, rings[k][j]);
            && IdsOk(elems, order, rings')
            && (forall u :: OnRing(rings', k, u) <==> OnRing(rings, k, u) && u != rings[k][j])
            && (forall i :: i != k ==> (i in rings' <==> i in rings))
            && (forall i :: i != k && i in rings ==> rings'[i] == rings[i])
            && (k in rings' <==> |rings[k]| > 1)
  {
    P.DetachFacts(rings, k, rings[k][j]);
    var rings' := Detach(rings, k, rings[k][j]);
    hide Detach, P.Distinct;
    forall i, u | i in rings' && u in rings'[i] ensures i in rings && u in rings[i] { }
  }

  lemma HeadsDetach(heads: map<Key, Elem>, a: Arena, rings: map<Key, seq<Value>>, k: Key, j: nat)
    requires HeadsOk(heads, a.elems, rings) && k in rings && j < |rings[k]| && P.Distinct(rings[k])
    requires forall u :: u in rings[k] ==> u in a.elems
    ensures rings[k][|rings[k]| - 1] in a.elems
    ensures HeadsOk(HeadsAfter(heads, a, rings[k], k, j), a.elems, Detach(rings, k, rings[k][j]))
  {
    var r := rings[k];
    assert r[|r| - 1] in r;
    P.WithoutAt(r, j);
    var r' := r[..j] + r[j + 1..];
    if j > 0 {
      assert r'[0] == r[0] && r'[0] in r';
    }
    hide Without;
  }

  /** The nodes of a ring without its element at position j, as Unlink leaves them. */
  /** The ring that is left, as a list. */
  lemma DetachedRing(rings: map<Key, seq<Value>>, k: Key, j: nat)
    requires k in rings && 1 < |rings[k]| && j < |rings[k]| && P.Distinct(rings[k])
    ensures var r := rings[k];
            && k in Detach(rings, k, r[j])
            && Detach(rings, k, r[j])[k] ==
                 if j > 0 then r[..j] + r[j + 1..] else [r[|r| - 1]] + r[1..|r| - 1]
  {
    hide Without;
    var r := rings[k];
    P.WithoutAt(r, j);
  }

  lemma {:induction false} NodesOf(elems: map<Value, Elem>, ids: seq<Value>, i: nat, j: nat)
    requires (forall u :: u in ids ==> u in elems) && i <= j <= |ids|
    ensures forall u :: u in ids[i..j] ==> u in elems
    ensures Nodes(elems, ids[i..j]) == Nodes(elems, ids)[i..j]
  {
    hide Nodes;
  }

  lemma {:induction false} NodesLess(elems: map<Value, Elem>, r: seq<Value>, j: nat)
    requires j < |r| && forall u :: u in r ==> u in elems
    ensures forall u :: u in r[..j] + r[j + 1..] ==> u in elems
    ensures Nodes(elems, r[..j] + r[j + 1..]) == Nodes(elems, r)[..j] + Nodes(elems, r)[j + 1..]
  {
    hide Nodes;
    NodesOf(elems, r, 0, j);
    NodesOf(elems, r, j + 1, |r|);
    NodesConcat(elems, r[..j], r[j + 1..]);
  }

  lemma TurnedIs<T>(n: seq<T>)
    requires |n| > 1
    ensures var q := n[..0] + n[1..]; [q[|q| - 1]] + q[..|q| - 1] == [n[|n| - 1]] + n[1..|n| - 1]
  {
  }

  lemma {:induction false} NodesTurned(elems: map<Value, Elem>, r: seq<Value>)
    requires |r| > 1 && forall u :: u in r ==> u in elems
    ensures forall u :: u in [r[|r| - 1]] + r[1..|r| - 1] ==> u in elems
    ensures var n := Nodes(elems, r); var q := n[..0] + n[1..];
            Nodes(elems, [r[|r| - 1]] + r[1..|r| - 1]) == [q[|q| - 1]] + q[..|q| - 1]
  {
    hide Nodes;
    var n, d := Nodes(elems, r), [r[|r| - 1]] + r[1..|r| - 1];
    TurnedIs(n);
    var t, m := [n[|n| - 1]] + n[1..|n| - 1], Nodes(elems, d);
    forall i | 0 <= i < |m| ensures m[i] == t[i] {
      assert d[i] == r[if i == 0 then |r| - 1 else i] && t[i] == n[if i == 0 then |r| - 1 else i];
    }
  }

  lemma {:induction false} NodesDetach(elems: map<Value, Elem>, rings: map<Key, seq<Value>>, k: Key, j: nat)
    requires k in rings && 1 < |rings[k]| && j < |rings[k]| && P.Distinct(rings[k])
    requires forall u :: u in rings[k] ==> u in elems
    requires k in Detach(rings, k, rings[k][j])
    requires forall u :: u in Detach(rings, k, rings[k][j])[k] ==> u in elems
    ensures var n := Nodes(elems, rings[k]);
            var q := n[..j] + n[j + 1..];
            Nodes(elems, Detach(rings, k, rings[k][j])[k]) ==
              if j > 0 then q else [q[|q| - 1]] + q[..|q| - 1]
  {
    hide Nodes, Detach, P.Distinct;
    DetachedRing(rings, k, j);
    if j > 0 { NodesLess(elems, rings[k], j); } else { NodesTurned(elems, rings[k]); }
  }

  /** What taking position j off the ring of k involves, before any link changes. */
  lemma Unlinking(a: Arena, f: Fields, s: State, k: Key, j: nat)
    requires Represents(a, f, s) && k in s.defer && j < |s.defer[k]| && P.Distinct(s.defer[k])
    requires s.defer[k][j] in a.elems
    ensures forall u :: u in s.defer[k] ==> u in a.elems
    ensures var r := s.defer[k]; var rings := Detach(s.defer, k, r[j]); var n := Nodes(a.elems, r);
            && r[|r| - 1] in a.elems && HeadsOk(HeadsAfter(f.defer, a, r, k, j), a.elems, rings)
            && IdsOk(a.elems, s.order, rings) && Circular(n)
            && (forall e :: e in n ==> e in a.frame && e.value in r && a.elems[e.value] == e)
            && (forall u :: OnRing(rings, k, u) <==> OnRing(s.defer, k, u) && u != r[j])
            && (forall i :: i != k ==> (i in rings <==> i in s.defer))
            && (forall i :: i != k && i in s.defer ==> rings[i] == s.defer[i])
            && (k in rings <==> |r| > 1)
            && (k in rings ==>
                  && (forall u :: u in rings[k] ==> u in a.elems)
                  && var q := n[..j] + n[j + 1..];
                     Nodes(a.elems, rings[k]) == if j > 0 then q else [q[|q| - 1]] + q[..|q| - 1])
  {
    hide Circular, Linked, IdsOk, Nodes, P.Distinct, Detach, HeadsOk, ElemsOk, HeadsAfter;
    var r := s.defer[k];
    IdsLive(a.elems, s.order, s.defer);
    IdsDetach(a.elems, s.order, s.defer, k, j);
    IdsLive(a.elems, s.order, Detach(s.defer, k, r[j]));
    HeadsDetach(f.defer, a, s.defer, k, j);
    LinkedDeferred(a, s.order, s.defer, k);
    NodesMembers(a.elems, r);
    InFrame(a, r);
    if |r| > 1 { NodesDetach(a.elems, s.defer, k, j); }
  }

  /** e.Unlink() for the element at position j of a deferred ring, once the table of rings
      is entered past it. */
  method UnlinkFromRing(e: Elem, ghost k: Key, ghost j: nat, ghost a: Arena, ghost f: Fields, ghost s: State)
    requires Represents(a, f, s) && k in s.defer && j < |s.defer[k]| && P.Distinct(s.defer[k])
    requires s.defer[k][j] in a.elems && e == a.elems[s.defer[k][j]]
    modifies a.frame`next, a.frame`prev
    ensures s.defer[k][|s.defer[k]| - 1] in a.elems
    ensures Represents(a, f.(defer := HeadsAfter(f.defer, a, s.defer[k], k, j)),
                       s.(defer := Detach(s.defer, k, s.defer[k][j])))
    ensures e.next == null && e.prev == null
  {
    hide Circular, Linked, IdsOk, Nodes, P.Distinct, Detach, HeadsOk, ElemsOk, HeadsAfter;
    Unlinking(a, f, s, k, j);
    ghost var rings, n := Detach(s.defer, k, s.defer[k][j]), Nodes(a.elems, s.defer[k]);
    e.Unlink(n, j);
    if |n| > 1 && j == 0 {
      Rotate(n[..j] + n[j + 1..]);
    }
    RingRelinked(Move(a, s.order, s.order, s.defer, rings, k));
  }
}
