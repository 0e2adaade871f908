/** The growable ring buffer of prefetch/circular_queue.h refines a plain FIFO sequence. */
module CircularQueues {

  /** What a function called on each element in turn computes, until it says to stop. */
  function FoldWhile<S, X>(fn: (S, X) -> (S, bool), s: S, q: seq<X>): S
    decreases |q|
  {
    if q == [] then s
    else
      var (s1, more) := fn(s, q[0]);
      if more then FoldWhile(fn, s1, q[1..]) else s1
  }

  /** The index after i in a vector of n nodes. */
  function Next(i: nat, n: nat): (j: nat)
    requires i < n
    ensures j == if i + 1 < n then i + 1 else 0
  {
    (i + 1) % n
  }

  /** A pointer to a node: nullptr or its index in the vector. */
  datatype Pointer = Null | At(index: nat)

  class CircularQueue<T(0)> {
    var nodes: array<T>
    var head: nat
    var tail: nat
    var count: nat

    ghost predicate Valid()
      reads this
    {
      && head < nodes.Length && count <= nodes.Length
      && tail == (if head + count < nodes.Length then head + count else head + count - nodes.Length)
    }

    /** Where the i-th element of the queue sits. */
    function Address(i: nat): (a: nat)
      reads this
      requires Valid() && i < nodes.Length
      ensures a < nodes.Length
    {
      if head + i < nodes.Length then head + i else head + i - nodes.Length
    }

    ghost function Contents(): (q: seq<T>)
      reads this, nodes
      requires Valid()
      ensures |q| == count
      ensures forall i {:trigger q[i]} :: 0 <= i < count ==> q[i] == nodes[Address(i)]
    {
      seq(count, i requires 0 <= i < count reads this, nodes requires Valid() => nodes[Address(i)])
    }

    /** The elements with their addresses, as a T& gives them to a visitor. */
    ghost function References(): (q: seq<(nat, T)>)
      reads this, nodes
      requires Valid()
      ensures |q| == count
      ensures forall i {:trigger q[i]} :: 0 <= i < count ==> q[i] == (Address(i), nodes[Address(i)])
    {
      seq(count, i requires 0 <= i < count reads this, nodes requires Valid() => (Address(i), nodes[Address(i)]))
    }

    /** What Iterate visits: a ring that is exactly full looks empty to it, because the loop
        runs until it meets the tail and the tail is where it starts. */
    ghost function Visited(): seq<(nat, T)>
      reads this, nodes
      requires Valid()
    {
      if count == nodes.Length then [] else References()
    }

    constructor (size: nat)
      requires size > 0
      ensures Valid() && fresh(nodes) && nodes.Length == size && Contents() == []
    {
      nodes := new T[size];
      head, tail, count := 0, 0, 0;
    }

    method Push(v: T)
      requires Valid()
      modifies this, nodes
      ensures Valid() && Contents() == old(Contents()) + [v]
      ensures if old(count) == old(nodes.Length)
              then fresh(nodes) && nodes.Length == 2 * old(nodes.Length)
              else nodes == old(nodes)
    {
      hide Next;
      ghost var q := Contents();
      if head == tail && count > 0 {
        Grow();
      }
      nodes[tail] := v;
      tail := Next(tail, nodes.Length);
      count := count + 1;
      assert forall i :: 0 <= i < |q| ==> Contents()[i] == q[i];
    }

    /** Doubles a full ring.  The elements before the head, and the head's own once more,
        are repeated behind the old end, so that the queue runs on without a break. */
    method Grow()
      requires Valid() && count == nodes.Length
      modifies this`nodes, this`tail
      ensures Valid() && fresh(nodes) && nodes.Length == 2 * old(nodes.Length)
      ensures Contents() == old(Contents())
    {
      var size := nodes.Length;
      var grown := new T[size * 2];
      for i := 0 to size
        invariant forall j :: 0 <= j < i ==> grown[j] == nodes[j]
        modifies grown
      {
        grown[i] := nodes[i];
      }
      for i := 0 to head + 1
        invariant forall j :: 0 <= j < size ==> grown[j] == nodes[j]
        invariant forall j :: size <= j < size + i ==> grown[j] == nodes[j - size]
        modifies grown
      {
        grown[size + i] := grown[i];
      }
      ghost var q := Contents();
      assert forall i :: 0 <= i < size ==> grown[head + i] == q[i];
      nodes := grown;
      tail := tail + size;
    }

    method Pop()
      requires Valid()
      modifies this
      ensures Valid() && nodes == old(nodes)
      ensures Contents() == if old(count) == 0 then [] else old(Contents())[1..]
    {
      hide Next;
      if count == 0 { return; }
      ghost var q := Contents();
      head := Next(head, nodes.Length);
      count := count - 1;
      assert forall i :: 0 <= i < count ==> Contents()[i] == q[i + 1];
    }

    method Head() returns (p: Pointer)
      requires Valid()
      ensures p == if count == 0 then Null else At(Address(0))
    {
      if count == 0 { return Null; }
      return At(head);
    }

    /** A write through a pointer to the i-th element. */
    method Store(p: Pointer, v: T, ghost i: nat)
      requires Valid() && i < count && p == At(Address(i))
      modifies nodes
      ensures Valid() && Contents() == old(Contents())[i := v]
    {
      nodes[p.index] := v;
      assert forall j, k :: 0 <= j < k < count ==> Address(j) != Address(k);
    }

    /** Calls fn on a reference to each element from head to tail, until it returns false. */
    method Iterate<S>(fn: (S, (nat, T)) -> (S, bool), s: S) returns (r: S)
      requires Valid()
      ensures r == FoldWhile(fn, s, Visited())
    {
      hide Next;
      r := s;
      if count == 0 { return; }
      var i := head;
      ghost var k: nat := 0;
      ghost var q := Visited();
      while i != tail
        invariant k <= |q| && FoldWhile(fn, s, q) == FoldWhile(fn, r, q[k..])
        invariant if k == |q| then i == tail else i == Address(k)
        decreases |q| - k
      {
        assert q[k..][0] == (i, nodes[i]) && q[k..][1..] == q[k + 1..];
        var (r1, more) := fn(r, (i, nodes[i]));
        r := r1;
        if !more { return; }
        i := Next(i, nodes.Length);
        k := k + 1;
      }
    }
  }
}
