/** The sliding-window counter of prefetch/time_based_counter.cc: a ring of slot sums that
    refines the log of all increments. */
module TimeBasedCounters {

  /** Ticks of the system clock in a millisecond; the proofs only use that it is positive. */
  const TICKS_PER_MS: int := 1_000_000

  const UINT32_RANGE: int := 0x1_0000_0000

  datatype Event = Event(amount: int, time: int)

  /** What was counted in the half-open interval [from, to). */
  ghost function SumBetween(log: seq<Event>, from: int, to: int): int {
    if log == [] then 0
    else
      var e := log[|log| - 1];
      SumBetween(log[..|log| - 1], from, to) + if from <= e.time < to then e.amount else 0
  }

  /** What was counted at or after a cutoff. */
  ghost function SumSince(log: seq<Event>, cutoff: int): int {
    if log == [] then 0
    else
      var e := log[|log| - 1];
      SumSince(log[..|log| - 1], cutoff) + if cutoff <= e.time then e.amount else 0
  }

  lemma {:induction false} SumSplit(log: seq<Event>, from: int, mid: int, to: int)
    requires from <= mid <= to
    ensures SumBetween(log, from, to) == SumBetween(log, from, mid) + SumBetween(log, mid, to)
  {
    if log != [] { SumSplit(log[..|log| - 1], from, mid, to); }
  }

  lemma {:induction false} SumUpTo(log: seq<Event>, cutoff: int, end: int)
    requires forall i :: 0 <= i < |log| ==> log[i].time < end
    ensures SumSince(log, cutoff) == SumBetween(log, cutoff, end)
  {
    if log != [] { SumUpTo(log[..|log| - 1], cutoff, end); }
  }

  lemma {:induction false} NothingBetween(log: seq<Event>, from: int, to: int)
    requires forall i :: 0 <= i < |log| ==> !(from <= log[i].time < to)
    ensures SumBetween(log, from, to) == 0
  {
    if log != [] { NothingBetween(log[..|log| - 1], from, to); }
  }

  lemma {:induction false} SumAppend(log: seq<Event>, e: Event, from: int, to: int)
    ensures SumBetween(log + [e], from, to) ==
            SumBetween(log, from, to) + if from <= e.time < to then e.amount else 0
    ensures SumSince(log + [e], from) == SumSince(log, from) + if from <= e.time then e.amount else 0
  {
    assert (log + [e])[..|log|] == log;
  }

  /** Dividing by milliseconds and then by the slot is dividing by the slot's ticks. */
  lemma SlotsPassed(ticks: int, slot: int)
    requires ticks >= 0 && slot >= 1
    ensures var n := ticks / TICKS_PER_MS / slot;
            n >= 0 && n * (slot * TICKS_PER_MS) <= ticks < (n + 1) * (slot * TICKS_PER_MS)
  {
    var m := ticks / TICKS_PER_MS;
    var n := m / slot;
    assert n * slot <= m < (n + 1) * slot;
    assert n * (slot * TICKS_PER_MS) == (n * slot) * TICKS_PER_MS;
    assert (n + 1) * (slot * TICKS_PER_MS) == ((n + 1) * slot) * TICKS_PER_MS;
  }

  lemma Fewer(n: int, m: int, w: int)
    requires w > 0 && n * w < m * w
    ensures n < m
  {
  }

  lemma FewSlots(ticks: int, slot: int)
    requires slot >= 1 && 0 <= ticks < UINT32_RANGE * (slot * TICKS_PER_MS)
    ensures ticks / TICKS_PER_MS / slot < UINT32_RANGE
  {
    SlotsPassed(ticks, slot);
    Fewer(ticks / TICKS_PER_MS / slot, UINT32_RANGE, slot * TICKS_PER_MS);
  }

  /** An event of the newest slot counts for no other. */
  lemma SlotGains(log: seq<Event>, e: Event, newest: int, age: nat, w: int)
    requires w > 0 && newest <= e.time < newest + w
    ensures SumBetween(log + [e], newest - age * w, newest - age * w + w) ==
            SumBetween(log, newest - age * w, newest - age * w + w) + if age == 0 then e.amount else 0
  {
    SumAppend(log, e, newest - age * w, newest - age * w + w);
    if age > 0 { Multiples(age, 1, w); }
  }

  lemma WindowGains(log: seq<Event>, e: Event, newest: int, size: nat, w: int)
    requires w > 0 && newest <= e.time < newest + w && size > 0
    ensures SumBetween(log + [e], newest - (size - 1) * w, newest + w) ==
            SumBetween(log, newest - (size - 1) * w, newest + w) + e.amount
  {
    SumAppend(log, e, newest - (size - 1) * w, newest + w);
    Multiples(size - 1, 0, w);
  }

  lemma NothingInWindow(log: seq<Event>, newest: int, size: nat, w: int)
    requires w > 0 && size > 0 && forall i :: 0 <= i < |log| ==> log[i].time < newest - (size - 1) * w
    ensures SumBetween(log, newest - (size - 1) * w, newest + w) == 0
    ensures forall age: nat :: age < size ==> SumBetween(log, newest - age * w, newest - age * w + w) == 0
  {
    NothingBetween(log, newest - (size - 1) * w, newest + w);
    forall age: nat | age < size ensures SumBetween(log, newest - age * w, newest - age * w + w) == 0 {
      Multiples(size - 1, age, w);
      NothingBetween(log, newest - age * w, newest - age * w + w);
    }
  }

  class TimeBasedCounter {
    var slots: array<int>
    const slotDuration: int   // in milliseconds
    var count: int
    var tail: nat
    var lastTime: int         // start of the newest slot

    ghost var log: seq<Event>
    ghost var latest: int     // the time of the last call

    /** Ticks in a slot. */
    ghost function Width(): int { slotDuration * TICKS_PER_MS }

    /** Where the sum of the slot `age` slots back is kept. */
    ghost function Index(age: nat): nat
      reads `tail, `slots
      requires tail < slots.Length && age < slots.Length
    {
      if age <= tail then tail - age else tail - age + slots.Length
    }

    /** The start of the oldest slot. */
    ghost function Cutoff(): int
      reads `lastTime, `slots
    {
      lastTime - (slots.Length - 1) * Width()
    }

    ghost predicate Shape()
      reads this
    {
      && slotDuration >= 1 && tail < slots.Length
      && (forall i :: 0 <= i < |log| ==> log[i].time <= latest)
    }

    /** The clock has not run backwards, nor past what the slot number can hold. */
    ghost predicate InTime(t: int)
      reads `lastTime, `latest
    {
      slotDuration >= 1 && latest <= t && (t - lastTime) / TICKS_PER_MS / slotDuration < UINT32_RANGE
    }

    /** A call is in time if it comes before the slot number runs over. */
    lemma SoonIsInTime(t: int)
      requires Valid() && latest <= t < latest + (UINT32_RANGE - 1) * Width()
      ensures InTime(t)
    {
      FewSlots(t - lastTime, slotDuration);
    }

    /** Every slot holds what was counted in its interval, and count their total. */
    ghost predicate SumsOk()
      reads `slots, `count, `tail, `lastTime, `log, slots
      requires tail < slots.Length
    {
      && (forall age: nat {:trigger Index(age)} :: age < slots.Length ==>
            slots[Index(age)] == SumBetween(log, lastTime - age * Width(), lastTime - age * Width() + Width()))
      && count == SumBetween(log, Cutoff(), lastTime + Width())
    }

    ghost predicate Valid()
      reads this, slots
    {
      Shape() && lastTime <= latest < lastTime + Width() && SumsOk()
    }

    constructor (windowSize: nat, duration: int, t: int)
      requires windowSize > 0 && duration >= windowSize
      ensures Valid() && fresh(slots) && slots.Length == windowSize && slotDuration == duration / windowSize
      ensures log == [] && latest == t
    {
      slots := new int[windowSize](_ => 0);
      slotDuration := duration / windowSize;
      count, tail, lastTime, log, latest := 0, 0, t, [], t;
      new;
    }

    /** Everything counted so far has left the window. */
    method Clear(t: int)
      requires Shape() && latest < t - (slots.Length - 1) * Width()
      modifies this`lastTime, this`tail, this`count, slots
      ensures Shape() && lastTime == t && SumsOk()
    {
      lastTime := t;
      for i := 0 to slots.Length
        invariant forall j :: 0 <= j < i ==> slots[j] == 0
        invariant tail < slots.Length
        modifies slots
      {
        slots[i] := 0;
      }
      tail, count := 0, 0;
      hide SumBetween;
      NothingInWindow(log, t, slots.Length, Width());
    }

    /** Opens the next slot in the place of the oldest one. */
    method Advance()
      requires Shape() && SumsOk()
      requires forall i :: 0 <= i < |log| ==> log[i].time < lastTime + Width()
      modifies this`tail, this`count, this`lastTime, slots
      ensures Shape() && SumsOk() && lastTime == old(lastTime) + Width()
    {
      hide SumBetween;
      ghost var size, w, start := slots.Length, Width(), lastTime;
      WindowMoves(log, size, w, start);
      ghost var before := slots[..];
      Wrap(tail, size);
      assert Index(size - 1) == (tail + 1) % size;
      tail := (tail + 1) % slots.Length;
      count := count - slots[tail];
      slots[tail] := 0;
      lastTime := lastTime + slotDuration * TICKS_PER_MS;
      forall age: nat | age < size
        ensures slots[Index(age)] == SumBetween(log, lastTime - age * w, lastTime - age * w + w)
      {
        if age > 0 {
          Times(age, w);
          assert slots[Index(age)] == before[Index(age)];
          assert Index(age) == old(Index(age - 1));
        }
      }
    }

    /** How many slots have passed up to t. */
    method SlotsToRoll(t: int) returns (n: nat)
      requires Valid() && InTime(t)
      ensures n * Width() <= t - lastTime < (n + 1) * Width() && latest <= t
      ensures (t - lastTime) / Width() == n
    {
      hide SumsOk;
      var d := (t - lastTime) / TICKS_PER_MS;
      n := (d / slotDuration) % UINT32_RANGE;   // the narrowing to uint32_t
      SlotsPassed(t - lastTime, slotDuration);
      Quotient(t - lastTime, Width(), n);
    }

    /** Roll moves the window so that its newest slot contains t. */
    method Roll(t: int)
      requires Valid() && InTime(t)
      modifies this`lastTime, this`tail, this`count, this`latest, slots
      ensures Valid() && latest == t
      ensures lastTime == if t - old(lastTime) >= slots.Length * Width() then t
                          else old(lastTime) + (t - old(lastTime)) / Width() * Width()
    {
      hide SumsOk, InTime;
      ghost var w, start := Width(), lastTime;
      var n := SlotsToRoll(t);
      if n >= slots.Length {
        Multiples(n, slots.Length, w);
        Times(slots.Length, w);
        Clear(t);
        latest := t;
        return;
      }
      Multiples(slots.Length, n + 1, w);
      for i := 0 to n
        invariant Shape() && SumsOk() && lastTime == start + i * w && latest == old(latest)
        invariant latest < lastTime + w
        modifies this`lastTime, this`tail, this`count, slots
      {
        Times(i + 1, w);
        Advance();
      }
      latest := t;
    }

    /** Add n to the count of the present slot. */
    method Inc(n: int, t: int)
      requires Valid() && InTime(t)
      modifies this`lastTime, this`tail, this`count, this`latest, this`log, slots
      ensures Valid() && latest == t && log == old(log) + [Event(n, t)]
      ensures Cutoff() == old(CutoffAt(t))
    {
      hide SumBetween, InTime;
      Roll(t);
      ghost var e, w, before := Event(n, t), Width(), slots[..];
      slots[tail] := slots[tail] + n;
      count := count + n;
      forall age: nat | age < slots.Length
        ensures slots[Index(age)] ==
                SumBetween(log + [e], lastTime - age * w, lastTime - age * w + w)
      {
        SlotGains(log, e, lastTime, age, w);
        if age > 0 { assert slots[Index(age)] == before[Index(age)]; }
      }
      WindowGains(log, e, lastTime, slots.Length, w);
      log := log + [e];
    }

    /** The cutoff of a count taken at t: the start of the oldest slot after rolling. */
    ghost function CutoffAt(t: int): int
      reads `lastTime, `slots
      requires slotDuration >= 1
    {
      var size, w := slots.Length, Width();
      (if t - lastTime >= size * w then t else lastTime + (t - lastTime) / w * w) - (size - 1) * w
    }

    /** The count is exactly what was counted at or after a cutoff that lies between
        size - 1 and size slots before t. */
    method Count(t: int) returns (r: int)
      requires Valid() && InTime(t)
      modifies this`lastTime, this`tail, this`count, this`latest, slots
      ensures Valid() && latest == t
      ensures r == SumSince(log, old(CutoffAt(t))) && Cutoff() == old(CutoffAt(t))
      ensures t - slots.Length * Width() < Cutoff() <= t - (slots.Length - 1) * Width()
    {
      hide SumBetween, SumSince;
      Roll(t);
      r := count;
      SumUpTo(log, Cutoff(), lastTime + Width());
      Times(slots.Length, Width());
    }
  }

  /** What leaves and what enters the window when it moves by one slot. */
  lemma WindowMoves(log: seq<Event>, size: int, w: int, start: int)
    requires size >= 1 && w >= 1
    requires forall i :: 0 <= i < |log| ==> log[i].time < start + w
    ensures var oldest := start - (size - 1) * w;
            && SumBetween(log, start + w, start + w + w) == 0
            && SumBetween(log, oldest + w, start + w + w) ==
               SumBetween(log, oldest, start + w) - SumBetween(log, oldest, oldest + w)
  {
    hide SumBetween;
    var oldest := start - (size - 1) * w;
    NothingBetween(log, start + w, start + w + w);
    SumSplit(log, oldest, oldest + w, start + w);
    SumSplit(log, oldest + w, start + w, start + w + w);
  }

  lemma Wrap(i: nat, n: nat)
    requires i < n
    ensures (i + 1) % n == if i + 1 < n then i + 1 else 0
  {
  }

  lemma Times(k: int, w: int)
    ensures k * w == (k - 1) * w + w
  {
  }

  lemma Multiples(m: int, k: int, w: int)
    requires m >= k && w > 0
    ensures m * w >= k * w
  {
  }

  lemma Quotient(ticks: int, w: int, n: int)
    requires w > 0 && n * w <= ticks < (n + 1) * w
    ensures ticks / w == n
  {
    var q := ticks / w;
    assert q * w <= ticks < q * w + w;
    Times(q + 1, w);
    Times(n + 1, w);
    if q < n {
      Multiples(n, q + 1, w);
    } else if n < q {
      Multiples(q, n + 1, w);
    }
  }
}
