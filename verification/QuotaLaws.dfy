/** What a check and an answer do, told on the fields of the state: when a prefetch is sent and for how much, and
    what becomes of the slots. */
module QuotaLaws {
  import opened QuotaModel
  import opened QuotaProofs
  import opened TimeBasedCounters

  // ----- when a check sends a prefetch

  /** At least w whole milliseconds, counted towards zero. */
  predicate Waited(ticks: int, w: int) {
    if w > 0 then ticks >= w * TICKS_PER_MS else ticks > (w - 1) * TICKS_PER_MS
  }

  /** The live total, as far as it can be seen: nothing of it while the ring is exactly full. */
  function Seen(s: State, t: int): int {
    if |s.slots| == s.capacity then 0 else Live(s.slots, t)
  }

  predicate PrefetchIsDue(s: State, amount: int, t: int, passed: int, o: Options) {
    && (s.mode == OPEN || (s.inflight == 0 && Waited(t - s.lastPrefetch, o.closeWaitWindow)))
    && (Seen(s, t) < amount
        || (s.inflight == 0 && 2 * (Seen(s, t) + 1) <= Max(passed, o.minPrefetchAmount)))
  }

  /** The greatest of the amount, what the predict window counts, and the least amount to prefetch. */
  predicate IsAskedFor(x: int, amount: int, passed: int, o: Options) {
    && x >= amount && x >= passed && x >= o.minPrefetchAmount
    && (x == amount || x == passed || x == o.minPrefetchAmount)
  }

  predicate IsLent(s: State, t: int) {
    s.mode == OPEN && Seen(s, t) == 0
  }

  /** The slots after the prefetch that is due, if one is: what is lent is a slot more. */
  function SlotsToTake(s: State, t: int, due: bool, x: int): seq<Slot> {
    s.slots + if due && IsLent(s, t) then [Slot(x, t + 60_000 * TICKS_PER_MS, s.nextSlotId + 1)] else []
  }

  lemma WaitedIff(ticks: int, w: int)
    ensures Waited(ticks, w) <==> ToMs(ticks) >= w
  {
  }

  lemma HalfIff(n: int, x: int)
    ensures n >= 0 ==> (n < Half(x) <==> 2 * (n + 1) <= x)
  {
  }

  lemma WantsIff(s: State, amount: int, t: int, passed: int, o: Options)
    requires SlotsOk(s) && s.inflight >= 0
    ensures WantsPrefetch(s, amount, t, passed, o) <==> PrefetchIsDue(s, amount, t, passed, o)
    ensures CountAvailable(s, t) == Seen(s, t)
  {
    hide SlotsOk, Waited, ToMs, Half;
    WaitedIff(t - s.lastPrefetch, o.closeWaitWindow);
    CountIsLive(s, t);
    HalfIff(CountAvailable(s, t), Desired(passed, o));
  }

  /** What is sent from s to t: one request, lent its amount if nothing is to be seen in OPEN mode. */
  predicate Sends(s: State, t: State, now: int, x: int) {
    var lent := IsLent(s, now);
    && t.outstanding == s.outstanding + multiset{Request(if lent then s.nextSlotId + 1 else 0, x)}
    && t.inflight == s.inflight + 1 && t.lastPrefetch == now && t.mode == s.mode
    && t.nextSlotId == s.nextSlotId + (if lent then 1 else 0)
    && t.ledger.added == s.ledger.added + if lent then x else 0
  }

  predicate SendsNothing(s: State, t: State) {
    && t.outstanding == s.outstanding && t.inflight == s.inflight && t.lastPrefetch == s.lastPrefetch
    && t.mode == s.mode && t.nextSlotId == s.nextSlotId && t.ledger.added == s.ledger.added
  }

  /** A check sends one request, for the greatest of the three amounts, if a prefetch is due, and nothing
      otherwise. */
  lemma PrefetchIff(s: State, amount: int, t: int, passed: int, o: Options) returns (x: int)
    requires Inv(s)
    ensures IsAskedFor(x, amount, passed, o)
    ensures var s' := Check(s, amount, t, passed, o).0;
            if PrefetchIsDue(s, amount, t, passed, o) then Sends(s, s', t, x) else SendsNothing(s, s')
  {
    hide AttemptPrefetch, Check, Balanced, PrefetchIsDue, IsLent;
    x := Max(amount, Desired(passed, o));
    AttemptSends(s, amount, t, passed, o, x);
    TakingSendsNothing(s, amount, t, passed, o);
  }

  lemma AttemptSends(s: State, amount: int, t: int, passed: int, o: Options, x: int)
    requires SlotsOk(s) && s.inflight >= 0 && x == Max(amount, Desired(passed, o))
    ensures var s1 := AttemptPrefetch(s, amount, t, passed, o);
            if PrefetchIsDue(s, amount, t, passed, o) then Sends(s, s1, t, x) else SendsNothing(s, s1)
  {
    WantsIff(s, amount, t, passed, o);
    hide SlotsOk, WantsPrefetch, PrefetchIsDue, CountAvailable, Seen;
  }

  lemma TakingSendsNothing(s: State, amount: int, t: int, passed: int, o: Options)
    ensures SendsNothing(AttemptPrefetch(s, amount, t, passed, o), Check(s, amount, t, passed, o).0)
  {
    hide AttemptPrefetch, Substract, CountAvailable;
  }

  // ----- what becomes of the slots

  /** delta tokens are taken from the front, as far as they are live there: slots that are used up or have expired
      go, until delta is reached; the last slot touched keeps what is left in it. */
  ghost predicate Takes(slots: seq<Slot>, left: seq<Slot>, delta: int, t: int, n: nat) {
    && n <= |slots|
    && (delta <= 0 ==> n == 0 && left == slots)
    && (delta > 0 ==>
          var taken := Live(slots[..n], t);
          && taken <= delta && (n > 0 ==> Live(slots[..n - 1], t) < delta)
          && (taken == delta || n == |slots| ==> left == slots[n..])
          && (taken < delta && n < |slots| ==>
                && t < slots[n].expireTime && slots[n].available > delta - taken
                && left == [slots[n].(available := slots[n].available - (delta - taken))] + slots[n + 1..]))
  }

  lemma {:induction false} SubstractTakes(slots: seq<Slot>, delta: int, t: int) returns (n: nat)
    requires NonNegative(slots)
    ensures Takes(slots, Substract(slots, delta, t).1, delta, t, n)
    decreases |slots|
  {
    n := 0;
    if delta > 0 && slots != [] {
      var first := slots[0];
      var d := if t < first.expireTime then Min(first.available, delta) else 0;
      if t >= first.expireTime || first.available == d {
        var m := SubstractTakes(slots[1..], delta - d, t);
        n := m + 1;
        assert slots[..n][1..] == slots[1..][..m];
        if m > 0 { assert slots[..n - 1][1..] == slots[1..][..m - 1]; }
      }
    }
  }

  /** What a check takes: its amount if it succeeds; a check for one token also clears away what has expired. */
  lemma CheckIsExact(s: State, amount: int, t: int, passed: int, o: Options, x: int) returns (n: nat)
    requires Inv(s) && IsAskedFor(x, amount, passed, o)
    ensures var due := PrefetchIsDue(s, amount, t, passed, o);
            var slots := SlotsToTake(s, t, due, x);
            var (s', ok) := Check(s, amount, t, passed, o);
            && (ok <==> amount <= if amount == 1 || |slots| < s'.capacity then Live(slots, t) else 0)
            && Takes(slots, s'.slots, if ok || amount == 1 then amount else 0, t, n)
            && s'.capacity == (if due && IsLent(s, t) && |s.slots| == s.capacity then 2 * s.capacity else s.capacity)
            && s'.ledger.admitted == s.ledger.admitted + if ok && amount > 0 then amount else 0
  {
    hide Live, Takes, Balanced, AttemptPrefetch, PrefetchIsDue, SlotsToTake, IsAskedFor;
    var s1 := AttemptPrefetch(s, amount, t, passed, o);
    AttemptKeeps(s, amount, t, passed, o);
    AttemptIsExact(s, amount, t, passed, o, x);
    CheckSucceedsIff(s, amount, t, passed, o);
    var ok := Check(s, amount, t, passed, o).1;
    n := SubstractTakes(s1.slots, if ok || amount == 1 then amount else 0, t);
    NothingTaken(s1.slots, t);
  }

  lemma {:induction false} NothingTaken(slots: seq<Slot>, t: int)
    ensures Substract(slots, 0, t) == (0, slots, 0)
  {
  }

  lemma AttemptIsExact(s: State, amount: int, t: int, passed: int, o: Options, x: int)
    requires Inv(s) && IsAskedFor(x, amount, passed, o)
    ensures var s1 := AttemptPrefetch(s, amount, t, passed, o);
            var due := PrefetchIsDue(s, amount, t, passed, o);
            && s1.slots == SlotsToTake(s, t, due, x) && s1.ledger.admitted == s.ledger.admitted
            && s1.capacity == (if due && IsLent(s, t) && |s.slots| == s.capacity then 2 * s.capacity else s.capacity)
  {
    hide Live, Balanced, PrefetchIsDue, WantsPrefetch, CountAvailable, Seen;
    WantsIff(s, amount, t, passed, o);
    var none: seq<Slot> := [];
    assert s.slots + none == s.slots;
  }

  // ----- what an answer does

  /** A network failure, -1, grants everything and lasts as long as a loan. */
  lemma GrantIsExact(s: State, request: Request, response: int, expiration: int, t: int)
    requires Inv(s) && request in s.outstanding && request.slotId == 0
    ensures var s' := OnResponse(s, request, response, expiration, t);
            var granted := if response == -1 then request.amount else response;
            var expireTime := t + (if response == -1 then 60_000 else expiration) * TICKS_PER_MS;
            && s'.slots == s.slots + (if granted > 0 then [Slot(granted, expireTime, s.nextSlotId + 1)] else [])
            && s'.nextSlotId == s.nextSlotId + (if granted > 0 then 1 else 0)
            && s'.outstanding == s.outstanding - multiset{request} && s'.inflight == s.inflight - 1
            && s'.lastPrefetch == s.lastPrefetch
            && s'.mode == if granted == request.amount then OPEN else CLOSE
  {
  }

  /** An answer to a loan: its slot, if it is seen, loses what was not granted and expires with the answer if
      something is left in it; what it cannot make good is taken from the front. */
  lemma LoanIsExact(s: State, request: Request, response: int, expiration: int, t: int) returns (i: nat, n: nat)
    requires Inv(s) && request in s.outstanding && request.slotId != 0
    ensures i <= |s.slots|
    ensures if i < |s.slots| then |s.slots| != s.capacity && s.slots[i].id == request.slotId
            else |s.slots| == s.capacity || forall j :: 0 <= j < |s.slots| ==> s.slots[j].id != request.slotId
    ensures var s' := OnResponse(s, request, response, expiration, t);
            var granted := if response == -1 then request.amount else response;
            var expireTime := t + (if response == -1 then 60_000 else expiration) * TICKS_PER_MS;
            var owed := if granted < request.amount then request.amount - granted else 0;
            && (if i == |s.slots| then Takes(s.slots, s'.slots, owed, t, n)
                else if s.slots[i].available > owed then
                  s'.slots == s.slots[i := Slot(s.slots[i].available - owed, expireTime, request.slotId)]
                else
                  Takes(s.slots[i := s.slots[i].(available := 0)], s'.slots, owed - s.slots[i].available, t, n))
            && s'.nextSlotId == s.nextSlotId
            && s'.outstanding == s.outstanding - multiset{request} && s'.inflight == s.inflight - 1
            && s'.lastPrefetch == s.lastPrefetch
            && s'.mode == if granted == request.amount then OPEN else CLOSE
  {
    hide Live, Takes, Balanced, Settle, Loans, FindSlot;
    i := FindSlot(s, request.slotId);
    SlotIsFound(s, request.slotId);
    var granted := if response == -1 then request.amount else response;
    var expireTime := t + (if response == -1 then 60_000 else expiration) * TICKS_PER_MS;
    var s1 := s.(inflight := s.inflight - 1, outstanding := s.outstanding - multiset{request});
    SlotIsFound(s1, request.slotId);
    n := SettleIsExact(s1, request, granted, expireTime, t, i);
  }

  lemma SlotIsFound(s: State, id: nat)
    ensures var i := FindSlot(s, id);
            && (if i < |s.slots| then |s.slots| != s.capacity && s.slots[i].id == id
                else |s.slots| == s.capacity || forall j :: 0 <= j < |s.slots| ==> s.slots[j].id != id)
            && i == FindSlot(s.(inflight := 0, outstanding := multiset{}), id)
  {
  }

  lemma SettleIsExact(s: State, request: Request, granted: int, expireTime: int, t: int, i: nat) returns (n: nat)
    requires NonNegative(s.slots) && request.slotId != 0 && request.amount >= 0
    requires i == FindSlot(s, request.slotId) && (i < |s.slots| ==> s.slots[i].id == request.slotId)
    ensures var s' := Settle(s, request, granted, expireTime, t);
            var owed := if granted < request.amount then request.amount - granted else 0;
            && (if i == |s.slots| then Takes(s.slots, s'.slots, owed, t, n)
                else if s.slots[i].available > owed then
                  s'.slots == s.slots[i := Slot(s.slots[i].available - owed, expireTime, request.slotId)]
                else
                  Takes(s.slots[i := s.slots[i].(available := 0)], s'.slots, owed - s.slots[i].available, t, n))
            && s' == s.(slots := s'.slots, ledger := s'.ledger)
  {
    hide Live, Takes, FindSlot, Substract;
    var owed := if granted < request.amount then request.amount - granted else 0;
    if i == |s.slots| {
      n := SubstractTakes(s.slots, owed, t);
      NothingTaken(s.slots, t);
    } else {
      var own := s.slots[i := s.slots[i].(available := 0)];
      var more := owed - s.slots[i].available;
      if more >= 0 {
        if s.slots[i].available == 0 { assert own == s.slots; }
        n := SubstractTakes(own, more, t);
        NothingTaken(own, t);
      } else {
        n := 0;
      }
    }
  }
}
