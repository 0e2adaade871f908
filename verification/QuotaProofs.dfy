/** What the token-lending protocol keeps, step by step and over whole runs. */
module QuotaProofs {
  import opened QuotaModel
  import opened TimeBasedCounters

  // ----- tokens in slots

  function Total(slots: seq<Slot>): int {
    if slots == [] then 0 else slots[0].available + Total(slots[1..])
  }

  predicate NonNegative(slots: seq<Slot>) {
    forall i :: 0 <= i < |slots| ==> slots[i].available >= 0
  }

  lemma {:induction false} LiveBounds(slots: seq<Slot>, t: int)
    requires NonNegative(slots)
    ensures 0 <= Live(slots, t) <= Total(slots)
  {
    if slots != [] { LiveBounds(slots[1..], t); }
  }

  lemma {:induction false} TotalUpdate(slots: seq<Slot>, i: nat, x: Slot)
    requires i < |slots|
    ensures Total(slots[i := x]) == Total(slots) - slots[i].available + x.available
  {
    if i > 0 {
      assert slots[i := x][1..] == slots[1..][i - 1 := x];
      TotalUpdate(slots[1..], i - 1, x);
    } else {
      assert slots[i := x][1..] == slots[1..];
    }
  }

  lemma {:induction false} Append(slots: seq<Slot>, x: Slot, t: int)
    ensures Total(slots + [x]) == Total(slots) + x.available
    ensures Live(slots + [x], t) == Live(slots, t) + if t < x.expireTime then x.available else 0
  {
    if slots != [] {
      assert (slots + [x])[1..] == slots[1..] + [x];
      Append(slots[1..], x, t);
    }
  }

  /** Substract takes exactly delta tokens if so many are live, and every live token if not;
      what it takes, throws away and leaves adds up to what was there. */
  lemma {:induction false} SubstractExact(slots: seq<Slot>, delta: int, t: int)
    requires NonNegative(slots) && delta >= 0
    ensures var (rest, left, dropped) := Substract(slots, delta, t);
            && rest == Max(0, delta - Live(slots, t))
            && Live(left, t) == Max(0, Live(slots, t) - delta)
            && Total(slots) == Total(left) + dropped + (delta - rest)
            && dropped >= 0 && NonNegative(left)
    decreases |slots|
  {
    LiveBounds(slots, t);
    if slots != [] && delta > 0 {
      var n := slots[0];
      LiveBounds(slots[1..], t);
      if t < n.expireTime {
        var d := if n.available > 0 then Min(n.available, delta) else 0;
        if n.available - d > 0 {
          var left := [n.(available := n.available - d)] + slots[1..];
          assert left[1..] == slots[1..];
        } else {
          SubstractExact(slots[1..], delta - d, t);
        }
      } else {
        SubstractExact(slots[1..], delta, t);
      }
    }
  }

  /** Substract keeps a tail of the slots as they are, but for the first of them, which it may lower. */
  lemma {:induction false} SubstractKeepsTail(slots: seq<Slot>, delta: int, t: int) returns (n: nat)
    ensures var left := Substract(slots, delta, t).1;
            && n <= |slots| && |left| == |slots| - n
            && (forall i :: 0 <= i < |left| ==> left[i].id == slots[n + i].id)
            && (forall i :: 0 < i < |left| ==> left[i] == slots[n + i])
            && (left != [] ==> left[0].available <= slots[n].available
                               && left[0] == slots[n].(available := left[0].available))
    decreases |slots|
  {
    if slots == [] || delta <= 0 {
      n := 0;
    } else {
      var s := slots[0];
      var d := if s.available > 0 then Min(s.available, delta) else 0;
      if t < s.expireTime && s.available - d > 0 {
        n := 0;
      } else {
        var m := SubstractKeepsTail(slots[1..], if t < s.expireTime then delta - d else delta, t);
        n := m + 1;
      }
    }
  }

  // ----- loans

  /** What the outstanding requests have lent. */
  ghost function Loans(requests: multiset<Request>): int
    decreases |requests|
  {
    if requests == multiset{} then 0
    else
      var r :| r in requests;
      Lent(r) + Loans(requests - multiset{r})
  }

  function Lent(r: Request): int { if r.slotId != 0 then r.amount else 0 }

  lemma {:induction false} LoansRemove(requests: multiset<Request>, r: Request)
    requires r in requests
    ensures Loans(requests) == Lent(r) + Loans(requests - multiset{r})
    decreases |requests|
  {
    var q :| q in requests && Loans(requests) == Lent(q) + Loans(requests - multiset{q});
    if q != r {
      LoansRemove(requests - multiset{q}, r);
      LoansRemove(requests - multiset{r}, q);
      assert requests - multiset{q} - multiset{r} == requests - multiset{r} - multiset{q};
    }
  }

  lemma {:induction false} LoansAdd(requests: multiset<Request>, r: Request)
    ensures Loans(requests + multiset{r}) == Lent(r) + Loans(requests)
  {
    LoansRemove(requests + multiset{r}, r);
    assert requests + multiset{r} - multiset{r} == requests;
  }

  // ----- the invariant

  ghost predicate SlotsOk(s: State) {
    && s.capacity > 0 && |s.slots| <= s.capacity && NonNegative(s.slots)
    && (forall i, j :: 0 <= i < j < |s.slots| ==> s.slots[i].id < s.slots[j].id)
    && (forall i :: 0 <= i < |s.slots| ==> 0 < s.slots[i].id <= s.nextSlotId)
  }

  ghost predicate RequestsOk(s: State) {
    && s.inflight == |s.outstanding|
    && (forall r :: r in s.outstanding ==> r.amount >= 0 && r.slotId <= s.nextSlotId)
  }

  /** Every token added is admitted, still in a slot, revoked or dropped; and every token
      added was granted, is on loan, was revoked, or is an overdraft. */
  ghost predicate Balanced(s: State) {
    && s.ledger.added == s.ledger.admitted + Total(s.slots) + s.ledger.revoked + s.ledger.dropped
    && s.ledger.added == s.ledger.settled + Loans(s.outstanding) + s.ledger.revoked + s.ledger.overdraft
    && s.ledger.dropped >= 0
  }

  ghost predicate Inv(s: State) {
    SlotsOk(s) && RequestsOk(s) && Balanced(s)
  }

  lemma InitInv(capacity: nat, lastPrefetch: int)
    requires capacity > 0
    ensures Inv(Init(capacity, lastPrefetch))
  {
  }

  // ----- the pieces of a step

  lemma AddKeepsSlots(s: State, amount: int, expireTime: int)
    requires SlotsOk(s) && amount >= 0
    ensures SlotsOk(Add(s, amount, expireTime))
    ensures Total(Add(s, amount, expireTime).slots) == Total(s.slots) + amount
  {
    Append(s.slots, Slot(amount, expireTime, s.nextSlotId + 1), 0);
  }

  lemma {:induction false} SpendKeepsSlots(s: State, delta: int, t: int)
    requires SlotsOk(s) && delta >= 0
    ensures var (rest, s') := Spend(s, delta, t);
            && SlotsOk(s') && rest == Max(0, delta - Live(s.slots, t))
            && Live(s'.slots, t) == Max(0, Live(s.slots, t) - delta)
            && s'.ledger == s.ledger.(dropped := s'.ledger.dropped) && s'.ledger.dropped >= s.ledger.dropped
            && Total(s.slots) - Total(s'.slots) == s'.ledger.dropped - s.ledger.dropped + delta - rest
            && s' == s.(slots := s'.slots, ledger := s'.ledger)
  {
    SubstractExact(s.slots, delta, t);
    var n := SubstractKeepsTail(s.slots, delta, t);
  }

  lemma PrefetchKeeps(s: State, amount: int, useNotGranted: bool, t: int)
    requires Inv(s) && amount >= 0
    ensures Inv(Prefetch(s, amount, useNotGranted, t))
  {
    hide Loans, Total, SlotsOk;
    var expireTime := t + MAX_EXPIRATION_IN_MS * TICKS_PER_MS;
    if useNotGranted {
      AddKeepsSlots(s, amount, expireTime);
      LoansAdd(s.outstanding, Request(s.nextSlotId + 1, amount));
      SameSlots(Add(s, amount, expireTime), Prefetch(s, amount, true, t));
    } else {
      LoansAdd(s.outstanding, Request(0, amount));
      SameSlots(s, Prefetch(s, amount, false, t));
    }
  }

  lemma SameSlots(s: State, t: State)
    requires SlotsOk(s) && t.slots == s.slots && t.capacity == s.capacity && t.nextSlotId == s.nextSlotId
    ensures SlotsOk(t)
  {
  }

  /** Whatever the options, a prefetch asks for something. */
  lemma WantedIsPositive(s: State, amount: int, t: int, passed: int, o: Options)
    requires SlotsOk(s) && WantsPrefetch(s, amount, t, passed, o)
    ensures Max(amount, Desired(passed, o)) > 0
  {
    CountIsLive(s, t);
    hide SlotsOk, CountAvailable, MustWait;
  }

  lemma AttemptKeeps(s: State, amount: int, t: int, passed: int, o: Options)
    requires Inv(s)
    ensures Inv(AttemptPrefetch(s, amount, t, passed, o))
  {
    if WantsPrefetch(s, amount, t, passed, o) {
      WantedIsPositive(s, amount, t, passed, o);
      hide Inv;
      PrefetchKeeps(s, Max(amount, Desired(passed, o)), CountAvailable(s, t) == 0 && s.mode == OPEN, t);
    }
  }

  lemma {:induction false} CountIsLive(s: State, t: int)
    requires SlotsOk(s)
    ensures 0 <= CountAvailable(s, t) <= Live(s.slots, t)
    ensures |s.slots| < s.capacity ==> CountAvailable(s, t) == Live(s.slots, t)
  {
    LiveBounds(s.slots, t);
  }

  // ----- Check

  /** A check takes exactly its amount or nothing: success lowers the live total by the amount,
      refusal leaves it as the prefetch left it. */
  lemma {:induction false} CheckIsAllOrNothing(s: State, amount: int, t: int, passed: int, o: Options)
    requires Inv(s)
    ensures var before := Live(AttemptPrefetch(s, amount, t, passed, o).slots, t);
            var (s', ok) := Check(s, amount, t, passed, o);
            && Live(s'.slots, t) == (if ok then before - Max(amount, 0) else before)
            && s'.ledger.admitted == (if ok then s.ledger.admitted + Max(amount, 0) else s.ledger.admitted)
            && (ok ==> before >= amount)
  {
    hide AttemptPrefetch, Live, SlotsOk, Spend, Balanced;
    var s1 := AttemptPrefetch(s, amount, t, passed, o);
    AttemptKeeps(s, amount, t, passed, o);
    AttemptAdmitsNothing(s, amount, t, passed, o);
    CountIsLive(s1, t);
    if amount >= 0 { SpendKeepsSlots(s1, amount, t); } else { NothingToSpend(s1, amount, t); }
  }

  /** A check succeeds if and only if the live total covers it, except that for amounts other than
      one nothing counts while the ring is exactly full. */
  lemma {:induction false} CheckSucceedsIff(s: State, amount: int, t: int, passed: int, o: Options)
    requires Inv(s)
    ensures var s1 := AttemptPrefetch(s, amount, t, passed, o);
            Check(s, amount, t, passed, o).1 <==>
            if amount == 1 || |s1.slots| < s1.capacity then Live(s1.slots, t) >= amount else 0 >= amount
  {
    hide AttemptPrefetch, Balanced;
    var s1 := AttemptPrefetch(s, amount, t, passed, o);
    AttemptKeeps(s, amount, t, passed, o);
    CountIsLive(s1, t);
    LiveBounds(s1.slots, t);
    if amount >= 0 { SpendKeepsSlots(s1, amount, t); }
  }

  lemma AttemptAdmitsNothing(s: State, amount: int, t: int, passed: int, o: Options)
    ensures AttemptPrefetch(s, amount, t, passed, o).ledger.admitted == s.ledger.admitted
  {
  }

  lemma CheckKeeps(s: State, amount: int, t: int, passed: int, o: Options)
    requires Inv(s)
    ensures Inv(Check(s, amount, t, passed, o).0)
  {
    hide Loans, AttemptPrefetch, Live, Total, SlotsOk, Spend;
    var s1 := AttemptPrefetch(s, amount, t, passed, o);
    AttemptKeeps(s, amount, t, passed, o);
    CountIsLive(s1, t);
    if amount >= 0 {
      SpendKeepsSlots(s1, amount, t);
      var s2 := Spend(s1, amount, t).1;
      SameSlots(s2, s2.(ledger := s2.ledger.(admitted := s2.ledger.admitted + amount)));
    } else {
      NothingToSpend(s1, amount, t);
      SameSlots(s1, s1.(ledger := s1.ledger.(admitted := s1.ledger.admitted + 0)));
    }
  }

  lemma NothingToSpend(s: State, delta: int, t: int)
    requires delta <= 0
    ensures Spend(s, delta, t) == (delta, s)
  {
  }

  /** In OPEN mode a check for one token is never refused. */
  lemma OpenAdmitsOne(s: State, t: int, passed: int, o: Options)
    requires Inv(s) && s.mode == OPEN
    ensures Check(s, 1, t, passed, o).1
  {
    CountIsLive(s, t);
    var s1 := AttemptPrefetch(s, 1, t, passed, o);
    var amount := Max(1, Desired(passed, o));
    Append(s.slots, Slot(amount, t + MAX_EXPIRATION_IN_MS * TICKS_PER_MS, s.nextSlotId + 1), t);
    assert Live(s1.slots, t) >= 1;
    AttemptKeeps(s, 1, t, passed, o);
    SpendKeepsSlots(s1, 1, t);
  }

  /** In CLOSE mode nothing is lent, and a prefetch starts only when nothing is in flight and
      the wait window since the previous prefetch has passed. */
  lemma CloseWaits(s: State, amount: int, t: int, passed: int, o: Options)
    requires Inv(s) && s.mode == CLOSE
    ensures var s' := Check(s, amount, t, passed, o).0;
            && s'.ledger.added == s.ledger.added && Loans(s'.outstanding) == Loans(s.outstanding)
            && (s'.outstanding != s.outstanding ==>
                  && s.inflight == 0 && ToMs(t - s.lastPrefetch) >= o.closeWaitWindow
                  && s'.lastPrefetch == t && s'.inflight == 1)
  {
    hide Loans, Live, SlotsOk, Balanced, Substract;
    var amount' := Max(amount, Desired(passed, o));
    LoansAdd(s.outstanding, Request(0, amount'));
    assert s.outstanding + multiset{Request(0, amount')} != s.outstanding;
  }

  // ----- OnResponse

  lemma TakeOwnKeeps(s: State, i: nat, delta: int)
    requires SlotsOk(s) && i <= |s.slots| && delta >= 0
    ensures var (more, s') := TakeOwn(s, i, delta);
            && SlotsOk(s') && 0 <= more <= delta && s' == s.(slots := s'.slots)
            && |s'.slots| == |s.slots|
            && Total(s'.slots) == Total(s.slots) - (delta - more)
            && (more > 0 && i < |s.slots| ==> s'.slots[i].available == 0)
  {
    if i < |s.slots| && delta > 0 {
      var d := Min(s.slots[i].available, delta);
      TotalUpdate(s.slots, i, s.slots[i].(available := s.slots[i].available - d));
    }
  }

  /** Revoking delta tokens takes back what is there and books the rest as an overdraft. */
  lemma RevokeKeeps(s: State, i: nat, delta: int, t: int)
    requires SlotsOk(s) && i <= |s.slots| && delta >= 0
    ensures var s' := Revoke(s, i, delta, t);
            && SlotsOk(s') && s' == s.(slots := s'.slots, ledger := s'.ledger)
            && s'.ledger == s.ledger.(revoked := s'.ledger.revoked, dropped := s'.ledger.dropped,
                                      overdraft := s'.ledger.overdraft)
            && (s'.ledger.revoked - s.ledger.revoked) + (s'.ledger.overdraft - s.ledger.overdraft) == delta
            && s'.ledger.dropped >= s.ledger.dropped
            && Total(s.slots) - Total(s'.slots) ==
               (s'.ledger.revoked - s.ledger.revoked) + (s'.ledger.dropped - s.ledger.dropped)
            && 0 <= s'.ledger.overdraft - s.ledger.overdraft <= delta
            && (i < |s.slots| && TakeOwn(s, i, delta).1.slots[i].available > 0 ==>
                  |s'.slots| == |s.slots| && s'.slots == TakeOwn(s, i, delta).1.slots)
  {
    hide Live, SlotsOk, Total, Spend;
    var (more, s1) := TakeOwn(s, i, delta);
    TakeOwnKeeps(s, i, delta);
    if more > 0 {
      SpendKeepsSlots(s1, more, t);
      LiveTotal(s1, t);
    }
    var s' := Revoke(s, i, delta, t);
    SameSlots(if more > 0 then Spend(s1, more, t).1 else s1, s');
  }

  lemma {:induction false} LiveTotal(s: State, t: int)
    requires SlotsOk(s)
    ensures Live(s.slots, t) >= 0
  {
    LiveBounds(s.slots, t);
  }

  lemma ExtendKeeps(s: State, i: nat, expireTime: int)
    requires SlotsOk(s)
    ensures SlotsOk(Extend(s, i, expireTime)) && Total(Extend(s, i, expireTime).slots) == Total(s.slots)
    ensures Extend(s, i, expireTime) == s.(slots := Extend(s, i, expireTime).slots)
  {
    if i < |s.slots| {
      TotalUpdate(s.slots, i, s.slots[i].(expireTime := expireTime));
    }
  }

  /** What an answer changes in the slots and in the ledger. */
  lemma SettleKeeps(s: State, request: Request, granted: int, expireTime: int, t: int)
    requires SlotsOk(s)
    ensures var s' := Settle(s, request, granted, expireTime, t);
            var l, l' := s.ledger, s'.ledger;
            && SlotsOk(s') && s'.nextSlotId >= s.nextSlotId
            && s'.inflight == s.inflight && s'.outstanding == s.outstanding
            && l'.admitted == l.admitted && l'.settled == l.settled && l'.dropped >= l.dropped
            && (l'.added - l.added) + Total(s.slots) ==
               Total(s'.slots) + (l'.revoked - l.revoked) + (l'.dropped - l.dropped)
            && (l'.added - l.added) - (l'.revoked - l.revoked) - (l'.overdraft - l.overdraft) ==
               Settled(request, granted) - Lent(request)
  {
    hide Live, SlotsOk, Total, Revoke, TakeOwn, Extend, FindSlot;
    if request.slotId != 0 {
      var i := FindSlot(s, request.slotId);
      var delta := Max(request.amount - granted, 0);
      TakeOwnKeeps(s, i, delta);
      RevokeKeeps(s, i, delta, t);
      ExtendKeeps(Revoke(s, i, delta, t), i, expireTime);
    } else if granted > 0 {
      AddKeepsSlots(s, granted, expireTime);
    }
  }

  lemma ResponseKeeps(s: State, request: Request, response: int, expiration: int, t: int)
    requires Inv(s) && request in s.outstanding
    ensures Inv(OnResponse(s, request, response, expiration, t))
    ensures OnResponse(s, request, response, expiration, t).mode ==
            if Granted(request, response) == request.amount then OPEN else CLOSE
  {
    hide Live, SlotsOk, Total, Settle, Loans;
    var granted := Granted(request, response);
    var lifetime := if response == -1 then MAX_EXPIRATION_IN_MS else expiration;
    var s1 := s.(inflight := s.inflight - 1, outstanding := s.outstanding - multiset{request});
    LoansRemove(s.outstanding, request);
    SameSlots(s, s1);
    SettleKeeps(s1, request, granted, t + lifetime * TICKS_PER_MS, t);
    var s2 := Settle(s1, request, granted, t + lifetime * TICKS_PER_MS, t);
    SameSlots(s2, OnResponse(s, request, response, expiration, t));
  }

  // ----- whole runs

  /** passed stands for whatever the predict window counts at the time. */
  datatype Step =
    | StepCheck(amount: int, t: int, passed: int)
    | StepResponse(request: Request, response: int, expiration: int, t: int)

  ghost predicate Legal(s: State, step: Step) {
    step.StepResponse? ==> step.request in s.outstanding
  }

  ghost function After(s: State, step: Step, o: Options): State {
    match step
    case StepCheck(amount, t, passed) => Check(s, amount, t, passed, o).0
    case StepResponse(request, response, expiration, t) => OnResponse(s, request, response, expiration, t)
  }

  ghost predicate Reaches(s: State, steps: seq<Step>, o: Options, t: State)
    decreases |steps|
  {
    if steps == [] then s == t
    else Legal(s, steps[0]) && Reaches(After(s, steps[0], o), steps[1..], o, t)
  }

  lemma {:induction false} RunKeeps(s: State, steps: seq<Step>, o: Options, t: State)
    requires Inv(s) && Reaches(s, steps, o, t)
    ensures Inv(t)
    decreases |steps|
  {
    hide Inv, Check, OnResponse;
    if steps != [] {
      match steps[0] {
        case StepCheck(amount, now, passed) => CheckKeeps(s, amount, now, passed, o);
        case StepResponse(request, response, expiration, now) =>
          ResponseKeeps(s, request, response, expiration, now);
      }
      RunKeeps(After(s, steps[0], o), steps[1..], o, t);
    }
  }

  /** Over every interleaving of checks and answers no token is invented or lost, so that
      what was admitted never exceeds what was granted plus what is still on loan plus what
      could not be taken back; and the in-flight count is the number of open callbacks. */
  lemma {:induction false} TokensAreConserved(capacity: nat, start: int, steps: seq<Step>, o: Options, s: State)
    requires capacity > 0
    requires Reaches(Init(capacity, start), steps, o, s)
    ensures var l := s.ledger;
            && l.added == l.admitted + Total(s.slots) + l.revoked + l.dropped
            && l.added == l.settled + Loans(s.outstanding) + l.revoked + l.overdraft
            && l.admitted <= l.settled + Loans(s.outstanding) + l.overdraft
    ensures s.inflight == |s.outstanding|
  {
    InitInv(capacity, start);
    RunKeeps(Init(capacity, start), steps, o, s);
    LiveBounds(s.slots, 0);
    hide Reaches, Loans;
  }

  /** The modes over whole runs: in OPEN mode one token is always to be had; in CLOSE mode nothing is
      lent, and a prefetch waits for every answer and for the wait window. */
  lemma {:induction false} ModesOverRuns(capacity: nat, start: int, steps: seq<Step>, o: Options, s: State, amount: int,
                                         t: int, passed: int)
    requires capacity > 0
    requires Reaches(Init(capacity, start), steps, o, s)
    ensures s.mode == OPEN ==> Check(s, 1, t, passed, o).1
    ensures s.mode == CLOSE ==>
              var s' := Check(s, amount, t, passed, o).0;
              && s'.ledger.added == s.ledger.added && Loans(s'.outstanding) == Loans(s.outstanding)
              && (s'.outstanding != s.outstanding ==>
                    s.outstanding == multiset{} && ToMs(t - s.lastPrefetch) >= o.closeWaitWindow)
  {
    hide Check, Reaches, Loans, SlotsOk, Balanced;
    InitInv(capacity, start);
    RunKeeps(Init(capacity, start), steps, o, s);
    if s.mode == OPEN {
      OpenAdmitsOne(s, t, passed, o);
    } else {
      CloseWaits(s, amount, t, passed, o);
    }
  }
}
