/** The prefetching quota checker of prefetch/quota_prefetch.cc as a class over the growable
    ring and the sliding-window counter.  Each method computes the function of the same name
    in QuotaModel on the state that Valid ties to the fields. */
module QuotaPrefetch {
  import opened QuotaModel
  import opened CircularQueues
  import opened TimeBasedCounters
  import P = QuotaProofs

  const INIT_QUEUE_SIZE: nat := 10
  const TIME_BASED_WINDOW_SIZE: nat := 20

  type Reference = (nat, Slot)

  // ----- the visitors handed to Iterate

  function Counting(t: int): (int, Reference) -> (int, bool) {
    (available: int, r: Reference) => (if t < r.1.expireTime then available + r.1.available else available, true)
  }

  function CountingUpTo(min: int, t: int): (int, Reference) -> (int, bool) {
    (available: int, r: Reference) =>
      if t < r.1.expireTime
      then (available + r.1.available, available + r.1.available < min)
      else (available, true)
  }

  function Finding(id: nat): (Pointer, Reference) -> (Pointer, bool) {
    (found: Pointer, r: Reference) => if r.1.id == id then (At(r.0), false) else (found, true)
  }

  ghost predicate RefersTo(q: seq<Reference>, slots: seq<Slot>) {
    |q| == |slots| && forall i :: 0 <= i < |q| ==> q[i].1 == slots[i]
  }

  lemma {:induction false} CountingIsLive(q: seq<Reference>, slots: seq<Slot>, t: int, n: int)
    requires RefersTo(q, slots)
    ensures FoldWhile(Counting(t), n, q) == n + Live(slots, t)
  {
    if q != [] {
      CountingIsLive(q[1..], slots[1..], t, Counting(t)(n, q[0]).0);
    }
  }

  /** Stopping early does not change whether the minimum is reached. */
  lemma {:induction false} CountingUpToDecides(q: seq<Reference>, slots: seq<Slot>, min: int, t: int, n: int)
    requires RefersTo(q, slots) && P.NonNegative(slots)
    ensures FoldWhile(CountingUpTo(min, t), n, q) >= min <==> n + Live(slots, t) >= min
  {
    if q != [] {
      P.LiveBounds(slots[1..], t);
      var (n1, more) := CountingUpTo(min, t)(n, q[0]);
      if more {
        CountingUpToDecides(q[1..], slots[1..], min, t, n1);
      }
    }
  }

  lemma {:induction false} FindingIsPosition(q: seq<Reference>, slots: seq<Slot>, id: nat)
    requires RefersTo(q, slots)
    ensures var i := Position(slots, id);
            FoldWhile(Finding(id), Null, q) == if i < |slots| then At(q[i].0) else Null
  {
    if q != [] && slots[0].id != id {
      FindingIsPosition(q[1..], slots[1..], id);
    }
  }

  /** Substract with some tokens dropped before. */
  function Later(dropped: int, slots: seq<Slot>, delta: int, t: int): (int, seq<Slot>, int) {
    var (rest, left, more) := QuotaModel.Substract(slots, delta, t);
    (rest, left, dropped + more)
  }

  lemma {:induction false} NothingToSubstract(slots: seq<Slot>, delta: int, t: int)
    ensures slots == [] || delta <= 0 ==> QuotaModel.Substract(slots, delta, t) == (delta, slots, 0)
  {
  }

  class QuotaPrefetchImpl {
    const queue: CircularQueue<Slot>
    const counter: TimeBasedCounter
    const options: Options
    var mode: Mode
    var lastPrefetchTime: int
    var inflightCount: int
    var nextSlotId: nat
    var outstanding: multiset<Request>   // transport calls whose callback has not run

    ghost var model: State

    /** The ring holds the slots of s. */
    ghost predicate Holds(s: State)
      reads queue, queue.nodes
    {
      queue.Valid() && queue.Contents() == s.slots && queue.nodes.Length == s.capacity
    }

    ghost predicate FieldsOk()
      reads this
    {
      && mode == model.mode && inflightCount == model.inflight && lastPrefetchTime == model.lastPrefetch
      && nextSlotId == model.nextSlotId && outstanding == model.outstanding
    }

    ghost predicate Valid()
      reads this, queue, queue.nodes, counter, counter.slots
    {
      Holds(model) && FieldsOk() && counter.Valid() && P.Inv(model)
    }

    /** What the predict window holds at time t. */
    ghost function Passed(t: int): int
      reads counter, counter.slots
      requires counter.Valid()
    {
      SumSince(counter.log, counter.CutoffAt(t))
    }

    constructor (predictWindow: int, options: Options, t: int)
      requires predictWindow >= TIME_BASED_WINDOW_SIZE
      ensures Valid() && model == Init(INIT_QUEUE_SIZE, lastPrefetchTime) && this.options == options
      ensures mode == OPEN && outstanding == multiset{} && model.slots == [] && model.capacity == 10
      ensures fresh(queue) && fresh(queue.nodes) && fresh(counter) && fresh(counter.slots)
      ensures counter.InTime(t) && counter.latest == t && counter.log == []
    {
      queue := new CircularQueue<Slot>(INIT_QUEUE_SIZE);
      counter := new TimeBasedCounter(TIME_BASED_WINDOW_SIZE, predictWindow, t);
      this.options := options;
      mode, inflightCount, nextSlotId, outstanding := OPEN, 0, 0, multiset{};
      new;
      model := Init(INIT_QUEUE_SIZE, lastPrefetchTime);
      P.InitInv(INIT_QUEUE_SIZE, lastPrefetchTime);
      counter.SoonIsInTime(t);
    }

    // ----- walks over the queue

    lemma VisitedRefersToVisible()
      requires Holds(model)
      ensures RefersTo(queue.Visited(), Visible(model))
    {
    }

    method CountAvailable(t: int) returns (available: int)
      requires Holds(model)
      ensures available == QuotaModel.CountAvailable(model, t)
    {
      VisitedRefersToVisible();
      CountingIsLive(queue.Visited(), Visible(model), t, 0);
      available := queue.Iterate(Counting(t), 0);
    }

    method CheckMinAvailable(min: int, t: int) returns (enough: bool)
      requires Holds(model) && P.NonNegative(model.slots)
      ensures enough <==> QuotaModel.CountAvailable(model, t) >= min
    {
      VisitedRefersToVisible();
      CountingUpToDecides(queue.Visited(), Visible(model), min, t, 0);
      var available := queue.Iterate(CountingUpTo(min, t), 0);
      enough := available >= min;
    }

    method FindSlotById(id: nat) returns (found: Pointer)
      requires Holds(model)
      ensures var i := FindSlot(model, id);
              found == if i < |model.slots| then At(queue.Address(i)) else Null
    {
      VisitedRefersToVisible();
      FindingIsPosition(queue.Visited(), Visible(model), id);
      found := queue.Iterate(Finding(id), Null);
    }

    // ----- changes to the queue

    method Add(amount: int, expireTime: int) returns (id: nat)
      requires Holds(model) && nextSlotId == model.nextSlotId
      modifies this`nextSlotId, this`model, queue, queue.nodes
      ensures Holds(model) && nextSlotId == model.nextSlotId && id == nextSlotId
      ensures model == QuotaModel.Add(old(model), amount, expireTime)
      ensures queue.nodes == old(queue.nodes) || fresh(queue.nodes)
    {
      nextSlotId := nextSlotId + 1;
      id := nextSlotId;
      queue.Push(Slot(amount, expireTime, id));
      model := QuotaModel.Add(model, amount, expireTime);
    }

    method Substract(amount: int, t: int) returns (delta: int)
      requires Holds(model)
      modifies this`model, queue, queue.nodes
      ensures Holds(model) && queue.nodes == old(queue.nodes)
      ensures (delta, model) == Spend(old(model), amount, t)
    {
      hide QuotaModel.Substract;
      delta := amount;
      ghost var slots, dropped := model.slots, 0;
      var n := queue.Head();
      while n != Null && delta > 0
        invariant queue.Valid() && queue.nodes == old(queue.nodes)
        invariant n == if queue.count == 0 then Null else At(queue.Address(0))
        invariant QuotaModel.Substract(slots, amount, t) == Later(dropped, queue.Contents(), delta, t)
        modifies queue, queue.nodes
        decreases queue.count
      {
        var done;
        ghost var gone;
        done, delta, gone := SubstractFromHead(n, delta, t);
        dropped := dropped + gone;
        if done { break; }
        n := queue.Head();
      }
      NothingToSubstract(queue.Contents(), delta, t);
      model := Spend(model, amount, t).1;
    }

    /** Takes what it can from the first slot, and the slot off the queue unless something is left in it. */
    method SubstractFromHead(n: Pointer, delta: int, t: int) returns (done: bool, delta': int, ghost gone: int)
      requires queue.Valid() && queue.count > 0 && n == At(queue.Address(0)) && delta > 0
      modifies queue, queue.nodes
      ensures queue.Valid() && queue.nodes == old(queue.nodes) && (done ==> delta' == 0)
      ensures done || queue.count < old(queue.count)
      ensures QuotaModel.Substract(old(queue.Contents()), delta, t) == Later(gone, queue.Contents(), delta', t)
    {
      done, delta', gone := false, delta, 0;
      var slot := queue.nodes[n.index];
      if t < slot.expireTime {
        if slot.available > 0 {
          var d := Min(slot.available, delta);
          slot := slot.(available := slot.available - d);
          queue.Store(n, slot, 0);
          delta' := delta - d;
        }
        if slot.available > 0 {
          delta' := 0;
          assert queue.Contents() == [slot] + old(queue.Contents())[1..];
          return true, delta', gone;
        }
      } else {
        gone := slot.available;
      }
      assert queue.Contents()[1..] == old(queue.Contents())[1..];
      queue.Pop();
    }

    // ----- the protocol

    method Prefetch(reqAmount: int, useNotGranted: bool, t: int)
      requires Holds(model) && FieldsOk()
      modifies this, queue, queue.nodes
      ensures Holds(model) && FieldsOk() && queue.nodes.Length >= 0
      ensures model == QuotaModel.Prefetch(old(model), reqAmount, useNotGranted, t)
      ensures queue.nodes == old(queue.nodes) || fresh(queue.nodes)
    {
      ghost var s := model;
      var slotId := 0;
      if useNotGranted {
        slotId := Add(reqAmount, t + MAX_EXPIRATION_IN_MS * TICKS_PER_MS);
      }
      lastPrefetchTime := t;
      inflightCount := inflightCount + 1;
      outstanding := outstanding + multiset{Request(slotId, reqAmount)};
      model := QuotaModel.Prefetch(s, reqAmount, useNotGranted, t);
    }

    method AttemptPrefetch(amount: int, t: int)
      requires Valid() && counter.InTime(t)
      modifies this, queue, queue.nodes, counter, counter.slots
      ensures Valid() && counter.InTime(t) && counter.slots == old(counter.slots) && counter.log == old(counter.log)
      ensures model == QuotaModel.AttemptPrefetch(old(model), amount, t, old(Passed(t)), options)
      ensures queue.nodes == old(queue.nodes) || fresh(queue.nodes)
    {
      hide P.Inv, SumSince;
      ghost var passed := Passed(t);
      P.AttemptKeeps(model, amount, t, passed, options);
      if mode == CLOSE && (inflightCount > 0 || ToMs(t - lastPrefetchTime) < options.closeWaitWindow) {
        return;
      }
      var available := CountAvailable(t);
      var passCount := counter.Count(t);
      counter.SoonIsInTime(t);
      var desired := Max(passCount, options.minPrefetchAmount);
      if (available < Half(desired) && inflightCount == 0) || available < amount {
        var useNotGranted := available == 0 && mode == OPEN;
        Prefetch(Max(amount, desired), useNotGranted, t);
      }
    }

    method Check(amount: int, t: int) returns (ok: bool)
      requires Valid() && counter.InTime(t)
      modifies this, queue, queue.nodes, counter, counter.slots
      ensures Valid() && counter.latest == t && counter.slots == old(counter.slots)
      ensures counter.log == old(counter.log) + [Event(amount, t)]
      ensures (model, ok) == QuotaModel.Check(old(model), amount, t, old(Passed(t)), options)
      ensures queue.nodes == old(queue.nodes) || fresh(queue.nodes)
    {
      hide P.Inv, SumSince, QuotaModel.AttemptPrefetch, Spend, QuotaModel.CountAvailable, Holds, QuotaModel.Check,
           TimeBasedCounter.InTime;
      ghost var s, passed := model, Passed(t);
      P.CheckKeeps(s, amount, t, passed, options);
      AttemptPrefetch(amount, t);
      ghost var s1 := model;
      counter.Inc(amount, t);
      SlotsAreNonNegative(s1);
      ok := TakeTokens(amount, t);
      CheckParts(s, s1, amount, t, passed, options);
      SameQueue(model, QuotaModel.Check(s, amount, t, passed, options).0);
      model := QuotaModel.Check(s, amount, t, passed, options).0;
    }

    /** The second half of Check: taking the amount from the queue, if it is there. */
    method TakeTokens(amount: int, t: int) returns (ok: bool)
      requires Holds(model) && P.NonNegative(model.slots)
      modifies this`model, queue, queue.nodes
      ensures Holds(model) && queue.nodes == old(queue.nodes)
      ensures ok == if amount == 1 then Spend(old(model), 1, t).0 == 0
                    else QuotaModel.CountAvailable(old(model), t) >= amount
      ensures model == if ok || amount == 1 then Spend(old(model), amount, t).1 else old(model)
    {
      hide Spend;
      if amount == 1 {
        var rest := Substract(amount, t);
        ok := rest == 0;
      } else {
        ok := CheckMinAvailable(amount, t);
        if ok {
          var rest := Substract(amount, t);
        }
      }
    }

    /** The callback of a request.  It runs once, and after the call that sent the request. */
    method OnResponse(slotId: nat, reqAmount: int, respAmount: int, expiration: int, t: int)
      requires Valid() && Request(slotId, reqAmount) in outstanding
      modifies this, queue, queue.nodes
      ensures Valid()
      ensures model == QuotaModel.OnResponse(old(model), Request(slotId, reqAmount), respAmount, expiration, t)
      ensures queue.nodes == old(queue.nodes) || fresh(queue.nodes)
    {
      hide P.Inv, QuotaModel.OnResponse, Settle, Holds;
      ghost var s, request := model, Request(slotId, reqAmount);
      P.ResponseKeeps(s, request, respAmount, expiration, t);
      inflightCount := inflightCount - 1;
      outstanding := outstanding - multiset{Request(slotId, reqAmount)};
      ghost var s1 := s.(inflight := inflightCount, outstanding := outstanding);
      SameQueue(s, s1);
      model := s1;
      var granted := if respAmount == -1 then reqAmount else respAmount;
      var lifetime := if respAmount == -1 then MAX_EXPIRATION_IN_MS else expiration;
      SettleAnswer(slotId, reqAmount, granted, t + lifetime * TICKS_PER_MS, t);
      mode := if granted == reqAmount then OPEN else CLOSE;
      ResponseParts(s, request, respAmount, expiration, t);
      SameQueue(model, QuotaModel.OnResponse(s, request, respAmount, expiration, t));
      model := QuotaModel.OnResponse(s, request, respAmount, expiration, t);
    }

    /** A loan is settled, or what is granted is put into the queue. */
    method SettleAnswer(slotId: nat, reqAmount: int, granted: int, expireTime: int, t: int)
      requires Holds(model) && FieldsOk()
      modifies this`nextSlotId, this`model, queue, queue.nodes
      ensures Holds(model) && FieldsOk()
      ensures queue.nodes == old(queue.nodes) || fresh(queue.nodes)
      ensures model == Settle(old(model), Request(slotId, reqAmount), granted, expireTime, t)
    {
      hide Settle, Holds;
      if slotId != 0 {
        SettleLoan(slotId, reqAmount, granted, expireTime, t);
      } else {
        SettleGrant(slotId, reqAmount, granted, expireTime, t);
      }
    }

    lemma SameQueue(s: State, s': State)
      requires Holds(s) && s'.slots == s.slots && s'.capacity == s.capacity
      ensures Holds(s')
    {
    }

    /** An answer to a request that had lent nothing: what it grants joins the queue. */
    method SettleGrant(ghost slotId: nat, ghost reqAmount: int, granted: int, expireTime: int, ghost t: int)
      requires Holds(model) && FieldsOk() && slotId == 0
      modifies this`nextSlotId, this`model, queue, queue.nodes
      ensures Holds(model) && FieldsOk()
      ensures queue.nodes == old(queue.nodes) || fresh(queue.nodes)
      ensures model == Settle(old(model), Request(slotId, reqAmount), granted, expireTime, t)
    {
      if granted > 0 {
        var id := Add(granted, expireTime);
      }
    }

    /** An answer to a request that had lent its tokens: what was not granted is taken back,
        and what is left of the loan expires with the answer. */
    method SettleLoan(slotId: nat, reqAmount: int, granted: int, expireTime: int, t: int)
      requires Holds(model) && FieldsOk() && slotId != 0
      modifies this`model, queue, queue.nodes
      ensures Holds(model) && FieldsOk() && queue.nodes == old(queue.nodes)
      ensures model == Settle(old(model), Request(slotId, reqAmount), granted, expireTime, t)
    {
      hide P.Inv, QuotaModel.Substract, Spend, FindSlot, Settle;
      var slot := FindSlotById(slotId);
      ghost var s, i := model, FindSlot(model, slotId);
      var short := if granted < reqAmount then reqAmount - granted else 0;
      var delta, left := RevokeOwn(slot, short, i);
      ghost var own := model;
      if delta > 0 {
        delta := Substract(delta, t);
      }
      LoanParts(s, Request(slotId, reqAmount), granted, expireTime, t);
      if slot != Null && left > 0 {
        queue.Store(slot, queue.nodes[slot.index].(expireTime := expireTime), i);
      }
      model := Settle(s, Request(slotId, reqAmount), granted, expireTime, t);
    }

    /** Takes back what it can from the slot of the request; says what is missing still, and
        what the slot holds now (nothing if it was not found). */
    method RevokeOwn(slot: Pointer, amount: int, ghost i: nat) returns (delta: int, left: int)
      requires Holds(model) && amount >= 0 && i <= |model.slots|
      requires slot == if i < |model.slots| then At(queue.Address(i)) else Null
      modifies this`model, queue.nodes
      ensures Holds(model) && (delta, model) == TakeOwn(old(model), i, amount)
      ensures |model.slots| == |old(model).slots|
      ensures slot != Null ==> left == model.slots[i].available
    {
      delta, left := amount, 0;
      if slot != Null {
        var node := queue.nodes[slot.index];
        left := node.available;
        if amount > 0 {
          var d := Min(node.available, delta);
          left := node.available - d;
          queue.Store(slot, node.(available := left), i);
          delta := delta - d;
        }
      }
      model := TakeOwn(model, i, amount).1;
    }
  }

  lemma CheckParts(s: State, s1: State, amount: int, t: int, passed: int, o: Options)
    requires s1 == QuotaModel.AttemptPrefetch(s, amount, t, passed, o)
    ensures var (s', ok) := QuotaModel.Check(s, amount, t, passed, o);
            && ok == (if amount == 1 then Spend(s1, 1, t).0 == 0
                      else QuotaModel.CountAvailable(s1, t) >= amount)
            && s'.slots == (if ok || amount == 1 then Spend(s1, amount, t).1.slots else s1.slots)
            && s'.capacity == s1.capacity && s'.mode == s1.mode && s'.inflight == s1.inflight
            && s'.lastPrefetch == s1.lastPrefetch && s'.nextSlotId == s1.nextSlotId
            && s'.outstanding == s1.outstanding
            && Spend(s1, amount, t).1.capacity == s1.capacity
  {
    hide QuotaModel.AttemptPrefetch, QuotaModel.Substract;
  }

  lemma ResponseParts(s: State, request: Request, response: int, expiration: int, t: int)
    ensures var granted := Granted(request, response);
            var lifetime := if response == -1 then MAX_EXPIRATION_IN_MS else expiration;
            var s1 := s.(inflight := s.inflight - 1, outstanding := s.outstanding - multiset{request});
            var s2 := Settle(s1, request, granted, t + lifetime * TICKS_PER_MS, t);
            var s' := QuotaModel.OnResponse(s, request, response, expiration, t);
            && s'.slots == s2.slots && s'.capacity == s2.capacity && s'.inflight == s2.inflight
            && s'.lastPrefetch == s2.lastPrefetch && s'.nextSlotId == s2.nextSlotId
            && s'.outstanding == s2.outstanding
            && s'.mode == (if granted == request.amount then OPEN else CLOSE)
  {
    hide Settle;
  }

  /** What settling a loan does to the slots, by the pieces of SettleLoan. */
  lemma LoanParts(s: State, request: Request, granted: int, expireTime: int, t: int)
    requires request.slotId != 0
    ensures var i := FindSlot(s, request.slotId);
            var (more, own) := TakeOwn(s, i, if granted < request.amount then request.amount - granted else 0);
            var s1 := if more > 0 then Spend(own, more, t).1 else own;
            var s' := Settle(s, request, granted, expireTime, t);
            && |own.slots| == |s.slots|
            && (i < |own.slots| && own.slots[i].available > 0 ==>
                  more <= 0 && s'.slots == own.slots[i := own.slots[i].(expireTime := expireTime)])
            && (i == |own.slots| || own.slots[i].available <= 0 ==> s'.slots == s1.slots)
            && s' == s.(slots := s'.slots, ledger := s'.ledger)
  {
    hide QuotaModel.Substract, FindSlot;
  }

  lemma SlotsAreNonNegative(s: State)
    requires P.Inv(s)
    ensures P.NonNegative(s.slots)
  {
  }
}
