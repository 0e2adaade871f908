/** The token-lending protocol of prefetch/quota_prefetch.cc on values: a queue of granted or
    lent amounts, an OPEN/CLOSE mode and the requests still in flight. */
module QuotaModel {
  import opened TimeBasedCounters

  /** Expiration of an amount that is lent before it is granted, in milliseconds. */
  const MAX_EXPIRATION_IN_MS: int := 60000

  datatype Slot = Slot(available: int, expireTime: int, id: nat)

  datatype Mode = OPEN | CLOSE

  /** What the callback of a transport call remembers; slot id 0 means nothing was lent. */
  datatype Request = Request(slotId: nat, amount: int)

  datatype Options = Options(minPrefetchAmount: int, closeWaitWindow: int)

  /** Where tokens came from and where they went. */
  datatype Ledger = Ledger(
    added: int,       // put into slots
    admitted: int,    // handed out by successful checks
    revoked: int,     // taken back from slots by answers that grant less than was lent
    dropped: int,     // thrown away with expired slots
    settled: int,     // granted by answers that have arrived, of a loan no more than was lent
    overdraft: int    // to be taken back, but already spent
  )

  datatype State = State(
    slots: seq<Slot>,
    capacity: nat,               // of the ring that holds the slots
    mode: Mode,
    inflight: int,
    lastPrefetch: int,
    nextSlotId: nat,
    outstanding: multiset<Request>,
    ledger: Ledger
  )

  function Max(a: int, b: int): int { if a < b then b else a }
  function Min(a: int, b: int): int { if a < b then a else b }

  function Init(capacity: nat, lastPrefetch: int): State {
    State([], capacity, OPEN, 0, lastPrefetch, 0, multiset{}, Ledger(0, 0, 0, 0, 0, 0))
  }

  // ----- the queue of slots

  /** The true number of tokens that can still be handed out at time t. */
  function Live(slots: seq<Slot>, t: int): int {
    if slots == [] then 0
    else (if t < slots[0].expireTime then slots[0].available else 0) + Live(slots[1..], t)
  }

  /** The slots a walk over the ring gets to see: none when the ring is exactly full. */
  function Visible(s: State): seq<Slot> {
    if |s.slots| == s.capacity then [] else s.slots
  }

  function CountAvailable(s: State, t: int): int {
    Live(Visible(s), t)
  }

  /** The position of the first slot with an id, or the number of slots. */
  function Position(slots: seq<Slot>, id: nat): (i: nat)
    ensures i <= |slots|
    ensures i < |slots| ==> slots[i].id == id
    ensures forall j :: 0 <= j < i ==> slots[j].id != id
  {
    if slots == [] || slots[0].id == id then 0 else 1 + Position(slots[1..], id)
  }

  function FindSlot(s: State, id: nat): (i: nat)
    ensures i <= |s.slots|
  {
    var i := Position(Visible(s), id);
    if i < |Visible(s)| then i else |s.slots|
  }

  function Add(s: State, amount: int, expireTime: int): State {
    s.(slots := s.slots + [Slot(amount, expireTime, s.nextSlotId + 1)],
       capacity := if |s.slots| == s.capacity then 2 * s.capacity else s.capacity,
       nextSlotId := s.nextSlotId + 1,
       ledger := s.ledger.(added := s.ledger.added + amount))
  }

  /** What the loop of Substract leaves: the rest of delta, the slots, and what it threw away. */
  function Substract(slots: seq<Slot>, delta: int, t: int): (int, seq<Slot>, int)
    decreases |slots|
  {
    if slots == [] || delta <= 0 then (delta, slots, 0)
    else
      var n := slots[0];
      if t < n.expireTime then
        var d := if n.available > 0 then Min(n.available, delta) else 0;
        if n.available - d > 0 then (0, [n.(available := n.available - d)] + slots[1..], 0)
        else Substract(slots[1..], delta - d, t)
      else
        var (rest, left, dropped) := Substract(slots[1..], delta, t);
        (rest, left, dropped + n.available)
  }

  function Spend(s: State, delta: int, t: int): (int, State) {
    var (rest, slots, dropped) := Substract(s.slots, delta, t);
    (rest, s.(slots := slots, ledger := s.ledger.(dropped := s.ledger.dropped + dropped)))
  }

  // ----- prefetching

  function Prefetch(s: State, amount: int, useNotGranted: bool, t: int): State {
    var s1 := if useNotGranted then Add(s, amount, t + MAX_EXPIRATION_IN_MS * TICKS_PER_MS) else s;
    var id := if useNotGranted then s1.nextSlotId else 0;
    s1.(lastPrefetch := t, inflight := s1.inflight + 1,
        outstanding := s1.outstanding + multiset{Request(id, amount)})
  }

  /** A duration in ticks cut down to whole milliseconds, towards zero. */
  function ToMs(ticks: int): int {
    if ticks >= 0 then ticks / TICKS_PER_MS else -((-ticks) / TICKS_PER_MS)
  }

  /** In CLOSE mode, whether a prefetch has to wait. */
  predicate MustWait(s: State, t: int, o: Options) {
    s.mode == CLOSE && (s.inflight > 0 || ToMs(t - s.lastPrefetch) < o.closeWaitWindow)
  }

  /** Integer division by two, rounding towards zero. */
  function Half(x: int): int { if x >= 0 then x / 2 else -((-x) / 2) }

  function Desired(passed: int, o: Options): int { Max(passed, o.minPrefetchAmount) }

  predicate WantsPrefetch(s: State, amount: int, t: int, passed: int, o: Options) {
    var available := CountAvailable(s, t);
    && !MustWait(s, t, o)
    && ((available < Half(Desired(passed, o)) && s.inflight == 0) || available < amount)
  }

  /** passed is the count of the predict window. */
  function AttemptPrefetch(s: State, amount: int, t: int, passed: int, o: Options): State {
    if WantsPrefetch(s, amount, t, passed, o)
    then Prefetch(s, Max(amount, Desired(passed, o)), CountAvailable(s, t) == 0 && s.mode == OPEN, t)
    else s
  }

  // ----- the two steps of the protocol

  function Check(s: State, amount: int, t: int, passed: int, o: Options): (State, bool) {
    var s1 := AttemptPrefetch(s, amount, t, passed, o);
    if amount == 1 then
      var (rest, s2) := Spend(s1, 1, t);
      if rest == 0 then (s2.(ledger := s2.ledger.(admitted := s2.ledger.admitted + 1)), true)
      else (s2, false)
    else if CountAvailable(s1, t) >= amount then
      var (rest, s2) := Spend(s1, amount, t);
      (s2.(ledger := s2.ledger.(admitted := s2.ledger.admitted + Max(amount, 0))), true)
    else (s1, false)
  }

  /** An answer of -1 stands for a network failure, which grants everything. */
  function Granted(request: Request, response: int): int {
    if response == -1 then request.amount else response
  }

  /** Takes back up to delta tokens from the slot they were lent in, if it is still found. */
  function TakeOwn(s: State, i: nat, delta: int): (int, State)
    requires i <= |s.slots|
  {
    if i == |s.slots| || delta <= 0 then (delta, s)
    else
      var d := Min(s.slots[i].available, delta);
      (delta - d, s.(slots := s.slots[i := s.slots[i].(available := s.slots[i].available - d)]))
  }

  /** Takes back delta tokens: from their own slot, then from any other. */
  function Revoke(s: State, i: nat, delta: int, t: int): State
    requires i <= |s.slots|
  {
    var (more, s1) := TakeOwn(s, i, delta);
    var (rest, s2) := if more > 0 then Spend(s1, more, t) else (more, s1);
    s2.(ledger := s2.ledger.(revoked := s2.ledger.revoked + delta - rest,
                             overdraft := s2.ledger.overdraft + rest))
  }

  /** The slot of a request, if it still holds tokens, expires with the answer. */
  function Extend(s: State, i: nat, expireTime: int): State {
    if i < |s.slots| then s.(slots := s.slots[i := s.slots[i].(expireTime := expireTime)]) else s
  }

  function Settle(s: State, request: Request, granted: int, expireTime: int, t: int): State {
    if request.slotId != 0 then
      var i := FindSlot(s, request.slotId);
      var delta := Max(request.amount - granted, 0);
      var own := TakeOwn(s, i, delta).1;
      var s1 := Revoke(s, i, delta, t);
      if i < |own.slots| && own.slots[i].available > 0 then Extend(s1, i, expireTime) else s1
    else if granted > 0 then Add(s, granted, expireTime)
    else s
  }

  /** What an answer settles: of a loan no more than was lent, and otherwise what it adds. */
  function Settled(request: Request, granted: int): int {
    if request.slotId != 0 then Min(granted, request.amount) else Max(granted, 0)
  }

  function OnResponse(s: State, request: Request, response: int, expiration: int, t: int): State {
    var granted := Granted(request, response);
    var lifetime := if response == -1 then MAX_EXPIRATION_IN_MS else expiration;
    var s1 := s.(inflight := s.inflight - 1, outstanding := s.outstanding - multiset{request});
    var s2 := Settle(s1, request, granted, t + lifetime * TICKS_PER_MS, t);
    s2.(mode := if granted == request.amount then OPEN else CLOSE,
        ledger := s2.ledger.(settled := s2.ledger.settled + Settled(request, granted)))
  }
}
