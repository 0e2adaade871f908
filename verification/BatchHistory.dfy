/** What a batch was given and what its decoder reads, as functions of the calls of Add alone. */
module BatchHistories {
  import opened AttributeCoding
  import opened DeltaUpdates

  /** A set given to Add, and what Add returned. */
  datatype Submission = Submission(attributes: Attributes, accepted: bool)

  /** The value last given for each name, in a refused set or not. */
  ghost function Told(history: seq<Submission>): Attributes {
    if history == [] then map[]
    else Told(history[..|history| - 1]) + history[|history| - 1].attributes
  }

  /** The value last sent for each name: accepted sets send what is set and differs from what was told. */
  ghost function Had(history: seq<Submission>): Attributes {
    if history == [] then map[]
    else
      var init, last := history[..|history| - 1], history[|history| - 1];
      if last.accepted then Had(init) + SetOnly(Emitted(Told(init), last.attributes)) else Had(init)
  }

  /** The sets that the decoder reads. */
  ghost function Heard(history: seq<Submission>): seq<Attributes> {
    if history == [] then []
    else
      var init, last := history[..|history| - 1], history[|history| - 1];
      if last.accepted then Heard(init) + [Had(history)] else Heard(init)
  }

  /** The sets for which Add returned true. */
  ghost function Added(history: seq<Submission>): seq<Attributes> {
    if history == [] then []
    else
      var init, last := history[..|history| - 1], history[|history| - 1];
      if last.accepted then Added(init) + [last.attributes] else Added(init)
  }

  /** Accepted sets have all names told before them. */
  ghost predicate Acceptable(history: seq<Submission>) {
    forall k :: 0 <= k < |history| && history[k].accepted ==>
      Supported(Told(history[..k]), history[k].attributes)
  }

  /** A set that all values of are set, and that repeats a value last told only if it was last sent. */
  ghost predicate Arrives(history: seq<Submission>, attributes: Attributes) {
    AllSet(attributes) && RepeatsReceived(Had(history), Told(history), attributes)
  }

  lemma NothingYet()
    ensures Told([]) == Had([]) == map[] && Heard([]) == Added([]) == [] && Acceptable([]) && AllAccepted([])
    ensures Sendable([])
  {
  }

  lemma {:induction false} OneMore(history: seq<Submission>, last: Submission)
    ensures Told(history + [last]) == Told(history) + last.attributes
    ensures Had(history + [last]) ==
            if last.accepted then Had(history) + SetOnly(Emitted(Told(history), last.attributes)) else Had(history)
    ensures Heard(history + [last]) ==
            if last.accepted then Heard(history) + [Had(history + [last])] else Heard(history)
    ensures Added(history + [last]) == if last.accepted then Added(history) + [last.attributes] else Added(history)
  {
    assert (history + [last])[..|history|] == history;
  }

  lemma {:induction false} AcceptableOneMore(history: seq<Submission>, last: Submission)
    requires Acceptable(history) && (last.accepted ==> Supported(Told(history), last.attributes))
    ensures Acceptable(history + [last])
  {
    hide Supported, Told;
    var h := history + [last];
    forall k | 0 <= k < |h| && h[k].accepted ensures Supported(Told(h[..k]), h[k].attributes) {
      assert h[..k] == history[..k];
      if k == |history| { assert history[..k] == history; }
    }
  }

  lemma {:induction false} HadIsTold(history: seq<Submission>)
    ensures Had(history).Keys <= Told(history).Keys
    ensures forall n :: n in Had(history) ==> Had(history)[n] != NotSet
    decreases |history|
  {
    if history != [] { HadIsTold(history[..|history| - 1]); }
  }

  lemma {:induction false} HeardLength(history: seq<Submission>)
    ensures |Heard(history)| == |Added(history)|
    decreases |history|
  {
    if history != [] { HeardLength(history[..|history| - 1]); }
  }

  /** A batch decodes to exactly the sets added if and only if each of them arrives. */
  lemma {:induction false} HeardIsAddedIff(history: seq<Submission>)
    requires Acceptable(history)
    ensures Heard(history) == Added(history) <==>
            forall k :: 0 <= k < |history| && history[k].accepted ==> Arrives(history[..k], history[k].attributes)
    decreases |history|
  {
    if history != [] {
      var init, last := history[..|history| - 1], history[|history| - 1];
      forall k | 0 <= k < |init| ensures history[..k] == init[..k] && history[k] == init[k] { }
      assert history[..|init|] == init;
      HeardIsAddedIff(init);
      HeardLength(init);
      LastArrivesIff(init, last);
      EqualEnds(Heard(init), Had(history), Added(init), last.attributes);
    }
  }

  lemma EqualEnds<T>(a: seq<T>, x: T, b: seq<T>, y: T)
    requires |a| == |b|
    ensures a + [x] == b + [y] <==> a == b && x == y
  {
    if a + [x] == b + [y] {
      assert (a + [x])[..|a|] == a && (b + [y])[..|b|] == b;
      assert (a + [x])[|a|] == x && (b + [y])[|b|] == y;
    }
  }

  lemma {:induction false} LastArrivesIff(init: seq<Submission>, last: Submission)
    requires last.accepted ==> Supported(Told(init), last.attributes)
    ensures last.accepted ==>
              (Had(init) + SetOnly(Emitted(Told(init), last.attributes)) == last.attributes <==>
               Arrives(init, last.attributes))
  {
    HadIsTold(init);
    if last.accepted { DeltaIsRightIff(Had(init), Told(init), last.attributes); }
  }

  ghost predicate AllAccepted(history: seq<Submission>) {
    forall k :: 0 <= k < |history| ==> history[k].accepted
  }

  /** As long as nothing was refused, what is told and what is sent are the same for sets that are set. */
  lemma {:induction false} InSync(history: seq<Submission>)
    requires Acceptable(history) && AllAccepted(history) && AllSetsSet(Added(history))
    ensures Had(history) == Told(history) && Heard(history) == Added(history)
    decreases |history|
  {
    if history != [] {
      var init, last := history[..|history| - 1], history[|history| - 1];
      assert history == init + [last];
      AllSetsGrow(Added(init), last.attributes);
      forall k | 0 <= k < |init| && init[k].accepted ensures Supported(Told(init[..k]), init[k].attributes) {
        assert history[..k] == init[..k];
      }
      assert history[..|init|] == init;
      InSync(init);
      LastArrivesIff(init, last);
      assert Told(init) + last.attributes == last.attributes;
    }
  }

  /** Without refusals the decoder reads the sets added if and only if all their values are set. */
  lemma {:induction false} AllAcceptedIff(history: seq<Submission>)
    requires Acceptable(history) && AllAccepted(history)
    ensures Heard(history) == Added(history) <==> AllSetsSet(Added(history))
  {
    if AllSetsSet(Added(history)) {
      InSync(history);
    } else if Heard(history) == Added(history) {
      HeardIsSet(history);
    }
  }

  lemma {:induction false} HeardIsSet(history: seq<Submission>)
    ensures AllSetsSet(Heard(history))
    decreases |history|
  {
    if history != [] {
      HeardIsSet(history[..|history| - 1]);
      HadIsTold(history);
    }
  }

  /** Without refusals the names told are those of the last set. */
  lemma {:induction false} ToldIsLast(history: seq<Submission>)
    requires Acceptable(history) && AllAccepted(history) && history != []
    ensures Told(history).Keys == history[|history| - 1].attributes.Keys
    ensures Added(history) != [] && Added(history)[|Added(history)| - 1] == history[|history| - 1].attributes
  {
    InitIsAcceptable(history);
  }

  // ----- set by set, and over several batches

  /** Which of the sets added arrive. */
  ghost function Arrived(history: seq<Submission>): seq<bool> {
    if history == [] then []
    else
      var init, last := history[..|history| - 1], history[|history| - 1];
      if last.accepted then Arrived(init) + [Arrives(init, last.attributes)] else Arrived(init)
  }

  /** A set is read as it was added if and only if it arrives. */
  lemma {:induction false} ArrivedIff(history: seq<Submission>)
    requires Acceptable(history)
    ensures |Arrived(history)| == |Heard(history)| == |Added(history)|
    ensures forall k :: 0 <= k < |Added(history)| ==> (Arrived(history)[k] <==> Heard(history)[k] == Added(history)[k])
    decreases |history|
  {
    hide Arrives, Supported, Told, Had;
    if history != [] {
      var init, last := history[..|history| - 1], history[|history| - 1];
      InitIsAcceptable(history);
      ArrivedIff(init);
      LastArrivesIff(init, last);
      assert history == init + [last];
      OneMore(init, last);
    }
  }

  lemma {:induction false} InitIsAcceptable(history: seq<Submission>)
    requires Acceptable(history) && history != []
    ensures var init, last := history[..|history| - 1], history[|history| - 1];
            Acceptable(init) && (last.accepted ==> Supported(Told(init), last.attributes))
  {
    hide Supported, Told;
    var init := history[..|history| - 1];
    forall k | 0 <= k < |init| && init[k].accepted ensures Supported(Told(init[..k]), init[k].attributes) {
      assert history[..k] == init[..k] && history[k] == init[k];
    }
  }

  ghost function HeardAll(batches: seq<seq<Submission>>): seq<Attributes> {
    if batches == [] then [] else HeardAll(batches[..|batches| - 1]) + Heard(batches[|batches| - 1])
  }

  ghost function AddedAll(batches: seq<seq<Submission>>): seq<Attributes> {
    if batches == [] then [] else AddedAll(batches[..|batches| - 1]) + Added(batches[|batches| - 1])
  }

  ghost function ArrivedAll(batches: seq<seq<Submission>>): seq<bool> {
    if batches == [] then [] else ArrivedAll(batches[..|batches| - 1]) + Arrived(batches[|batches| - 1])
  }

  /** A batch that refused nothing, or just the last set. */
  ghost predicate Sendable(history: seq<Submission>) {
    Acceptable(history) && forall k :: 0 <= k < |history| - 1 ==> history[k].accepted
  }

  ghost predicate AllSendable(batches: seq<seq<Submission>>) {
    forall b :: 0 <= b < |batches| ==> Sendable(batches[b])
  }

  lemma {:induction false} OneBatchMore(batches: seq<seq<Submission>>, history: seq<Submission>)
    ensures HeardAll(batches + [history]) == HeardAll(batches) + Heard(history)
    ensures AddedAll(batches + [history]) == AddedAll(batches) + Added(history)
    ensures ArrivedAll(batches + [history]) == ArrivedAll(batches) + Arrived(history)
    ensures AllSendable(batches) && Sendable(history) ==> AllSendable(batches + [history])
  {
    hide Sendable;
    assert (batches + [history])[..|batches|] == batches;
  }

  lemma {:induction false} ArrivedAllIff(batches: seq<seq<Submission>>)
    requires AllSendable(batches)
    ensures |ArrivedAll(batches)| == |HeardAll(batches)| == |AddedAll(batches)|
    ensures forall k :: 0 <= k < |AddedAll(batches)| ==>
              (ArrivedAll(batches)[k] <==> HeardAll(batches)[k] == AddedAll(batches)[k])
    decreases |batches|
  {
    hide Arrived, Heard, Added, Acceptable;
    if batches != [] {
      ArrivedAllIff(batches[..|batches| - 1]);
      assert Sendable(batches[|batches| - 1]);
      ArrivedIff(batches[|batches| - 1]);
    }
  }

  /** A sendable batch is read as it was added, if all values are set. */
  lemma {:induction false} SendableArrives(history: seq<Submission>)
    requires Sendable(history) && AllSetsSet(Added(history))
    ensures Heard(history) == Added(history)
  {
    hide Told, Had, Heard, Added;
    if AllAccepted(history) {
      AllAcceptedIff(history);
    } else {
      var init, last := history[..|history| - 1], history[|history| - 1];
      InitIsAcceptable(history);
      assert history == init + [last];
      OneMore(init, last);
      AllAcceptedIff(init);
    }
  }

  lemma {:induction false} AllSendableArrive(batches: seq<seq<Submission>>)
    requires AllSendable(batches) && AllSetsSet(AddedAll(batches))
    ensures HeardAll(batches) == AddedAll(batches)
    decreases |batches|
  {
    hide Heard, Added, Sendable, AllSet;
    if batches != [] {
      var init, last := batches[..|batches| - 1], batches[|batches| - 1];
      AllSetsParts(AddedAll(init), Added(last));
      AllSendableArrive(init);
      SendableArrives(last);
    }
  }

  lemma AllSetsParts(a: seq<Attributes>, b: seq<Attributes>)
    requires AllSetsSet(a + b)
    ensures AllSetsSet(a) && AllSetsSet(b)
  {
    hide AllSet;
    forall k | 0 <= k < |a| ensures AllSet(a[k]) { assert (a + b)[k] == a[k]; }
    forall k | 0 <= k < |b| ensures AllSet(b[k]) { assert (a + b)[|a| + k] == b[k]; }
  }

  // ----- a value given in a refused set is lost

  ghost function LosingRun(first: Attributes, name: string, value: Value): seq<Submission> {
    [Submission(first, true), Submission(map[name := value], false), Submission(first[name := value], true)]
  }

  lemma {:induction false} LosingRunTold(first: Attributes, name: string, value: Value)
    requires name in first
    ensures var a, b := Submission(first, true), Submission(map[name := value], false);
            Told([]) == map[] && Told([a]) == first && Told([a, b]) == first[name := value]
  {
    hide Told, Had, Heard, Added, SetOnly, Emitted;
    var a, b := Submission(first, true), Submission(map[name := value], false);
    NothingYet();
    OneMore([], a);
    OneMore([a], b);
    assert [] + [a] == [a] && [a] + [b] == [a, b];
    assert map[] + first == first;
    RepeatsNothing(first, name, value);
  }

  /** A set, refused with a new value for one of its names only, and added with that value: it is read as the
      first set again. */
  lemma {:induction false} RefusedValueIsLost(first: Attributes, name: string, value: Value)
    requires AllSet(first) && name in first
    ensures var run := LosingRun(first, name, value);
            Heard(run) == [first, first] && Added(run) == [first, first[name := value]]
  {
    hide Told, Had, Heard, Added, SetOnly, Emitted;
    var a, b := Submission(first, true), Submission(map[name := value], false);
    var c := Submission(first[name := value], true);
    NothingYet();
    OneMore([], a);
    OneMore([a], b);
    OneMore([a, b], c);
    assert [] + [a] == [a] && [a] + [b] == [a, b] && [a, b] + [c] == LosingRun(first, name, value);
    LosingRunTold(first, name, value);
    FirstIsWhole(first);
    RepeatsNothing(first, name, value);
  }

  lemma FirstIsWhole(first: Attributes)
    requires AllSet(first)
    ensures map[] + first == map[] + SetOnly(Emitted(map[], first)) == first
  {
  }

  lemma RepeatsNothing(first: Attributes, name: string, value: Value)
    requires name in first
    ensures first + map[name := value] == first[name := value]
    ensures first + SetOnly(Emitted(first[name := value], first[name := value])) == first
  {
  }
}
