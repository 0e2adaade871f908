/** Batching of reports, src/report_batch.cc: when a batch is sent, and what has been sent. */
module ReportBatches {
  import opened Wrappers
  import opened AttributeCoding
  import opened AttributeCompressors
  import opened BatchHistories
  import opened DeltaUpdates

  /** What the transport has called back with by the time it returns. */
  datatype Reply = NoneYet | Done | Error | InvalidDictionary

  /** What the server reads from all requests, in order. */
  ghost function Delivered(sent: seq<ReportRequest>, globalWords: seq<string>): Option<seq<Attributes>> {
    if sent == [] then Some([])
    else
      var before, last := Delivered(sent[..|sent| - 1], globalWords), Decode(sent[|sent| - 1], globalWords);
      if before.Some? && last.Some? then Some(before.value + last.value) else None
  }

  /** No request is empty, and none has more than max sets, or more than one if max is less than one. */
  predicate SizesOk(sent: seq<ReportRequest>, max: int) {
    forall k :: 0 <= k < |sent| ==>
      0 < |sent[k].attributes| && (|sent[k].attributes| <= max || |sent[k].attributes| == 1)
  }

  lemma {:induction false} DeliveredGrows(sent: seq<ReportRequest>, request: ReportRequest, globalWords: seq<string>)
    ensures var before, last := Delivered(sent, globalWords), Decode(request, globalWords);
            Delivered(sent + [request], globalWords) ==
            if before.Some? && last.Some? then Some(before.value + last.value) else None
  {
    assert (sent + [request])[..|sent|] == sent;
  }

  /** Every submitted set was added to a batch, once and in order: to one sent, from which the server reads what
      the calls of Add determine, or to the pending one. */
  ghost predicate InOrder(sent: seq<ReportRequest>, batches: seq<seq<Submission>>, pending: seq<Attributes>,
                          submitted: seq<Attributes>, globalWords: seq<string>) {
    && AllSendable(batches) && AddedAll(batches) + pending == submitted
    && Delivered(sent, globalWords) == Some(HeardAll(batches))
  }

  lemma {:induction false} SendingKeepsOrder(sent: seq<ReportRequest>, batches: seq<seq<Submission>>,
                                             history: seq<Submission>, submitted: seq<Attributes>,
                                             globalWords: seq<string>, request: ReportRequest)
    requires InOrder(sent, batches, Added(history), submitted, globalWords)
    requires Sendable(history) && Decode(request, globalWords) == Some(Heard(history))
    ensures InOrder(sent + [request], batches + [history], [], submitted, globalWords)
  {
    hide Decode, Delivered, Sendable, Heard, Added;
    DeliveredGrows(sent, request, globalWords);
    OneBatchMore(batches, history);
    assert submitted + [] == submitted;
  }

  lemma AddingKeepsOrder(sent: seq<ReportRequest>, batches: seq<seq<Submission>>, pending: seq<Attributes>,
                         submitted: seq<Attributes>, globalWords: seq<string>, last: Attributes)
    requires InOrder(sent, batches, pending, submitted, globalWords)
    ensures InOrder(sent, batches, pending + [last], submitted + [last], globalWords)
  {
    hide Delivered;
    assert AddedAll(batches) + pending + [last] == AddedAll(batches) + (pending + [last]);
  }

  /** Nothing was refused, or just the last set. */
  lemma {:induction false} AcceptedIsSendable(history: seq<Submission>, last: Submission)
    requires Acceptable(history + [last]) && AllAccepted(history)
    ensures Sendable(history + [last]) && (last.accepted ==> AllAccepted(history + [last]))
  {
    hide Acceptable;
  }

  lemma {:induction false} AllAcceptedIsSendable(history: seq<Submission>)
    requires Acceptable(history) && AllAccepted(history)
    ensures Sendable(history)
  {
    hide Acceptable;
  }

  lemma {:induction false} AllAcceptedCount(history: seq<Submission>)
    requires AllAccepted(history)
    ensures |Added(history)| == |history|
    decreases |history|
  {
    if history != [] { AllAcceptedCount(history[..|history| - 1]); }
  }

  /** No server reads a value that is not set. */
  lemma {:induction false} DeliveredIsSet(sent: seq<ReportRequest>, globalWords: seq<string>)
    requires Delivered(sent, globalWords).Some?
    ensures AllSetsSet(Delivered(sent, globalWords).value)
    decreases |sent|
  {
    if sent != [] {
      hide DecodeBatch, AllSet;
      var last := sent[|sent| - 1];
      DeliveredIsSet(sent[..|sent| - 1], globalWords);
      DecodedIsSet(last.attributes, Words(globalWords[..last.globalWordCount], last.defaultWords));
    }
  }

  /** One set for a batch that has refused none; what was added before can be sent either way. */
  method AddOne(batch: BatchCompressor, request: Attributes) returns (ok: bool)
    requires batch.Valid() && AllAccepted(batch.history)
    modifies batch, batch.dict, batch.delta
    ensures batch.Valid() && batch.history == old(batch.history) + [Submission(request, ok)]
    ensures ok <==> Supported(Told(old(batch.history)), request) && old(batch.NothingIsCut())
    ensures Added(batch.history) == if ok then old(Added(batch.history)) + [request] else old(Added(batch.history))
    ensures |old(Added(batch.history))| == |old(batch.history)|
    ensures Sendable(batch.history) && (ok ==> AllAccepted(batch.history))
  {
    hide Told, Had, Heard, Added, Supported, Arrives, Sendable, AllAccepted, BatchCompressor.NothingIsCut;
    ok := batch.Add(request);
    AllAcceptedCount(old(batch.history));
    OneMore(old(batch.history), Submission(request, ok));
    assert Acceptable(batch.history);
    AcceptedIsSendable(old(batch.history), Submission(request, ok));
  }

  class ReportBatch {
    const maxBatchEntries: int
    const hasTimer: bool                 // whether there is a function that creates timers
    const reply: nat -> Reply            // how the transport answers the n-th remote call at once
    const compressor: AttributeCompressor
    var batch: BatchCompressor?
    var timerArmed: bool
    var totalReportCalls: nat
    var totalRemoteReportCalls: nat
    var sent: seq<ReportRequest>         // handed to the transport, in order
    ghost var submitted: seq<Attributes>      // passed to Report, in order
    ghost var batches: seq<seq<Submission>>   // the calls of Add for each request sent

    ghost function Parts(): set<object>
      reads this`batch
    {
      if batch == null then {} else {batch, batch.dict, batch.delta}
    }

    ghost function Repr(): set<object>
      reads this`batch
    {
      {this, compressor.globalDict} + Parts()
    }

    /** The calls of Add on the pending batch. */
    ghost function History(): seq<Submission>
      reads this`batch, Parts()
    {
      if batch == null then [] else batch.history
    }

    ghost function Pending(): seq<Attributes>
      reads this`batch, Parts()
    {
      Added(History())
    }

    /** How many words of the global dictionary are in use. */
    ghost function Top(): int
      reads compressor.globalDict`topIndex
    {
      compressor.globalDict.topIndex
    }

    ghost predicate BatchOk()
      reads this`batch, Parts(), compressor.globalDict`topIndex
    {
      batch != null ==> batch.dict.globalDict == compressor.globalDict && batch.Valid()
    }

    /** A request goes into the pending batch if it has all names in it and none was cut off by a shrink. */
    ghost predicate Takes(request: Attributes)
      reads this`batch, Parts(), compressor.globalDict`topIndex
    {
      batch != null && batch.dict.globalDict == compressor.globalDict ==>
        Supported(Told(batch.history), request) && batch.NothingIsCut()
    }

    ghost predicate CountsOk()
      reads this`sent, this`totalRemoteReportCalls
    {
      totalRemoteReportCalls == |sent| && SizesOk(sent, maxBatchEntries)
    }

    ghost predicate Valid()
      reads Repr()
    {
      && compressor.Valid() && BatchOk() && CountsOk() && AllAccepted(History())
      && (batch != null ==> 0 < |History()| < maxBatchEntries)
      && timerArmed == (batch != null && hasTimer) && totalReportCalls == |submitted|
      && InOrder(sent, batches, Pending(), submitted, compressor.globalDict.words)
    }

    constructor (maxBatchEntries: int, hasTimer: bool, reply: nat -> Reply, compressor: AttributeCompressor)
      requires compressor.Valid()
      ensures Valid() && batch == null && sent == [] && submitted == [] && batches == []
      ensures this.compressor == compressor && this.maxBatchEntries == maxBatchEntries
    {
      this.maxBatchEntries, this.hasTimer, this.reply, this.compressor := maxBatchEntries, hasTimer, reply, compressor;
      batch, timerArmed, totalReportCalls, totalRemoteReportCalls, sent := null, false, 0, 0, [];
      submitted, batches := [], [];
    }

    /** Sends the pending batch, if there is one, and stops the timer. */
    method FlushWithLock()
      requires compressor.Valid() && BatchOk() && CountsOk() && Sendable(History())
      requires batch != null ==> 0 < |Pending()| && (|Pending()| <= maxBatchEntries || |Pending()| == 1)
      requires InOrder(sent, batches, Pending(), submitted, compressor.globalDict.words)
      modifies this`batch, this`timerArmed, this`totalRemoteReportCalls, this`sent, this`batches
      modifies compressor.globalDict`topIndex
      ensures compressor.Valid() && CountsOk() && batch == null
      ensures Top() == if old(batch) != null && reply(|old(sent)|) == InvalidDictionary then AtMostBase(old(Top()))
                       else old(Top())
      ensures InOrder(sent, batches, [], submitted, compressor.globalDict.words)
      ensures old(batch) == null ==> sent == old(sent) && batches == old(batches) && timerArmed == old(timerArmed)
      ensures old(batch) != null ==>
                && !timerArmed && |sent| == |old(sent)| + 1 && sent[..|old(sent)|] == old(sent)
                && |sent[|old(sent)|].attributes| == |old(Pending())|
                && sent[|old(sent)|].globalWordCount == old(batch.globalWordCount)
                && batches == old(batches) + [old(History())]
                && Decode(sent[|old(sent)|], compressor.globalDict.words) == Some(old(Heard(History())))
    {
      hide InOrder, Decode, Sendable, BatchCompressor.Valid, Added, Heard, Told, Had, Arrives;
      NothingYet();
      if batch == null { return; }
      var n := totalRemoteReportCalls;
      totalRemoteReportCalls := totalRemoteReportCalls + 1;
      var request := batch.Finish();
      SendingKeepsOrder(sent, batches, batch.history, submitted, compressor.globalDict.words, request);
      batches := batches + [batch.history];
      batch := null;
      timerArmed := false;
      sent := sent + [request];
      if reply(n) == InvalidDictionary {
        compressor.ShrinkGlobalDictionary();
      }
    }

    /** Adds a report to the batch. A request is sent if the batch is full now, with the report, or if it could
        not take the report, without it; otherwise none is. */
    method Report(request: Attributes)
      requires Valid()
      modifies Repr()
      ensures Valid() && submitted == old(submitted) + [request] && fresh(Repr() - old(Repr()))
      ensures batch == null <==> old(Takes(request)) && |old(Pending())| + 1 >= maxBatchEntries
      ensures old(Takes(request)) && |old(Pending())| + 1 < maxBatchEntries ==>
                sent == old(sent) && Pending() == old(Pending()) + [request]
      ensures old(Takes(request)) && |old(Pending())| + 1 >= maxBatchEntries ==>
                && |sent| == |old(sent)| + 1 && sent[..|old(sent)|] == old(sent) && Pending() == []
                && |sent[|old(sent)|].attributes| == |old(Pending())| + 1
      ensures !old(Takes(request)) ==>
                && |sent| == |old(sent)| + 1 && sent[..|old(sent)|] == old(sent) && Pending() == [request]
                && |sent[|old(sent)|].attributes| == |old(Pending())|
      ensures Top() == if |sent| > |old(sent)| && reply(|old(sent)|) == InvalidDictionary then AtMostBase(old(Top()))
                       else old(Top())
      ensures |sent| > |old(sent)| ==>
                sent[|old(sent)|].globalWordCount == if old(batch) == null then old(Top())
                                                     else old(batch.globalWordCount)
      ensures batch != null ==>
                batch.globalWordCount == if old(batch) == null then old(Top())
                                         else if old(Takes(request)) then old(batch.globalWordCount) else Top()
    {
      hide InOrder, SizesOk, BatchCompressor.Valid, BatchCompressor.NothingIsCut, Supported, AllAccepted,
           Added, Heard, Told, Had, Sendable, Decode, ReportBatch.CountsOk;
      totalReportCalls := totalReportCalls + 1;
      AddToBatch(request);
      batch.SizeIsCount();
      if |batch.attributes| >= maxBatchEntries {
        FlushWithLock();
      } else if |batch.attributes| == 1 && hasTimer {
        timerArmed := true;
      }
      NothingYet();
    }

    /** Afterwards the batch holds the report, alone if the batch before could not take it and was sent. */
    method AddToBatch(request: Attributes)
      requires compressor.Valid() && BatchOk() && CountsOk() && AllAccepted(History())
      requires batch != null ==> 0 < |History()| < maxBatchEntries
      requires timerArmed == (batch != null && hasTimer)
      requires InOrder(sent, batches, Pending(), submitted, compressor.globalDict.words)
      modifies Repr()
      ensures compressor.Valid() && BatchOk() && CountsOk()
      ensures batch != null && AllAccepted(History()) && Sendable(History())
      ensures InOrder(sent, batches, Pending(), submitted, compressor.globalDict.words)
      ensures submitted == old(submitted) + [request] && totalReportCalls == old(totalReportCalls)
      ensures History() == (if old(Takes(request)) then old(History()) else []) + [Submission(request, true)]
      ensures Pending() == (if old(Takes(request)) then old(Pending()) else []) + [request]
      ensures |Pending()| == |History()|
      ensures timerArmed == (|History()| > 1 && hasTimer)
      ensures if old(Takes(request)) then sent == old(sent)
              else
                && |sent| == |old(sent)| + 1 && sent[..|old(sent)|] == old(sent)
                && |sent[|old(sent)|].attributes| == |old(Pending())|
                && sent[|old(sent)|].globalWordCount == old(batch.globalWordCount)
      ensures Top() == if |sent| > |old(sent)| && reply(|old(sent)|) == InvalidDictionary then AtMostBase(old(Top()))
                       else old(Top())
      ensures batch.globalWordCount == if old(batch) == null then old(Top())
                                       else if old(Takes(request)) then old(batch.globalWordCount) else Top()
      ensures fresh(Repr() - old(Repr()))
    {
      hide InOrder, SizesOk, BatchCompressor.Valid, BatchCompressor.NothingIsCut, AllAccepted,
           Added, Heard, Told, Had, Sendable, Decode, ReportBatch.CountsOk;
      NothingYet();
      if batch == null {
        batch := compressor.CreateBatchCompressor();
      }
      ghost var before := batch.history;
      AddingKeepsOrder(sent, batches, Added(before), submitted, compressor.globalDict.words, request);
      var ok := AddOne(batch, request);
      if !ok {
        StartOver(request);
      }
      submitted := submitted + [request];
    }

    /** Sends the batch that refused the report, and begins another with it. */
    method StartOver(request: Attributes)
      requires compressor.Valid() && BatchOk() && CountsOk() && Sendable(History())
      requires batch != null && 0 < |Pending()| <= maxBatchEntries
      requires InOrder(sent, batches, Pending(), submitted, compressor.globalDict.words)
      modifies Repr()
      ensures compressor.Valid() && BatchOk() && CountsOk() && Sendable(History())
      ensures batch != null && fresh(Parts()) && submitted == old(submitted) && !timerArmed
      ensures totalReportCalls == old(totalReportCalls)
      ensures History() == [Submission(request, true)] && Pending() == [request] && AllAccepted(History())
      ensures InOrder(sent, batches, Pending(), submitted + [request], compressor.globalDict.words)
      ensures |sent| == |old(sent)| + 1 && sent[..|old(sent)|] == old(sent)
      ensures |sent[|old(sent)|].attributes| == |old(Pending())|
      ensures sent[|old(sent)|].globalWordCount == old(batch.globalWordCount) && batch.globalWordCount == Top()
      ensures Top() == if reply(|old(sent)|) == InvalidDictionary then AtMostBase(old(Top())) else old(Top())
    {
      hide InOrder, SizesOk, BatchCompressor.Valid, BatchCompressor.NothingIsCut, AllAccepted,
           Added, Heard, Told, Had, Sendable, Decode, ReportBatch.CountsOk;
      NothingYet();
      FlushWithLock();
      batch := compressor.CreateBatchCompressor();
      AddingKeepsOrder(sent, batches, [], submitted, compressor.globalDict.words, request);
      var ok := AddOne(batch, request);
    }

    /** As long as the dictionary has not been shrunk, a request goes into the pending batch if and only if it
        has all attribute names of the report before. */
    lemma TakesIff(request: Attributes)
      requires Valid() && batch != null && compressor.globalDict.topIndex == batch.globalWordCount
      ensures Pending() != []
      ensures Takes(request) <==> Pending()[|Pending()| - 1].Keys <= request.Keys
    {
      hide InOrder, SizesOk, AllAccepted, Added, Told, BatchCompressor.Valid, BatchCompressor.NothingIsCut;
      batch.IsAcceptable();
      ToldIsLast(History());
      batch.NothingIsCutWithoutShrink();
    }

    /** Also what the timer and the destructor do.  Then as many sets have been delivered as submitted; each as it
        was submitted if and only if it arrived in its batch, and all if and only if all of them are set. */
    method Flush()
      requires Valid()
      modifies this`batch, this`timerArmed, this`totalRemoteReportCalls, this`sent, this`batches
      modifies compressor.globalDict`topIndex
      ensures Valid() && batch == null
      ensures |sent| == |old(sent)| + (if old(batch) == null then 0 else 1) && sent[..|old(sent)|] == old(sent)
      ensures old(batch) != null ==> sent[|old(sent)|].globalWordCount == old(batch.globalWordCount)
      ensures Top() == if old(batch) != null && reply(|old(sent)|) == InvalidDictionary then AtMostBase(old(Top()))
                       else old(Top())
      ensures var delivered := Delivered(sent, compressor.globalDict.words);
              && delivered.Some? && |delivered.value| == |submitted| == |ArrivedAll(batches)|
              && (forall k :: 0 <= k < |submitted| ==>
                    (delivered.value[k] == submitted[k] <==> ArrivedAll(batches)[k]))
              && (delivered.value == submitted <==> AllSetsSet(submitted))
    {
      hide InOrder, AllSetsSet, SizesOk, BatchCompressor.Valid, Added, Heard, Told, Had, Delivered, Decode, AllAccepted,
           Acceptable, Sendable, ArrivedAll;
      NothingYet();
      if batch != null {
        AllAcceptedCount(History());
        batch.IsAcceptable();
        AllAcceptedIsSendable(History());
      }
      FlushWithLock();
      AllDelivered(sent, batches, submitted, compressor.globalDict.words);
    }

    /** The transport answers one of the requests later on. */
    method Respond(status: Reply)
      requires Valid()
      modifies compressor.globalDict`topIndex
      ensures Valid() && Top() == if status == InvalidDictionary then AtMostBase(old(Top())) else old(Top())
    {
      hide InOrder, SizesOk, AllAccepted, Added, BatchCompressor.Valid;
      if status == InvalidDictionary {
        compressor.ShrinkGlobalDictionary();
        if batch != null { batch.ShrinkKeepsValid(); }
      }
    }
  }

  /** After the server has refused the dictionary, the next batch uses no more of it than its first version. */
  method FallsBackAfterError(reports: ReportBatch, request: Attributes)
    requires reports.Valid() && reports.batch == null
    modifies reports.Repr()
    ensures reports.Valid() && |reports.sent| == |old(reports.sent)| + 1
    ensures reports.sent[|old(reports.sent)|].globalWordCount == AtMostBase(old(reports.Top())) <= 111
  {
    hide ReportBatch.Valid, ReportBatch.Pending, ReportBatch.History, Delivered, ArrivedAll, AllSetsSet, Supported;
    reports.Respond(InvalidDictionary);
    reports.Report(request);
    reports.Flush();
  }

  lemma {:induction false} AllDelivered(sent: seq<ReportRequest>, batches: seq<seq<Submission>>,
                                        submitted: seq<Attributes>, globalWords: seq<string>)
    requires InOrder(sent, batches, [], submitted, globalWords)
    ensures var delivered := Delivered(sent, globalWords);
            && delivered.Some? && |delivered.value| == |submitted| == |ArrivedAll(batches)|
            && (forall k :: 0 <= k < |submitted| ==>
                  (delivered.value[k] == submitted[k] <==> ArrivedAll(batches)[k]))
            && (delivered.value == submitted <==> AllSetsSet(submitted))
  {
    hide Delivered, AllSetsSet, AllSendable;
    DeliveredIsSet(sent, globalWords);
    assert AddedAll(batches) + [] == AddedAll(batches);
    ArrivedAllIff(batches);
    if AllSetsSet(submitted) { AllSendableArrive(batches); }
  }
}
