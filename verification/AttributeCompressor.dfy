/** Dictionary coding of attribute sets and batches of them, src/attribute_compressor.cc. */
module AttributeCompressors {
  import opened Wrappers
  import opened AttributeCoding
  import opened BatchHistories
  import opened DeltaUpdates
  import opened WordDictionaries

  const GLOBAL_DICTIONARY_BASE_SIZE := 111

  /** The lesser of a size of the dictionary and the size of its first version. */
  function AtMostBase(top: int): (n: int)
    ensures n <= top && n <= GLOBAL_DICTIONARY_BASE_SIZE && (n == top || n == GLOBAL_DICTIONARY_BASE_SIZE)
  {
    if top < GLOBAL_DICTIONARY_BASE_SIZE then top else GLOBAL_DICTIONARY_BASE_SIZE
  }

  class GlobalDictionary {
    const words: seq<string>
    const indexes: map<string, int>
    var topIndex: int

    ghost predicate Valid()
      reads this`topIndex
    {
      && 0 <= topIndex <= |words|
      && forall w :: w in indexes ==> 0 <= indexes[w] < |words| && words[indexes[w]] == w
    }

    /** The words are the generated list of src/global_dictionary. */
    constructor (words: seq<string>)
      ensures Valid() && this.words == words && topIndex == |words|
      ensures forall i :: 0 <= i < |words| ==> words[i] in indexes
    {
      this.words := words;
      var m: map<string, int> := map[];
      for i := 0 to |words|
        invariant forall w :: w in m ==> 0 <= m[w] < i && words[m[w]] == w
        invariant forall j :: 0 <= j < i ==> words[j] in m
      {
        m := m[words[i] := i];
      }
      indexes := m;
      topIndex := |words|;
    }

    method GetIndex(name: string) returns (index: Option<int>)
      requires Valid()
      ensures index.Some? <==> name in indexes && indexes[name] < topIndex
      ensures index.Some? ==> 0 <= index.value == indexes[name] && words[index.value] == name
    {
      return if name in indexes && indexes[name] < topIndex then Some(indexes[name]) else None;
    }

    /** Falls back to the first version of the dictionary, from any later one. */
    method ShrinkToBase()
      requires Valid()
      modifies this`topIndex
      ensures Valid() && topIndex == AtMostBase(old(topIndex))
    {
      if topIndex > GLOBAL_DICTIONARY_BASE_SIZE {
        topIndex := GLOBAL_DICTIONARY_BASE_SIZE;
      }
    }
  }

  function MessageDictIndex(idx: int): (i: int)
    ensures idx >= 0 ==> i < 0 && -i - 1 == idx
  {
    -(idx + 1)
  }

  class MessageDictionary {
    const globalDict: GlobalDictionary
    ghost const limit: nat   // the number of global words when the message was begun
    var messageWords: seq<string>
    var messageDict: map<string, int>

    ghost predicate Valid()
      reads this, globalDict`topIndex
    {
      globalDict.Valid() && globalDict.topIndex <= limit <= |globalDict.words| && DictionaryOk(Now())
    }

    ghost function Now(): Dictionary
      requires limit <= |globalDict.words|
      reads this, globalDict`topIndex
    {
      Dictionary(CurrentWords(), globalDict.indexes, globalDict.topIndex, messageDict)
    }

    ghost function CurrentWords(): Words
      requires limit <= |globalDict.words|
      reads this`messageWords
    {
      Words(globalDict.words[..limit], messageWords)
    }

    constructor (globalDict: GlobalDictionary)
      requires globalDict.Valid()
      ensures Valid() && this.globalDict == globalDict && limit == globalDict.topIndex && messageWords == []
    {
      this.globalDict, limit := globalDict, globalDict.topIndex;
      messageWords, messageDict := [], map[];
    }

    /** The index of a word, which a word seen before has already. */
    method GetIndex(name: string) returns (index: int)
      requires Valid()
      modifies this
      ensures Valid() && Now() == With(old(Now()), name) && Keeps(old(Now()), Now())
      ensures IndexNow(Now(), name) == Some(index)
      ensures Current(Now(), index) && WordAt(CurrentWords(), index) == Some(name)
    {
      hide DictionaryOk, Keeps, WordAt, Current;
      WithKeeps(Now(), name);
      IndexStands(With(Now(), name), name);
      var global := globalDict.GetIndex(name);
      if global.Some? { return global.value; }
      if name in messageDict { return MessageDictIndex(messageDict[name]); }
      index := |messageWords|;
      messageWords := messageWords + [name];
      messageDict := messageDict[name := index];
      return MessageDictIndex(index);
    }
  }

  /** The entries of a string map, visited in any order. */
  method CreateStringMap(raw: map<string, string>, dict: MessageDictionary) returns (m: map<int, int>)
    requires dict.Valid()
    modifies dict
    ensures dict.Valid() && Keeps(old(dict.Now()), dict.Now())
    ensures DecodeMap(m, dict.CurrentWords()) == Some(raw)
  {
    hide DecodeMap, WordAt, IndexNow, DictionaryOk, Current;
    m := map[];
    var names := raw.Keys;
    ghost var done: map<string, string> := map[];
    MapStarts(dict.CurrentWords());
    while names != {}
      invariant dict.Valid() && Keeps(old(dict.Now()), dict.Now())
      invariant names <= raw.Keys && done.Keys == raw.Keys - names && forall n :: n in done ==> done[n] == raw[n]
      invariant DecodeMap(m, dict.CurrentWords()) == Some(done)
      decreases |names|
    {
      var name :| name in names;
      ghost var d0 := dict.Now();
      var key := dict.GetIndex(name);
      ghost var d1 := dict.Now();
      var value := dict.GetIndex(raw[name]);
      KeepsOn(d0, d1, dict.Now());
      KeepsOn(old(dict.Now()), d0, dict.Now());
      ExtendedWord(d1.words, dict.CurrentWords(), key);
      MapLater(m, d0.words, dict.CurrentWords());
      MapGrows(m, dict.CurrentWords(), done, key, name, value, raw[name]);
      m := m[key := value];
      done := done[name := raw[name]];
      names := names - {name};
    }
    assert done == raw;
  }

  /** Puts a value into the map of its type. */
  method FillAttribute(pb: Compressed, index: int, value: Value, dict: MessageDictionary) returns (pb': Compressed)
    requires dict.Valid() && index !in Indexes(pb)
    modifies dict
    ensures dict.Valid() && Keeps(old(dict.Now()), dict.Now())
    ensures Filled(pb, pb', index, value, dict.CurrentWords())
  {
    hide Put, Filled, DecodeDelta, Indexes, IndexNow, DictionaryOk;
    var word, m := 0, map[];
    if value.StringValue? {
      word := dict.GetIndex(value.text);
    } else if value.StringMapValue? {
      m := CreateStringMap(value.entries, dict);
    }
    pb' := Put(pb, index, value, word, m);
    PutFills(pb, index, value, word, m, dict.CurrentWords());
  }

  /** Compresses one set, whose attributes are visited in any order; the result says whether a delta
      can express it. The indexed values are what the set is in terms of word indexes. */
  method CompressByDict(attributes: Attributes, dict: MessageDictionary, delta: DeltaUpdate)
      returns (ok: bool, pb: Compressed, ghost indexed: map<int, Value>)
    requires dict.Valid()
    modifies dict, delta
    ensures dict.Valid() && Keeps(old(dict.Now()), dict.Now())
    ensures IndexedNow(dict.Now(), indexed, attributes)
    ensures var remembered := if delta.tracking then old(delta.prevMap) else map[];
            && DecodeDelta(pb, dict.CurrentWords()) == Some(SetOnly(Emitted(remembered, indexed)))
            && ok == Supported(remembered, indexed)
            && (delta.tracking ==> delta.prevMap == remembered + indexed)
  {
    hide InProgress, Named, DecodeDelta, Emitted, SetOnly, Supported, IndexNow, DictionaryOk;
    ghost var remembered := if delta.tracking then delta.prevMap else map[];
    delta.Start();
    pb, indexed := NOTHING, map[];
    Starts(dict, delta, remembered);
    var names := attributes.Keys;
    WithoutNames(attributes);
    while names != {}
      invariant dict.Valid() && Keeps(old(dict.Now()), dict.Now())
      invariant names <= attributes.Keys && InProgress(dict, delta, remembered, indexed, attributes - names, pb)
      decreases |names|
    {
      var name :| name in names;
      WithOneName(attributes, names, name);
      ghost var before := dict.Now();
      pb, indexed :=
        CompressAttribute(name, attributes[name], dict, delta, pb, remembered, indexed, attributes - names);
      KeepsOn(old(dict.Now()), before, dict.Now());
      names := names - {name};
    }
    Ends(dict, delta, remembered, indexed, attributes, pb);
    ok := delta.Finish();
  }

  lemma Starts(dict: MessageDictionary, delta: DeltaUpdate, remembered: map<int, Value>)
    requires dict.Valid()
    requires if delta.tracking then remembered == delta.prevMap && delta.prevSet == delta.prevMap.Keys
             else remembered == map[]
    ensures InProgress(dict, delta, remembered, map[], map[], NOTHING)
  {
    NothingDecodes(remembered, dict.CurrentWords());
  }

  lemma Ends(dict: MessageDictionary, delta: DeltaUpdate, remembered: map<int, Value>, indexed: map<int, Value>,
             attributes: Attributes, pb: Compressed)
    requires dict.Valid() && InProgress(dict, delta, remembered, indexed, attributes, pb)
    ensures IndexedNow(dict.Now(), indexed, attributes)
    ensures DecodeDelta(pb, dict.CurrentWords()) == Some(SetOnly(Emitted(remembered, indexed)))
    ensures Supported(remembered, indexed) == (!delta.tracking || delta.prevSet == {})
    ensures delta.tracking ==> delta.prevMap == remembered + indexed
  {
    hide Named, DecodeDelta, Emitted, SetOnly;
    NothingLeft(remembered.Keys, indexed.Keys);
  }

  lemma NothingLeft(a: set<int>, b: set<int>)
    ensures a <= b <==> a - b == {}
  {
    if a - b == {} {
      forall i | i in a ensures i in b { assert i !in a - b; }
    }
  }

  lemma WithoutNames(attributes: Attributes)
    ensures attributes - attributes.Keys == map[] && attributes - {} == attributes
  {
  }

  lemma WithOneName(attributes: Attributes, names: set<string>, name: string)
    requires name in names && names <= attributes.Keys
    ensures name !in attributes - names
    ensures (attributes - names)[name := attributes[name]] == attributes - (names - {name})
  {
  }

  /** The attributes done so far have the indexed values, and pb has what changed. */
  ghost predicate InProgress(dict: MessageDictionary, delta: DeltaUpdate, remembered: map<int, Value>,
                             indexed: map<int, Value>, done: Attributes, pb: Compressed)
    requires dict.limit <= |dict.globalDict.words|
    reads dict, dict.globalDict`topIndex, delta
  {
    && IndexedNow(dict.Now(), indexed, done)
    && DecodeDelta(pb, dict.CurrentWords()) == Some(SetOnly(Emitted(remembered, indexed)))
    && (if delta.tracking then
          delta.prevMap == remembered + indexed && delta.prevSet == remembered.Keys - indexed.Keys
        else remembered == map[])
  }

  method CompressAttribute(name: string, value: Value, dict: MessageDictionary, delta: DeltaUpdate, pb: Compressed,
                           ghost remembered: map<int, Value>, ghost indexed: map<int, Value>, ghost done: Attributes)
      returns (pb': Compressed, ghost indexed': map<int, Value>)
    requires dict.Valid() && InProgress(dict, delta, remembered, indexed, done, pb) && name !in done
    modifies dict, delta
    ensures dict.Valid() && Keeps(old(dict.Now()), dict.Now())
    ensures InProgress(dict, delta, remembered, indexed', done[name := value], pb')
  {
    hide Named, DecodeDelta, Emitted, SetOnly, Indexes, Filled, WordAt, IndexNow, DictionaryOk, IndexedNow, Current;
    ghost var d0 := dict.Now();
    var index := dict.GetIndex(name);
    ghost var d1 := dict.Now();
    IndexedLater(d0, d1, indexed, done);
    DeltaLater(pb, d0.words, d1.words);
    IndexedGrows(d1, indexed, done, index, name, value);
    EmittedGrows(remembered, indexed, index, value);
    NotEmittedYet(remembered, indexed, pb, d1.words, index);
    UpdateSum(remembered, indexed, index, value);
    indexed' := indexed[index := value];
    var same := delta.Check(index, value);
    pb' := pb;
    if !same {
      pb' := FillAttribute(pb, index, value, dict);
      KeepsOn(d0, d1, dict.Now());
      IndexedLater(d1, dict.Now(), indexed', done[name := value]);
      DeltaLater(pb, d1.words, dict.CurrentWords());
      FilledDecodes(pb, pb', index, value, dict.CurrentWords(), SetOnly(Emitted(remembered, indexed)));
    }
  }

  lemma UpdateSum(a: map<int, Value>, b: map<int, Value>, index: int, value: Value)
    ensures (a + b)[index := value] == a + b[index := value]
  {
  }

  lemma NothingDecodes(remembered: map<int, Value>, w: Words)
    ensures Named<Value>(map[], w) == Some(map[])
    ensures DecodeDelta(NOTHING, w) == Some(SetOnly(Emitted(remembered, map[])))
  {
  }

  lemma NotEmittedYet(remembered: map<int, Value>, indexed: map<int, Value>, pb: Compressed, w: Words, index: int)
    requires DecodeDelta(pb, w) == Some(SetOnly(Emitted(remembered, indexed))) && index !in indexed
    ensures index !in Indexes(pb) && index !in SetOnly(Emitted(remembered, indexed))
  {
    assert Indexes(pb) == DecodeDelta(pb, w).value.Keys;
  }

  // ----- batches

  /** Collects deltas for one report request. */
  class BatchCompressor {
    const dict: MessageDictionary
    const delta: DeltaUpdate
    const globalWordCount: nat
    var attributes: seq<Compressed>

    ghost var history: seq<Submission>       // the calls of Add
    ghost var received: map<int, Value>      // what a decoder of the deltas knows

    ghost predicate Valid()
      reads this, dict, dict.globalDict`topIndex, delta
    {
      && dict.Valid() && dict.limit == globalWordCount && delta.tracking && |attributes| == |Added(history)|
      && InStep(dict.Now(), Exchange(delta.prevMap, received, Told(history), Had(history)))
      && StateAfter(attributes, dict.CurrentWords()) == Some(received)
      && DecodeBatch(attributes, dict.CurrentWords()) == Some(Heard(history))
      && Acceptable(history)
    }

    /** No name given so far has an index beyond the dictionary, as it would after a shrink. */
    ghost predicate NothingIsCut()
      reads this, dict, dict.globalDict`topIndex, delta
    {
      NothingCutOff(delta.prevMap, dict.globalDict.topIndex)
    }

    constructor (globalDict: GlobalDictionary)
      requires globalDict.Valid()
      ensures Valid() && fresh(dict) && fresh(delta) && dict.globalDict == globalDict
      ensures history == [] && NothingIsCut()
      ensures globalWordCount == globalDict.topIndex
    {
      hide StateAfter, DecodeBatch, InStep, DictionaryOk, Told, Had, Heard, Added, Acceptable;
      var d := new MessageDictionary(globalDict);
      var u := new DeltaUpdate(true);
      dict, delta, attributes, globalWordCount := d, u, [], globalDict.topIndex;
      history, received := [], map[];
      NothingYet();
      EmptyBatch(d.CurrentWords());
      StartsInStep(d.Now());
    }

    /** Adds a set if it has all names given before, in sets added or refused, and none of them is cut off. */
    method Add(set_: Attributes) returns (ok: bool)
      requires Valid()
      modifies this, dict, delta
      ensures Valid() && history == old(history) + [Submission(set_, ok)]
      ensures ok <==> Supported(Told(old(history)), set_) && old(NothingIsCut())
      ensures NothingIsCut() == old(NothingIsCut())
      ensures ok ==> (Had(history) == set_ <==> Arrives(old(history), set_))
    {
      hide Named, DecodeDelta, StateAfter, DecodeBatch, Emitted, SetOnly, DictionaryOk, IndexNow, InStep, Indexing,
           NothingCutOff, Supported, IndexedNow, Told, Had, Heard, Added, Acceptable, Arrives;
      ghost var x := Exchange(delta.prevMap, received, Told(history), Had(history));
      ghost var before := dict.Now();
      var pb;
      ghost var indexed;
      ok, pb, indexed := CompressByDict(set_, dict, delta);
      ghost var later, submission := dict.Now(), Submission(set_, ok);
      IsIndexing(before, later, x, indexed, set_);
      StateLater(attributes, before.words, later.words);
      BatchLater(attributes, before.words, later.words);
      SupportedIff(before, later, x, indexed, set_);
      StaysUncut(before, later, x, indexed, set_);
      OneMore(history, submission);
      AcceptableOneMore(history, submission);
      LastArrivesIff(history, submission);
      if ok {
        StaysInStep(before, later, x, indexed, set_);
        EmittedByName(before, later, x, indexed, set_);
        BatchGrows(attributes, pb, later.words, received, SetOnly(Emitted(x.remembered, indexed)),
                   Had(history + [submission]));
        attributes := attributes + [pb];
        received := received + SetOnly(Emitted(x.remembered, indexed));
      } else {
        RemembersTold(before, later, x, indexed, set_);
      }
      history := history + [submission];
    }

    /** The request for the sets added; the batch is not used after. What a server reads from it is decided by
        the calls of Add, and is what was added if and only if each set arrived. */
    method Finish() returns (request: ReportRequest)
      requires Valid()
      ensures request.attributes == attributes && |request.attributes| == |Added(history)|
      ensures request.globalWordCount == globalWordCount
      ensures Decode(request, dict.globalDict.words) == Some(Heard(history))
      ensures Decode(request, dict.globalDict.words) == Some(Added(history)) <==>
              forall k :: 0 <= k < |history| && history[k].accepted ==> Arrives(history[..k], history[k].attributes)
    {
      hide StateAfter, DecodeBatch, InStep, DictionaryOk, Told, Had, Heard, Added, Acceptable, Arrives;
      var words := [];
      for i := 0 to |dict.messageWords|
        invariant words == dict.messageWords[..i]
      {
        words := words + [dict.messageWords[i]];
      }
      request := ReportRequest(attributes, globalWordCount, words);
      assert Words(dict.globalDict.words[..globalWordCount], words) == dict.CurrentWords();
      HeardIsAddedIff(history);
    }

    lemma SizeIsCount()
      requires Valid()
      ensures |attributes| == |Added(history)|
    {
    }

    lemma IsAcceptable()
      requires Valid()
      ensures Acceptable(history)
    {
    }

    /** A shrink between two calls disturbs no batch. */
    twostate lemma ShrinkKeepsValid()
      requires old(Valid()) && dict.globalDict.Valid() && dict.globalDict.topIndex <= old(dict.globalDict.topIndex)
      requires unchanged(this) && unchanged(dict) && unchanged(delta)
      ensures Valid()
    {
      hide Named, StateAfter, DecodeBatch, InStep, DictionaryOk, Acceptable, Told, Had, Heard, Added;
      InStepShrinks(old(dict.Now()), dict.globalDict.topIndex,
                    Exchange(delta.prevMap, received, Told(history), Had(history)));
      assert dict.Now() == old(dict.Now()).(top := dict.globalDict.topIndex);
    }

    /** While all global words of the batch may be used, nothing is cut off. */
    lemma NothingIsCutWithoutShrink()
      requires Valid() && dict.globalDict.topIndex == globalWordCount
      ensures NothingIsCut()
    {
      AllInUse(dict.Now(), Exchange(delta.prevMap, received, Told(history), Had(history)));
    }
  }

  /** Three calls of Add on a new batch, the second refused: what is read for the third is the first set. */
  method RefusalMisleads(batch: BatchCompressor, first: Attributes, name: string, other: string, value: Value)
      returns (request: ReportRequest)
    requires batch.Valid() && batch.history == [] && batch.NothingIsCut()
    requires AllSet(first) && name in first && other in first && name != other
    modifies batch, batch.dict, batch.delta
    ensures Added(batch.history) == [first, first[name := value]]
    ensures Decode(request, batch.dict.globalDict.words) == Some([first, first])
  {
    hide Told, Had, Heard, Added, BatchCompressor.Valid, BatchCompressor.NothingIsCut, Decode, Arrives, AllSet;
    LosingRunTold(first, name, value);
    var ok := batch.Add(first);
    assert ok && batch.history == [Submission(first, true)];
    ok := batch.Add(map[name := value]);
    assert other in first && other !in map[name := value];
    assert batch.history == [Submission(first, true), Submission(map[name := value], false)];
    ok := batch.Add(first[name := value]);
    assert batch.history == LosingRun(first, name, value);
    RefusedValueIsLost(first, name, value);
    request := batch.Finish();
  }

  // ----- the compressor

  class AttributeCompressor {
    const globalDict: GlobalDictionary

    ghost predicate Valid()
      reads globalDict`topIndex
    {
      globalDict.Valid()
    }

    constructor (globalWords: seq<string>)
      ensures Valid() && fresh(globalDict) && globalDict.words == globalWords
    {
      globalDict := new GlobalDictionary(globalWords);
    }

    /** A set by itself, with the words of its own; it reads back without the values that are not set, exactly
        if all are. */
    method Compress(attributes: Attributes) returns (pb: Compressed, words: seq<string>)
      requires Valid()
      ensures var w := Words(globalDict.words[..globalDict.topIndex], words);
              && DecodeDelta(pb, w).Some?
              && Named(DecodeDelta(pb, w).value, w) == Some(SetOnly(attributes))
      ensures SetOnly(attributes) == attributes <==> AllSet(attributes)
    {
      hide Named, DecodeDelta, Emitted, SetOnly, DictionaryOk, IndexNow;
      var dict := new MessageDictionary(globalDict);
      var delta := new DeltaUpdate(false);
      var ok;
      ghost var indexed;
      ok, pb, indexed := CompressByDict(attributes, dict, delta);
      words := dict.messageWords;
      WholeSet(indexed, dict.CurrentWords(), attributes);
    }

    method CreateBatchCompressor() returns (batch: BatchCompressor)
      requires Valid()
      ensures fresh(batch) && fresh(batch.dict) && fresh(batch.delta) && batch.Valid()
      ensures batch.dict.globalDict == globalDict && batch.history == [] && batch.NothingIsCut()
      ensures batch.globalWordCount == globalDict.topIndex
    {
      batch := new BatchCompressor(globalDict);
    }

    method ShrinkGlobalDictionary()
      requires Valid()
      modifies globalDict`topIndex
      ensures Valid() && globalDict.topIndex == AtMostBase(old(globalDict.topIndex))
    {
      globalDict.ShrinkToBase();
    }
  }

  /** Without delta coding everything set is emitted. */
  lemma WholeSet(indexed: map<int, Value>, w: Words, attributes: Attributes)
    requires Named(indexed, w) == Some(attributes)
    ensures Named(SetOnly(Emitted(map[], indexed)), w) == Some(SetOnly(attributes))
    ensures SetOnly(attributes) == attributes <==> AllSet(attributes)
  {
    hide Named, NamedMeans;
    NamedMeansDecoded(indexed, w, attributes);
    EmittedNames(map[], indexed, map[], attributes, w);
    assert Emitted(map[], attributes) == attributes;
    NamedMeansDecoded(SetOnly(Emitted(map[], indexed)), w, SetOnly(attributes));
  }
}
