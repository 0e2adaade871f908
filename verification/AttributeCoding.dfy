/** Attribute sets, their compressed form with word indexes, and the decoder that a server needs
    for a batch of deltas. */
module AttributeCoding {
  import opened Wrappers

  datatype Value =
    | StringValue(text: string)
    | BytesValue(bytes: string)
    | Int64Value(int64: int)
    | DoubleValue(double: real)
    | BoolValue(flag: bool)
    | TimestampValue(tsSeconds: int, tsNanos: int)
    | DurationValue(seconds: int, nanos: int)
    | StringMapValue(entries: map<string, string>)
    | NotSet

  type Attributes = map<string, Value>

  datatype Compressed = Compressed(
    strings: map<int, int>,
    bytes: map<int, string>,
    int64s: map<int, int>,
    doubles: map<int, real>,
    bools: map<int, bool>,
    timestamps: map<int, (int, int)>,
    durations: map<int, (int, int)>,
    stringMaps: map<int, map<int, int>>)

  const NOTHING := Compressed(map[], map[], map[], map[], map[], map[], map[], map[])

  datatype ReportRequest = ReportRequest(attributes: seq<Compressed>, globalWordCount: nat, defaultWords: seq<string>)

  // ----- words

  /** The words that indexes stand for: the global ones from 0 up, the message's own from -1 down. */
  datatype Words = Words(global: seq<string>, message: seq<string>)

  function WordAt(w: Words, i: int): Option<string> {
    if 0 <= i then (if i < |w.global| then Some(w.global[i]) else None)
    else (if -i - 1 < |w.message| then Some(w.message[-i - 1]) else None)
  }

  predicate Extends(w: Words, later: Words) {
    w.global == later.global && w.message <= later.message
  }

  lemma ExtendedWord(w: Words, later: Words, i: int)
    requires Extends(w, later) && WordAt(w, i).Some?
    ensures WordAt(later, i) == WordAt(w, i)
  {
  }

  /** Every index stands for a word, and no two for the same. */
  ghost predicate Readable(keys: set<int>, w: Words) {
    && (forall i :: i in keys ==> WordAt(w, i).Some?)
    && (forall i, j :: i in keys && j in keys && WordAt(w, i) == WordAt(w, j) ==> i == j)
  }

  /** Values by name instead of by index. */
  ghost function Named<V>(state: map<int, V>, w: Words): Option<map<string, V>> {
    if Readable(state.Keys, w) then Some(map i | i in state :: WordAt(w, i).value := state[i]) else None
  }

  ghost function Texts(m: map<int, int>, w: Words): map<int, string> {
    map i | i in m && WordAt(w, m[i]).Some? :: WordAt(w, m[i]).value
  }

  ghost function DecodeMap(m: map<int, int>, w: Words): Option<map<string, string>> {
    if Texts(m, w).Keys == m.Keys then Named(Texts(m, w), w) else None
  }

  // ----- one compressed set

  function Indexes(pb: Compressed): set<int> {
    pb.strings.Keys + pb.bytes.Keys + pb.int64s.Keys + pb.doubles.Keys + pb.bools.Keys
    + pb.timestamps.Keys + pb.durations.Keys + pb.stringMaps.Keys
  }

  /** The value at an index, None if it cannot be read. */
  ghost function ValueAt(pb: Compressed, i: int, w: Words): Option<Value> {
    if i in pb.strings then
      var text := WordAt(w, pb.strings[i]);
      if text.Some? then Some(StringValue(text.value)) else None
    else if i in pb.bytes then Some(BytesValue(pb.bytes[i]))
    else if i in pb.int64s then Some(Int64Value(pb.int64s[i]))
    else if i in pb.doubles then Some(DoubleValue(pb.doubles[i]))
    else if i in pb.bools then Some(BoolValue(pb.bools[i]))
    else if i in pb.timestamps then Some(TimestampValue(pb.timestamps[i].0, pb.timestamps[i].1))
    else if i in pb.durations then Some(DurationValue(pb.durations[i].0, pb.durations[i].1))
    else if i in pb.stringMaps then
      var entries := DecodeMap(pb.stringMaps[i], w);
      if entries.Some? then Some(StringMapValue(entries.value)) else None
    else None
  }

  ghost function DecodeDelta(pb: Compressed, w: Words): Option<map<int, Value>> {
    if forall i :: i in Indexes(pb) ==> ValueAt(pb, i, w).Some? then
      Some(map i | i in Indexes(pb) :: ValueAt(pb, i, w).value)
    else None
  }

  // ----- a batch of deltas

  /** All values received so far, later ones in place of earlier ones. */
  ghost function StateAfter(deltas: seq<Compressed>, w: Words): Option<map<int, Value>> {
    if deltas == [] then Some(map[])
    else
      var before, delta := StateAfter(deltas[..|deltas| - 1], w), DecodeDelta(deltas[|deltas| - 1], w);
      if before.Some? && delta.Some? then Some(before.value + delta.value) else None
  }

  /** The attribute sets of a batch. */
  ghost function DecodeBatch(deltas: seq<Compressed>, w: Words): Option<seq<Attributes>> {
    if deltas == [] then Some([])
    else
      var init, state := DecodeBatch(deltas[..|deltas| - 1], w), StateAfter(deltas, w);
      if init.Some? && state.Some? && Named(state.value, w).Some? then
        Some(init.value + [Named(state.value, w).value])
      else None
  }

  /** What a server that knows the global words reads from a request. */
  ghost function Decode(request: ReportRequest, globalWords: seq<string>): Option<seq<Attributes>> {
    if request.globalWordCount > |globalWords| then None
    else DecodeBatch(request.attributes, Words(globalWords[..request.globalWordCount], request.defaultWords))
  }

  // ----- words that come later change nothing

  lemma ReadableLater(keys: set<int>, w: Words, later: Words)
    requires Extends(w, later) && Readable(keys, w)
    ensures Readable(keys, later) && forall i :: i in keys ==> WordAt(later, i) == WordAt(w, i)
  {
  }

  /** Named as a relation. */
  ghost predicate NamedMeans<V>(state: map<int, V>, w: Words, r: map<string, V>) {
    && Readable(state.Keys, w)
    && (forall i :: i in state ==> WordAt(w, i).value in r && r[WordAt(w, i).value] == state[i])
    && (forall n :: n in r ==> exists i :: i in state && WordAt(w, i) == Some(n))
  }

  lemma NamedMeansDecoded<V>(state: map<int, V>, w: Words, r: map<string, V>)
    ensures NamedMeans(state, w, r) <==> Named(state, w) == Some(r)
  {
    if NamedMeans(state, w, r) {
      var d := Named(state, w).value;
      forall n | n in r ensures n in d && d[n] == r[n] {
        var i :| i in state && WordAt(w, i) == Some(n);
        assert WordAt(w, i).value in d;
      }
      assert d.Keys == r.Keys;
      assert d == r;
    }
  }

  lemma NamedLater<V>(state: map<int, V>, w: Words, later: Words)
    requires Extends(w, later) && Named(state, w).Some?
    ensures Named(state, later) == Named(state, w)
  {
    hide Named;
    var r := Named(state, w).value;
    NamedMeansDecoded(state, w, r);
    NamedMeansDecoded(state, later, r);
    ReadableLater(state.Keys, w, later);
  }

  lemma MapLater(m: map<int, int>, w: Words, later: Words)
    requires Extends(w, later) && DecodeMap(m, w).Some?
    ensures DecodeMap(m, later) == DecodeMap(m, w)
  {
    hide Named;
    forall i | i in m ensures WordAt(later, m[i]) == WordAt(w, m[i]) {
      assert i in Texts(m, w);
      ExtendedWord(w, later, m[i]);
    }
    assert Texts(m, later) == Texts(m, w);
    NamedLater(Texts(m, w), w, later);
  }

  lemma ValueLater(pb: Compressed, i: int, w: Words, later: Words)
    requires Extends(w, later) && ValueAt(pb, i, w).Some?
    ensures ValueAt(pb, i, later) == ValueAt(pb, i, w)
  {
    if i in pb.strings {
      ExtendedWord(w, later, pb.strings[i]);
    } else if i in pb.stringMaps && DecodeMap(pb.stringMaps[i], w).Some? {
      MapLater(pb.stringMaps[i], w, later);
    }
  }

  lemma DeltaLater(pb: Compressed, w: Words, later: Words)
    requires Extends(w, later) && DecodeDelta(pb, w).Some?
    ensures DecodeDelta(pb, later) == DecodeDelta(pb, w)
  {
    hide ValueAt, Indexes;
    forall i | i in Indexes(pb) ensures ValueAt(pb, i, later) == ValueAt(pb, i, w) { ValueLater(pb, i, w, later); }
    assert DecodeDelta(pb, later).value == DecodeDelta(pb, w).value;
  }

  lemma {:induction false} StateLater(deltas: seq<Compressed>, w: Words, later: Words)
    requires Extends(w, later) && StateAfter(deltas, w).Some?
    ensures StateAfter(deltas, later) == StateAfter(deltas, w)
    decreases |deltas|
  {
    if deltas != [] {
      StateLater(deltas[..|deltas| - 1], w, later);
      DeltaLater(deltas[|deltas| - 1], w, later);
    }
  }

  /** What was decoded stays decoded when the message gets more words. */
  lemma {:induction false} BatchLater(deltas: seq<Compressed>, w: Words, later: Words)
    requires Extends(w, later) && DecodeBatch(deltas, w).Some?
    ensures DecodeBatch(deltas, later) == DecodeBatch(deltas, w)
    decreases |deltas|
  {
    if deltas != [] {
      BatchLater(deltas[..|deltas| - 1], w, later);
      StateLater(deltas, w, later);
      NamedLater(StateAfter(deltas, w).value, w, later);
    }
  }

  // ----- one entry more

  lemma MapStarts(w: Words)
    ensures DecodeMap(map[], w) == Some(map[])
  {
  }

  lemma MapGrows(m: map<int, int>, w: Words, done: map<string, string>, key: int, name: string, value: int,
                 text: string)
    requires DecodeMap(m, w) == Some(done) && name !in done
    requires WordAt(w, key) == Some(name) && WordAt(w, value) == Some(text)
    ensures DecodeMap(m[key := value], w) == Some(done[name := text])
  {
    hide Named, WordAt;
    NamedGrows(Texts(m, w), w, done, key, name, text);
    assert Texts(m[key := value], w) == Texts(m, w)[key := text];
  }

  lemma NamedGrows<V>(state: map<int, V>, w: Words, done: map<string, V>, key: int, name: string, value: V)
    requires Named(state, w) == Some(done) && name !in done && WordAt(w, key) == Some(name)
    ensures key !in state && Named(state[key := value], w) == Some(done[name := value])
  {
    hide Named, WordAt;
    NamedMeansDecoded(state, w, done);
    var state', done' := state[key := value], done[name := value];
    forall i | i in state ensures i != key && WordAt(w, i).value != name { }
    forall n | n in done' ensures exists i :: i in state' && WordAt(w, i) == Some(n) {
      if n == name {
        assert key in state';
      } else {
        var i :| i in state && WordAt(w, i) == Some(n);
        assert i in state';
      }
    }
    assert state'.Keys == state.Keys + {key};
    NamedMeansDecoded(state', w, done');
  }

  // ----- values that are not set are never decoded

  predicate AllSet(attributes: Attributes) {
    forall name :: name in attributes ==> attributes[name] != NotSet
  }

  lemma {:induction false} StateIsSet(deltas: seq<Compressed>, w: Words)
    requires StateAfter(deltas, w).Some?
    ensures forall i :: i in StateAfter(deltas, w).value ==> StateAfter(deltas, w).value[i] != NotSet
    decreases |deltas|
  {
    if deltas != [] {
      StateIsSet(deltas[..|deltas| - 1], w);
      var delta := deltas[|deltas| - 1];
      forall i | i in Indexes(delta) ensures ValueAt(delta, i, w).value != NotSet { }
    }
  }

  lemma {:induction false} DecodedIsSet(deltas: seq<Compressed>, w: Words)
    requires DecodeBatch(deltas, w).Some?
    ensures forall k :: 0 <= k < |DecodeBatch(deltas, w).value| ==> AllSet(DecodeBatch(deltas, w).value[k])
    decreases |deltas|
  {
    if deltas != [] {
      DecodedIsSet(deltas[..|deltas| - 1], w);
      StateIsSet(deltas, w);
    }
  }

  /** The values that are set. */
  ghost function SetOnly<K>(m: map<K, Value>): map<K, Value> {
    map i | i in m && m[i] != NotSet :: m[i]
  }

  /** pb' is pb with one more value, or pb if that value is not set. */
  ghost predicate Filled(pb: Compressed, pb': Compressed, index: int, value: Value, w: Words) {
    if value == NotSet then pb' == pb
    else
      && Indexes(pb') == Indexes(pb) + {index}
      && ValueAt(pb', index, w) == Some(value)
      && forall i :: i in Indexes(pb) ==> ValueAt(pb', i, w) == ValueAt(pb, i, w)
  }

  /** pb with one more value, whose texts have the index word or the indexes m. */
  function Put(pb: Compressed, index: int, value: Value, word: int, m: map<int, int>): Compressed {
    match value
    case StringValue(text) => pb.(strings := pb.strings[index := word])
    case BytesValue(bytes) => pb.(bytes := pb.bytes[index := bytes])
    case Int64Value(int64) => pb.(int64s := pb.int64s[index := int64])
    case DoubleValue(double) => pb.(doubles := pb.doubles[index := double])
    case BoolValue(flag) => pb.(bools := pb.bools[index := flag])
    case TimestampValue(seconds, nanos) => pb.(timestamps := pb.timestamps[index := (seconds, nanos)])
    case DurationValue(seconds, nanos) => pb.(durations := pb.durations[index := (seconds, nanos)])
    case StringMapValue(entries) => pb.(stringMaps := pb.stringMaps[index := m])
    case NotSet => pb
  }

  lemma PutOther(pb: Compressed, index: int, value: Value, word: int, m: map<int, int>, i: int)
    requires i != index
    ensures i in Indexes(Put(pb, index, value, word, m)) <==> i in Indexes(pb)
  {
  }

  lemma PutOwn(pb: Compressed, index: int, value: Value, word: int, m: map<int, int>)
    requires value != NotSet
    ensures index in Indexes(Put(pb, index, value, word, m))
  {
  }

  lemma PutIndexes(pb: Compressed, index: int, value: Value, word: int, m: map<int, int>)
    requires value != NotSet
    ensures Indexes(Put(pb, index, value, word, m)) == Indexes(pb) + {index}
  {
    hide Indexes, Put;
    forall i ensures i in Indexes(Put(pb, index, value, word, m)) <==> i in Indexes(pb) || i == index {
      if i == index { PutOwn(pb, i, value, word, m); } else { PutOther(pb, index, value, word, m, i); }
    }
  }

  lemma PutKeeps(pb: Compressed, index: int, value: Value, word: int, m: map<int, int>, i: int, w: Words)
    requires index !in Indexes(pb) && i in Indexes(pb)
    ensures ValueAt(Put(pb, index, value, word, m), i, w) == ValueAt(pb, i, w)
  {
    hide WordAt, DecodeMap;
  }

  lemma PutAdds(pb: Compressed, index: int, value: Value, word: int, m: map<int, int>, w: Words)
    requires index !in Indexes(pb) && value != NotSet
    requires value.StringValue? ==> WordAt(w, word) == Some(value.text)
    requires value.StringMapValue? ==> DecodeMap(m, w) == Some(value.entries)
    ensures ValueAt(Put(pb, index, value, word, m), index, w) == Some(value)
  {
    hide WordAt, DecodeMap;
  }

  lemma PutFills(pb: Compressed, index: int, value: Value, word: int, m: map<int, int>, w: Words)
    requires index !in Indexes(pb)
    requires value.StringValue? ==> WordAt(w, word) == Some(value.text)
    requires value.StringMapValue? ==> DecodeMap(m, w) == Some(value.entries)
    ensures Filled(pb, Put(pb, index, value, word, m), index, value, w)
  {
    hide WordAt, DecodeMap, ValueAt, Indexes;
    if value != NotSet {
      PutIndexes(pb, index, value, word, m);
      PutAdds(pb, index, value, word, m, w);
      forall i | i in Indexes(pb) ensures ValueAt(Put(pb, index, value, word, m), i, w) == ValueAt(pb, i, w) {
        PutKeeps(pb, index, value, word, m, i, w);
      }
    }
  }

  lemma FilledDecodes(pb: Compressed, pb': Compressed, index: int, value: Value, w: Words, m: map<int, Value>)
    requires Filled(pb, pb', index, value, w) && DecodeDelta(pb, w) == Some(m) && index !in m
    ensures DecodeDelta(pb', w) == Some(if value == NotSet then m else m[index := value])
  {
    hide ValueAt, Indexes;
    if value != NotSet {
      assert DecodeDelta(pb', w).value == m[index := value];
    }
  }

  lemma {:induction false} EmptyBatch(w: Words)
    ensures StateAfter([], w) == Some(map[]) && DecodeBatch([], w) == Some([])
  {
  }

  /** One delta more in a batch decodes to one set more, what all deltas together say. */
  lemma {:induction false} BatchGrows(deltas: seq<Compressed>, pb: Compressed, w: Words, received: map<int, Value>,
                                      delta: map<int, Value>, had: Attributes)
    requires StateAfter(deltas, w) == Some(received) && DecodeBatch(deltas, w).Some?
    requires DecodeDelta(pb, w) == Some(delta) && Named(received + delta, w) == Some(had)
    ensures StateAfter(deltas + [pb], w) == Some(received + delta)
    ensures DecodeBatch(deltas + [pb], w) == Some(DecodeBatch(deltas, w).value + [had])
  {
    hide DecodeDelta;
    assert (deltas + [pb])[..|deltas|] == deltas;
  }

  predicate AllSetsSet(sets: seq<Attributes>) {
    forall k :: 0 <= k < |sets| ==> AllSet(sets[k])
  }

  lemma AllSetsGrow(sets: seq<Attributes>, last: Attributes)
    ensures AllSetsSet(sets + [last]) <==> AllSetsSet(sets) && AllSet(last)
  {
    hide AllSet;
    if AllSetsSet(sets + [last]) {
      assert (sets + [last])[|sets|] == last;
      forall k | 0 <= k < |sets| ensures AllSet(sets[k]) { assert (sets + [last])[k] == sets[k]; }
    }
  }
}
