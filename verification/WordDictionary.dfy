/** Which index a word has at a moment, and what the indexes in use mean for the names behind them. */
module WordDictionaries {
  import opened Wrappers
  import opened AttributeCoding
  import opened DeltaUpdates

  /** The words of a message, the two tables of their indexes, and how many global words may be used. */
  datatype Dictionary = Dictionary(words: Words, global: map<string, int>, top: int, message: map<string, int>)

  /** The tables name places where the words stand; the message has each of its words once, and none
      that may be used as a global one. */
  ghost predicate DictionaryOk(d: Dictionary) {
    && 0 <= d.top <= |d.words.global|
    && (forall n :: n in d.global ==>
          0 <= d.global[n] && (d.global[n] < |d.words.global| ==> d.words.global[d.global[n]] == n))
    && (forall n :: n in d.message ==> 0 <= d.message[n] < |d.words.message| && d.words.message[d.message[n]] == n)
    && (forall k :: 0 <= k < |d.words.message| ==>
          d.words.message[k] in d.message && d.message[d.words.message[k]] == k)
    && (forall n :: n in d.message && n in d.global ==> d.top <= d.global[n])
  }

  /** The index that the word has already. */
  function IndexNow(d: Dictionary, name: string): Option<int> {
    if name in d.global && d.global[name] < d.top then Some(d.global[name])
    else if name in d.message then Some(-d.message[name] - 1)
    else None
  }

  /** Words may be added, and no word changes its index. */
  ghost predicate Keeps(d: Dictionary, later: Dictionary) {
    && Extends(d.words, later.words) && later.global == d.global && later.top == d.top
    && forall name :: IndexNow(d, name).Some? ==> IndexNow(later, name) == IndexNow(d, name)
  }

  lemma KeepsOn(d: Dictionary, d1: Dictionary, d2: Dictionary)
    requires Keeps(d, d1) && Keeps(d1, d2)
    ensures Keeps(d, d2)
  {
    hide IndexNow;
  }

  /** The dictionary in which the word has an index for certain. */
  function With(d: Dictionary, name: string): Dictionary {
    if IndexNow(d, name).Some? then d
    else Dictionary(Words(d.words.global, d.words.message + [name]), d.global, d.top,
                    d.message[name := |d.words.message|])
  }

  lemma WithKeeps(d: Dictionary, name: string)
    requires DictionaryOk(d)
    ensures DictionaryOk(With(d, name)) && Keeps(d, With(d, name))
    ensures IndexNow(With(d, name), name).Some?
  {
    if IndexNow(d, name).None? {
      var later := With(d, name);
      assert later.words.message[|d.words.message|] == name;
    }
  }

  lemma IndexStands(d: Dictionary, name: string)
    requires DictionaryOk(d) && IndexNow(d, name).Some?
    ensures Current(d, IndexNow(d, name).value) && WordAt(d.words, IndexNow(d, name).value) == Some(name)
  {
  }

  /** The index stands for a word that would get it again. */
  ghost predicate Current(d: Dictionary, i: int) {
    WordAt(d.words, i).Some? && IndexNow(d, WordAt(d.words, i).value) == Some(i)
  }

  lemma CurrentLater(d: Dictionary, later: Dictionary, i: int)
    requires Keeps(d, later) && Current(d, i)
    ensures Current(later, i)
  {
    hide IndexNow;
    ExtendedWord(d.words, later.words, i);
  }

  /** The values that a sender remembers and a receiver has by index, and what the sender was told and the
      receiver had by name. */
  datatype Exchange = Exchange(remembered: map<int, Value>, received: map<int, Value>, told: Attributes,
                               had: Attributes)

  /** What the sender remembers by index says what it was told by name, but for indexes cut off by a lower
      top; and the receiver, who knows only remembered indexes, has what it had by name. */
  ghost predicate InStep(d: Dictionary, x: Exchange) {
    && (forall i :: i in x.remembered ==> WordAt(d.words, i).Some? && WordAt(d.words, i).value in x.told)
    && (forall n :: n in x.told ==> exists i :: i in x.remembered && WordAt(d.words, i) == Some(n))
    && (forall i :: i in x.remembered && 0 <= i ==>
          WordAt(d.words, i).value in d.global && d.global[WordAt(d.words, i).value] == i)
    && (forall i :: i in x.remembered && i < d.top ==> x.remembered[i] == x.told[WordAt(d.words, i).value])
    && x.received.Keys <= x.remembered.Keys
    && Named(x.received, d.words) == Some(x.had)
  }

  ghost predicate NothingCutOff(remembered: map<int, Value>, top: int) {
    forall i :: i in remembered ==> i < top
  }

  lemma StartsInStep(d: Dictionary)
    ensures InStep(d, Exchange(map[], map[], map[], map[]))
  {
  }

  /** A lower top cuts indexes off and disturbs nothing else. */
  lemma InStepShrinks(d: Dictionary, top: int, x: Exchange)
    requires DictionaryOk(d) && InStep(d, x) && 0 <= top <= d.top
    ensures DictionaryOk(d.(top := top)) && InStep(d.(top := top), x)
  {
    hide Named, WordAt;
  }

  /** While all global words of the message may be used, nothing is cut off. */
  lemma AllInUse(d: Dictionary, x: Exchange)
    requires InStep(d, x) && d.top == |d.words.global|
    ensures NothingCutOff(x.remembered, d.top)
  {
    hide Named;
  }

  /** Indexes that are not cut off are what their words would get. */
  lemma RememberedIsCurrent(d: Dictionary, x: Exchange, i: int)
    requires DictionaryOk(d) && InStep(d, x)
    requires i in x.remembered && i < d.top
    ensures Current(d, i)
  {
    hide Named;
  }

  /** A set of names with the indexes that they have. */
  ghost predicate IndexedNow(d: Dictionary, indexed: map<int, Value>, attributes: Attributes) {
    && Named(indexed, d.words) == Some(attributes)
    && forall i :: i in indexed ==> Current(d, i)
  }

  // ----- one set more: d before it, later with the words it added

  /** What holds before a set is coded and after its names have indexes. */
  ghost predicate Indexing(d: Dictionary, later: Dictionary, x: Exchange, indexed: map<int, Value>,
                           attributes: Attributes) {
    && DictionaryOk(d) && DictionaryOk(later) && Keeps(d, later)
    && InStep(d, x) && IndexedNow(later, indexed, attributes)
  }

  lemma IsIndexing(d: Dictionary, later: Dictionary, x: Exchange, indexed: map<int, Value>, attributes: Attributes)
    requires DictionaryOk(d) && DictionaryOk(later) && Keeps(d, later)
    requires InStep(d, x) && IndexedNow(later, indexed, attributes)
    ensures Indexing(d, later, x, indexed, attributes)
  {
  }

  /** An index still in use is the one that the set gives to its word. */
  lemma SameIndex(d: Dictionary, later: Dictionary, x: Exchange, indexed: map<int, Value>, attributes: Attributes,
                  i: int)
    requires Indexing(d, later, x, indexed, attributes)
    requires i in x.remembered && i < d.top
    ensures WordAt(later.words, i) == WordAt(d.words, i) && WordAt(d.words, i).Some?
    ensures i in indexed <==> WordAt(d.words, i).value in attributes
    ensures forall j :: j in indexed && WordAt(later.words, j) == WordAt(d.words, i) ==> j == i
  {
    hide Named, IndexNow, DictionaryOk, WordAt;
    RememberedIsCurrent(d, x, i);
    CurrentLater(d, later, i);
    ExtendedWord(d.words, later.words, i);
    NamedMeansDecoded(indexed, later.words, attributes);
    if WordAt(d.words, i).value in attributes {
      var j :| j in indexed && WordAt(later.words, j) == WordAt(d.words, i);
      assert Current(later, j);
    }
  }

  /** A delta can express the set if and only if it has all names told before, and none of their indexes
      has been cut off. */
  lemma SupportedIff(d: Dictionary, later: Dictionary, x: Exchange, indexed: map<int, Value>, attributes: Attributes)
    requires Indexing(d, later, x, indexed, attributes)
    ensures Supported(x.remembered, indexed) <==> Supported(x.told, attributes) && NothingCutOff(x.remembered, d.top)
  {
    hide Named, DictionaryOk, WordAt;
    NamedMeansDecoded(indexed, later.words, attributes);
    if Supported(x.remembered, indexed) {
      forall i | i in x.remembered ensures i < d.top { assert Current(later, i); CurrentBelowTop(later, i); }
      forall n | n in x.told ensures n in attributes {
        var i :| i in x.remembered && WordAt(d.words, i) == Some(n);
        ExtendedWord(d.words, later.words, i);
        assert WordAt(later.words, i).value in attributes;
      }
    }
    if Supported(x.told, attributes) && NothingCutOff(x.remembered, d.top) {
      forall i | i in x.remembered ensures i in indexed {
        SameIndex(d, later, x, indexed, attributes, i);
      }
    }
  }

  lemma CurrentBelowTop(d: Dictionary, i: int)
    requires DictionaryOk(d) && Current(d, i)
    ensures i < d.top && (0 <= i ==> WordAt(d.words, i).value in d.global && d.global[WordAt(d.words, i).value] == i)
  {
  }

  /** The indexes of the set are not cut off. */
  lemma StaysUncut(d: Dictionary, later: Dictionary, x: Exchange, indexed: map<int, Value>, attributes: Attributes)
    requires Indexing(d, later, x, indexed, attributes)
    ensures NothingCutOff(x.remembered + indexed, d.top) <==> NothingCutOff(x.remembered, d.top)
  {
    hide DictionaryOk, InStep, Current, Named;
    forall i | i in indexed ensures i < d.top { CurrentBelowTop(later, i); }
    if NothingCutOff(x.remembered + indexed, d.top) {
      forall i | i in x.remembered ensures i < d.top { assert i in x.remembered + indexed; }
    }
  }

  lemma MeansLater(d: Dictionary, later: Dictionary, x: Exchange, indexed: map<int, Value>, attributes: Attributes)
    requires Indexing(d, later, x, indexed, attributes)
    ensures NamedMeans(x.received, later.words, x.had) && x.received.Keys <= x.remembered.Keys
    ensures NamedMeans(indexed, later.words, attributes) && Readable(indexed.Keys, later.words)
  {
    hide Named, DictionaryOk, WordAt, IndexNow, Current;
    NamedMeansDecoded(indexed, later.words, attributes);
    NamedLater(x.received, d.words, later.words);
    NamedMeansDecoded(x.received, later.words, x.had);
  }

  lemma RemembersValue(d: Dictionary, later: Dictionary, x: Exchange, indexed: map<int, Value>, attributes: Attributes,
                       i: int)
    requires Indexing(d, later, x, indexed, attributes) && i in x.remembered + indexed
    ensures WordAt(later.words, i).Some? && WordAt(later.words, i).value in x.told + attributes
    ensures 0 <= i ==> WordAt(later.words, i).value in later.global && later.global[WordAt(later.words, i).value] == i
    ensures i < later.top ==> (x.remembered + indexed)[i] == (x.told + attributes)[WordAt(later.words, i).value]
  {
    hide Named, DictionaryOk, WordAt, IndexNow;
    if i in indexed {
      NamedMeansDecoded(indexed, later.words, attributes);
      CurrentBelowTop(later, i);
    } else {
      ExtendedWord(d.words, later.words, i);
      if i < d.top { SameIndex(d, later, x, indexed, attributes, i); }
    }
  }

  lemma RemembersName(d: Dictionary, later: Dictionary, x: Exchange, indexed: map<int, Value>, attributes: Attributes,
                      n: string)
    requires Indexing(d, later, x, indexed, attributes) && n in x.told + attributes
    ensures exists i :: i in x.remembered + indexed && WordAt(later.words, i) == Some(n)
  {
    hide Named, DictionaryOk, WordAt, IndexNow;
    if n in attributes {
      NamedMeansDecoded(indexed, later.words, attributes);
      var i :| i in indexed && WordAt(later.words, i) == Some(n);
      assert i in x.remembered + indexed;
    } else {
      var i :| i in x.remembered && WordAt(d.words, i) == Some(n);
      ExtendedWord(d.words, later.words, i);
      assert i in x.remembered + indexed;
    }
  }

  /** What the sender remembers after the set. */
  lemma RemembersTold(d: Dictionary, later: Dictionary, x: Exchange, indexed: map<int, Value>, attributes: Attributes)
    requires Indexing(d, later, x, indexed, attributes)
    ensures InStep(later, x.(remembered := x.remembered + indexed, told := x.told + attributes))
  {
    hide Named, WordAt, Indexing;
    MeansLater(d, later, x, indexed, attributes);
    NamedMeansDecoded(x.received, later.words, x.had);
    forall i | i in x.remembered + indexed
      ensures WordAt(later.words, i).Some? && WordAt(later.words, i).value in x.told + attributes
      ensures 0 <= i ==> WordAt(later.words, i).value in later.global && later.global[WordAt(later.words, i).value] == i
      ensures i < later.top ==> (x.remembered + indexed)[i] == (x.told + attributes)[WordAt(later.words, i).value]
    {
      RemembersValue(d, later, x, indexed, attributes, i);
    }
    forall n | n in x.told + attributes
      ensures exists i :: i in x.remembered + indexed && WordAt(later.words, i) == Some(n)
    {
      RemembersName(d, later, x, indexed, attributes, n);
    }
  }

  lemma SameAsTold(d: Dictionary, later: Dictionary, x: Exchange, indexed: map<int, Value>, attributes: Attributes,
                   i: int)
    requires Indexing(d, later, x, indexed, attributes)
    requires NothingCutOff(x.remembered, d.top) && i in indexed
    ensures WordAt(later.words, i).Some?
    ensures i in x.remembered <==> WordAt(later.words, i).value in x.told
    ensures i in x.remembered ==> x.remembered[i] == x.told[WordAt(later.words, i).value]
  {
    hide Named, DictionaryOk, WordAt, IndexNow;
    assert Current(later, i);
    var n := WordAt(later.words, i).value;
    if i in x.remembered { ExtendedWord(d.words, later.words, i); }
    if n in x.told {
      var j :| j in x.remembered && WordAt(d.words, j) == Some(n);
      SameIndex(d, later, x, indexed, attributes, j);
    }
  }

  /** Emission commutes with naming. */
  lemma EmittedNames(remembered: map<int, Value>, indexed: map<int, Value>, told: Attributes, attributes: Attributes,
                     w: Words)
    requires NamedMeans(indexed, w, attributes)
    requires forall i :: i in indexed ==> (i in remembered <==> WordAt(w, i).value in told)
    requires forall i :: i in indexed && i in remembered && WordAt(w, i).value in told ==>
               remembered[i] == told[WordAt(w, i).value]
    ensures NamedMeans(SetOnly(Emitted(remembered, indexed)), w, SetOnly(Emitted(told, attributes)))
  {
    hide WordAt;
    var e, f := SetOnly(Emitted(remembered, indexed)), SetOnly(Emitted(told, attributes));
    forall n | n in f ensures exists i :: i in e && WordAt(w, i) == Some(n) {
      var i :| i in indexed && WordAt(w, i) == Some(n);
      assert i in e;
    }
  }

  /** Naming commutes with updates among indexes that are readable together. */
  lemma NamesAdd(a: map<int, Value>, b: map<int, Value>, x: Attributes, y: Attributes, keys: set<int>, w: Words)
    requires NamedMeans(a, w, x) && NamedMeans(b, w, y)
    requires Readable(keys, w) && a.Keys <= keys && b.Keys <= keys
    ensures Named(a + b, w) == Some(x + y)
  {
    hide WordAt, Named;
    forall n | n in x + y ensures exists i :: i in a + b && WordAt(w, i) == Some(n) {
      if n in y {
        var i :| i in b && WordAt(w, i) == Some(n);
        assert i in a + b;
      } else {
        var i :| i in a && WordAt(w, i) == Some(n);
        assert i in a + b;
      }
    }
    NamedMeansDecoded(a + b, w, x + y);
  }

  lemma EmittedIsIndexed(x: Exchange, indexed: map<int, Value>)
    ensures SetOnly(Emitted(x.remembered, indexed)).Keys <= indexed.Keys
  {
  }

  /** What is emitted for the indexes is what is emitted for the names. */
  lemma EmittedByName(d: Dictionary, later: Dictionary, x: Exchange, indexed: map<int, Value>, attributes: Attributes)
    requires Indexing(d, later, x, indexed, attributes)
    requires Supported(x.remembered, indexed)
    ensures Named(x.received + SetOnly(Emitted(x.remembered, indexed)), later.words)
            == Some(x.had + SetOnly(Emitted(x.told, attributes)))
  {
    hide Named, WordAt, Indexing, NamedMeans, Readable, Emitted, SetOnly, NothingCutOff;
    SupportedIff(d, later, x, indexed, attributes);
    MeansLater(d, later, x, indexed, attributes);
    forall i | i in indexed
      ensures WordAt(later.words, i).Some?
      ensures i in x.remembered <==> WordAt(later.words, i).value in x.told
      ensures i in x.remembered ==> x.remembered[i] == x.told[WordAt(later.words, i).value]
    {
      SameAsTold(d, later, x, indexed, attributes, i);
    }
    EmittedNames(x.remembered, indexed, x.told, attributes, later.words);
    EmittedIsIndexed(x, indexed);
    NamesAdd(x.received, SetOnly(Emitted(x.remembered, indexed)), x.had, SetOnly(Emitted(x.told, attributes)),
             indexed.Keys, later.words);
  }

  /** Sender and receiver after a set that was sent. */
  lemma StaysInStep(d: Dictionary, later: Dictionary, x: Exchange, indexed: map<int, Value>, attributes: Attributes)
    requires Indexing(d, later, x, indexed, attributes) && Supported(x.remembered, indexed)
    ensures InStep(later, Exchange(x.remembered + indexed, x.received + SetOnly(Emitted(x.remembered, indexed)),
                                   x.told + attributes, x.had + SetOnly(Emitted(x.told, attributes))))
  {
    hide Named, DictionaryOk, WordAt, Indexing;
    RemembersTold(d, later, x, indexed, attributes);
    EmittedByName(d, later, x, indexed, attributes);
  }

  // ----- while the names of a set get their indexes

  lemma IndexedLater(d: Dictionary, later: Dictionary, indexed: map<int, Value>, attributes: Attributes)
    requires IndexedNow(d, indexed, attributes) && Keeps(d, later)
    ensures IndexedNow(later, indexed, attributes)
  {
    hide Named, Current;
    NamedLater(indexed, d.words, later.words);
    forall i | i in indexed ensures Current(later, i) { CurrentLater(d, later, i); }
  }

  lemma IndexedGrows(d: Dictionary, indexed: map<int, Value>, attributes: Attributes, index: int, name: string,
                     value: Value)
    requires IndexedNow(d, indexed, attributes) && name !in attributes
    requires Current(d, index) && WordAt(d.words, index) == Some(name)
    ensures index !in indexed && IndexedNow(d, indexed[index := value], attributes[name := value])
  {
    hide Named, Current;
    NamedGrows(indexed, d.words, attributes, index, name, value);
  }
}
