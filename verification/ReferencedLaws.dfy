/** What src/referenced.cc makes of a server's answer, told on the two word lists and the attributes at hand. */
module ReferencedLaws {
  import opened Wrappers
  import opened AttributeCoding
  import opened ReferencedAttributes
  import opened ReferencedModel

  /** An index from 0 up is one of the global words, one from -1 down one of the answer's own. */
  predicate HasWord(idx: int, globalWords: seq<string>, words: seq<string>) {
    if idx >= 0 then idx < |globalWords| else -idx <= |words|
  }

  function WordOf(idx: int, globalWords: seq<string>, words: seq<string>): string
    requires HasWord(idx, globalWords, words)
  {
    if idx >= 0 then globalWords[idx] else words[-idx - 1]
  }

  predicate IsStringMap(name: string, attributes: Attributes) {
    name in attributes && attributes[name].StringMapValue?
  }

  /** The words of a match that are needed are there, and it is no regular expression. */
  predicate CanUse(m: Match, attributes: Attributes, globalWords: seq<string>, words: seq<string>) {
    && HasWord(m.name, globalWords, words)
    && (IsStringMap(WordOf(m.name, globalWords, words), attributes) ==> HasWord(m.mapKey, globalWords, words))
    && m.condition != Regex
  }

  /** The name, and the map key if there is a string map of that name. */
  function KeyOf(m: Match, attributes: Attributes, globalWords: seq<string>, words: seq<string>): AttributeRef
    requires CanUse(m, attributes, globalWords, words)
  {
    var name := WordOf(m.name, globalWords, words);
    AttributeRef(name, if IsStringMap(name, attributes) then WordOf(m.mapKey, globalWords, words) else "")
  }

  lemma UsableIff(m: Match, attributes: Attributes, globalWords: seq<string>, words: seq<string>)
    ensures Usable(m, attributes, Words(globalWords, words)) <==> CanUse(m, attributes, globalWords, words)
    ensures CanUse(m, attributes, globalWords, words) ==>
              RefOf(m, attributes, Words(globalWords, words)) == Some(KeyOf(m, attributes, globalWords, words))
  {
  }

  /** An answer can be used if and only if each of its matches can. */
  lemma FillableIff(matches: seq<Match>, attributes: Attributes, globalWords: seq<string>, words: seq<string>)
    ensures Fillable(matches, attributes, Words(globalWords, words)) <==>
            forall i :: 0 <= i < |matches| ==> CanUse(matches[i], attributes, globalWords, words)
  {
    hide Usable, CanUse;
    forall i | 0 <= i < |matches|
      ensures Usable(matches[i], attributes, Words(globalWords, words)) <==>
              CanUse(matches[i], attributes, globalWords, words)
    {
      UsableIff(matches[i], attributes, globalWords, words);
    }
  }

  /** The matches of a condition that give a key. */
  ghost function Giving(key: AttributeRef, matches: seq<Match>, c: Condition, attributes: Attributes,
                        globalWords: seq<string>, words: seq<string>): set<nat>
  {
    set i: nat | i < |matches| && matches[i].condition == c && CanUse(matches[i], attributes, globalWords, words)
                 && KeyOf(matches[i], attributes, globalWords, words) == key
  }

  lemma {:induction false} KeysAreGiven(matches: seq<Match>, c: Condition, attributes: Attributes,
                                        globalWords: seq<string>, words: seq<string>, key: AttributeRef)
    requires forall i :: 0 <= i < |matches| ==> CanUse(matches[i], attributes, globalWords, words)
    ensures multiset(KeysOf(matches, c, attributes, Words(globalWords, words)))[key] ==
            |Giving(key, matches, c, attributes, globalWords, words)|
    decreases |matches|
  {
    hide CanUse, KeyOf, RefOf, Giving, KeysOf;
    if matches == [] {
      GivingNothing(key, c, attributes, globalWords, words);
    } else {
      var n, w := |matches| - 1, Words(globalWords, words);
      var init, last := matches[..n], matches[n];
      KeysAreGiven(init, c, attributes, globalWords, words, key);
      assert matches == init + [last];
      KeysConcat(init, [last], c, attributes, w);
      OneKey(last, c, attributes, globalWords, words);
      GivingGrows(key, matches, c, attributes, globalWords, words);
    }
  }

  lemma {:induction false} OneKey(m: Match, c: Condition, attributes: Attributes, globalWords: seq<string>,
                                  words: seq<string>)
    requires CanUse(m, attributes, globalWords, words)
    ensures KeysOf([m], c, attributes, Words(globalWords, words)) ==
            if m.condition == c then [KeyOf(m, attributes, globalWords, words)] else []
  {
    hide CanUse, KeyOf, RefOf;
    UsableIff(m, attributes, globalWords, words);
    assert [m][1..] == [];
  }

  lemma {:induction false} GivingNothing(key: AttributeRef, c: Condition, attributes: Attributes,
                                         globalWords: seq<string>, words: seq<string>)
    ensures |Giving(key, [], c, attributes, globalWords, words)| == 0
    ensures KeysOf([], c, attributes, Words(globalWords, words)) == []
  {
    assert Giving(key, [], c, attributes, globalWords, words) == {};
  }

  lemma GivingGrows(key: AttributeRef, matches: seq<Match>, c: Condition, attributes: Attributes,
                    globalWords: seq<string>, words: seq<string>)
    requires matches != [] && forall i :: 0 <= i < |matches| ==> CanUse(matches[i], attributes, globalWords, words)
    ensures var n := |matches| - 1;
            |Giving(key, matches, c, attributes, globalWords, words)| ==
            |Giving(key, matches[..n], c, attributes, globalWords, words)|
            + if matches[n].condition == c && KeyOf(matches[n], attributes, globalWords, words) == key then 1 else 0
  {
    hide CanUse, KeyOf;
    var n := |matches| - 1;
    var before, after := Giving(key, matches[..n], c, attributes, globalWords, words),
                         Giving(key, matches, c, attributes, globalWords, words);
    if matches[n].condition == c && KeyOf(matches[n], attributes, globalWords, words) == key {
      assert after == before + {n};
    } else {
      assert after == before;
    }
  }

  /** Fill succeeds on what can be used; then the keys of a condition are in order, and each is there as often as
      a match of the condition gives it. */
  lemma FillIsExact(matches: seq<Match>, c: Condition, attributes: Attributes, globalWords: seq<string>,
                    words: seq<string>)
    requires Fillable(matches, attributes, Words(globalWords, words))
    ensures var keys := ReferencedAttributes.Filled(matches, c, attributes, Words(globalWords, words));
            && Ordered(keys)
            && forall key :: multiset(keys)[key] == |Giving(key, matches, c, attributes, globalWords, words)|
  {
    hide Giving, KeysOf;
    FillableIff(matches, attributes, globalWords, words);
    SortedIsOrdered(KeysOf(matches, c, attributes, Words(globalWords, words)));
    forall key ensures multiset(KeysOf(matches, c, attributes, Words(globalWords, words)))[key] ==
                       |Giving(key, matches, c, attributes, globalWords, words)|
    {
      KeysAreGiven(matches, c, attributes, globalWords, words, key);
    }
  }

  /** There is a signature exactly if each absence key names nothing, or a string map without the map key, and each
      exact key names something, with the map key in it if it is a string map. */
  lemma SignatureExistsIff(absence: seq<AttributeRef>, exact: seq<AttributeRef>, attributes: Attributes,
                           extraKey: string)
    ensures SignatureOf(absence, exact, attributes, extraKey).Some? <==>
            && (forall i :: 0 <= i < |absence| ==>
                  absence[i].name !in attributes
                  || (IsStringMap(absence[i].name, attributes)
                      && absence[i].mapKey !in attributes[absence[i].name].entries))
            && (forall i :: 0 <= i < |exact| ==>
                  exact[i].name in attributes
                  && (IsStringMap(exact[i].name, attributes) ==> exact[i].mapKey in attributes[exact[i].name].entries))
  {
    hide SignatureOf;
    SignatureIff(absence, exact, attributes, extraKey);
    forall i | 0 <= i < |absence|
      ensures AbsentIn(absence[i], attributes) <==>
              absence[i].name !in attributes
              || (IsStringMap(absence[i].name, attributes)
                  && absence[i].mapKey !in attributes[absence[i].name].entries)
    {
    }
  }
}
