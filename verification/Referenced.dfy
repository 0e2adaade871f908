/** The object of src/referenced.cc: keys filled in from a server's answer, then used to sign sets. */
module ReferencedAttributes {
  import opened Wrappers
  import opened AttributeCoding
  import opened ReferencedHashes
  import opened ReferencedModel

  /** Looks an index up in the global or the message's words. */
  method Decode(idx: int, globalWords: seq<string>, words: seq<string>) returns (str: Option<string>)
    ensures str == WordAt(Words(globalWords, words), idx)
  {
    if idx >= 0 {
      if idx >= |globalWords| { return None; }
      return Some(globalWords[idx]);
    }
    var i := -idx - 1;
    if i >= |words| { return None; }
    return Some(words[i]);
  }

  method DecodeMatch(m: Match, attributes: Attributes, globalWords: seq<string>, words: seq<string>)
      returns (r: Option<AttributeRef>)
    ensures r == RefOf(m, attributes, Words(globalWords, words))
  {
    var name := Decode(m.name, globalWords, words);
    if name.None? { return None; }
    var mapKey := "";
    if name.value in attributes && attributes[name.value].StringMapValue? {
      var k := Decode(m.mapKey, globalWords, words);
      if k.None? { return None; }
      mapKey := k.value;
    }
    return Some(AttributeRef(name.value, mapKey));
  }

  lemma {:induction false} OneMatchMore(matches: seq<Match>, i: nat, c: Condition, attributes: Attributes, w: Words)
    requires i < |matches| && RefOf(matches[i], attributes, w).Some?
    ensures KeysOf(matches[..i + 1], c, attributes, w) ==
            KeysOf(matches[..i], c, attributes, w)
            + (if matches[i].condition == c then [RefOf(matches[i], attributes, w).value] else [])
  {
    assert matches[..i + 1] == matches[..i] + [matches[i]];
    KeysConcat(matches[..i], [matches[i]], c, attributes, w);
    assert [matches[i]][1..] == [];
  }

  lemma NoMatches(attributes: Attributes, w: Words)
    ensures forall c :: KeysOf([], c, attributes, w) == []
  {
  }

  class Referenced {
    var absenceKeys: seq<AttributeRef>
    var exactKeys: seq<AttributeRef>

    constructor ()
      ensures absenceKeys == [] && exactKeys == []
    {
      absenceKeys, exactKeys := [], [];
    }

    /** false if a word cannot be decoded or a match is a regular expression. */
    method Fill(attributes: Attributes, matches: seq<Match>, globalWords: seq<string>, words: seq<string>)
        returns (ok: bool)
      modifies this
      ensures var w := Words(globalWords, words);
              && ok == Fillable(matches, attributes, w)
              && (ok ==>
                    && absenceKeys == SortKeys(old(absenceKeys) + KeysOf(matches, Absence, attributes, w))
                    && exactKeys == SortKeys(old(exactKeys) + KeysOf(matches, Exact, attributes, w)))
    {
      hide SortKeys, RefOf, KeysOf;
      ghost var w := Words(globalWords, words);
      NoMatches(attributes, w);
      for i := 0 to |matches|
        invariant forall j :: 0 <= j < i ==> Usable(matches[j], attributes, w)
        invariant absenceKeys == old(absenceKeys) + KeysOf(matches[..i], Absence, attributes, w)
        invariant exactKeys == old(exactKeys) + KeysOf(matches[..i], Exact, attributes, w)
      {
        var m := matches[i];
        var r := DecodeMatch(m, attributes, globalWords, words);
        if r.None? { return false; }
        OneMatchMore(matches, i, Absence, attributes, w);
        OneMatchMore(matches, i, Exact, attributes, w);
        if m.condition == Absence {
          absenceKeys := absenceKeys + [r.value];
        } else if m.condition == Exact {
          exactKeys := exactKeys + [r.value];
        } else if m.condition == Regex {
          return false;
        }
      }
      assert matches[..|matches|] == matches;
      absenceKeys := SortKeys(absenceKeys);
      exactKeys := SortKeys(exactKeys);
      return true;
    }

    /** Whether no absence key is there; the keys of one string map are looked up in one go. */
    method CheckAbsence(attributes: Attributes) returns (ok: bool)
      ensures ok <==> forall i :: 0 <= i < |absenceKeys| ==> AbsentIn(absenceKeys[i], attributes)
    {
      var i := 0;
      while i < |absenceKeys|
        invariant i <= |absenceKeys| && forall j :: 0 <= j < i ==> AbsentIn(absenceKeys[j], attributes)
      {
        var key := absenceKeys[i];
        if key.name !in attributes {
          i := i + 1;
          continue;
        }
        var value := attributes[key.name];
        if !value.StringMapValue? { return false; }
        var mapKey := key.mapKey;
        while true
          invariant i < |absenceKeys| && absenceKeys[i] == AttributeRef(key.name, mapKey)
          invariant forall j :: 0 <= j < i ==> AbsentIn(absenceKeys[j], attributes)
          decreases |absenceKeys| - i
        {
          if mapKey in value.entries { return false; }
          if i + 1 == |absenceKeys| || absenceKeys[i + 1].name != key.name {
            break;
          }
          i := i + 1;
          mapKey := absenceKeys[i].mapKey;
        }
        i := i + 1;
      }
      return true;
    }

    /** The entries of one string map; i is the last of its keys. */
    method HashEntries(start: nat, entries: map<string, string>) returns (tokens: Option<seq<Token>>, i: nat)
      requires start < |exactKeys|
      ensures var n := GroupLength(exactKeys[start..]);
              && tokens == EntryTokens(exactKeys[start..start + n], entries)
              && (tokens.Some? ==> i + 1 == start + n)
    {
      hide EntryTokens, GroupLength;
      var name := exactKeys[start].name;
      ghost var end := start + GroupLength(exactKeys[start..]);
      assert exactKeys[start..][0] == exactKeys[start];
      assert forall j :: start <= j < end ==> exactKeys[j].name == name by {
        forall j | start <= j < end ensures exactKeys[j].name == name {
          assert exactKeys[start..][j - start] == exactKeys[j];
        }
      }
      assert end < |exactKeys| ==> exactKeys[end].name != name by {
        if end < |exactKeys| { assert exactKeys[start..][end - start] == exactKeys[end]; }
      }
      i := start;
      var mapKey := exactKeys[start].mapKey;
      var hashed: seq<Token> := [];
      AfterNothing(EntryTokens(exactKeys[start..end], entries));
      while true
        invariant start <= i < end && exactKeys[i].mapKey == mapKey
        invariant EntryTokens(exactKeys[start..end], entries) == After(hashed, EntryTokens(exactKeys[i..end], entries))
        decreases end - i
      {
        EntriesUnfold(exactKeys, i, end, entries);
        if mapKey !in entries { return None, i; }
        AfterTwice(hashed, [Text(mapKey), Delimiter, Text(entries[mapKey]), Delimiter],
                   EntryTokens(exactKeys[i + 1..end], entries));
        hashed := hashed + [Text(mapKey), Delimiter, Text(entries[mapKey]), Delimiter];
        if i + 1 == |exactKeys| || exactKeys[i + 1].name != name {
          break;
        }
        i := i + 1;
        mapKey := exactKeys[i].mapKey;
      }
      assert i + 1 == end;
      NoEntries(exactKeys[i + 1..end], entries);
      assert hashed + [] == hashed;
      return Some(hashed), i;
    }

    /** Signs the attributes, unless they do not have the keys' presence and absence. */
    method Signature(attributes: Attributes, extraKey: string) returns (signature: Option<Digest>)
      ensures signature == SignatureOf(absenceKeys, exactKeys, attributes, extraKey)
    {
      hide ExactTokens, StepTokens, StepLength, EntryTokens, GroupLength, AbsentIn;
      var absent := CheckAbsence(attributes);
      if !absent { return None; }
      var hasher: seq<Token> := [];
      var i := 0;
      assert exactKeys[0..] == exactKeys;
      AfterNothing(ExactTokens(exactKeys, attributes));
      while i < |exactKeys|
        invariant i <= |exactKeys|
        invariant ExactTokens(exactKeys, attributes) == After(hasher, ExactTokens(exactKeys[i..], attributes))
      {
        StepUnfolds(exactKeys, i, attributes);
        var key := exactKeys[i];
        if key.name !in attributes { return None; }
        ghost var before, start := hasher, i;
        hasher := hasher + [Text(key.name), Delimiter];
        var value := attributes[key.name];
        var hashed;
        if value.StringMapValue? {
          hashed, i := HashEntries(i, value.entries);
          if hashed.None? { return None; }
          hasher := hasher + hashed.value;
        } else {
          hashed := Some(ValueTokens(value));
          hasher := hasher + hashed.value;
        }
        hasher := hasher + [Delimiter];
        i := i + 1;
        assert hasher == before + ([Text(key.name), Delimiter] + hashed.value + [Delimiter]);
        AfterTwice(before, [Text(key.name), Delimiter] + hashed.value + [Delimiter],
                   ExactTokens(exactKeys[i..], attributes));
      }
      NoKeys(exactKeys[i..], attributes);
      assert hasher + [] == hasher;
      return Some(hasher + [Text(extraKey)]);
    }

    method UpdateHash(keys: seq<AttributeRef>, hasher: seq<Token>) returns (updated: seq<Token>)
      ensures updated == hasher + KeyTokens(keys)
    {
      updated := hasher;
      for i := 0 to |keys|
        invariant updated + KeyTokens(keys[i..]) == hasher + KeyTokens(keys)
      {
        ghost var before := updated;
        updated := updated + [Text(keys[i].name), Delimiter];
        if keys[i].mapKey != "" {
          updated := updated + [Text(keys[i].mapKey), Delimiter];
        }
        assert updated == before + RefTokens(keys[i]);
        assert before + (RefTokens(keys[i]) + KeyTokens(keys[i + 1..])) == updated + KeyTokens(keys[i + 1..]);
        assert keys[i..][1..] == keys[i + 1..];
      }
    }

    method Hash() returns (hash: Digest)
      ensures hash == HashOf(absenceKeys, exactKeys)
    {
      hash := UpdateHash(absenceKeys, []);
      hash := hash + [Text(":")];
      hash := UpdateHash(exactKeys, hash);
    }
  }

  /** More tokens behind those of hashed. */
  ghost function After(hashed: seq<Token>, more: Option<seq<Token>>): Option<seq<Token>> {
    if more.None? then None else Some(hashed + more.value)
  }

  lemma AfterNothing(more: Option<seq<Token>>)
    ensures After([], more) == more
  {
    if more.Some? { assert [] + more.value == more.value; }
  }

  lemma AfterTwice(a: seq<Token>, b: seq<Token>, more: Option<seq<Token>>)
    ensures After(a, After(b, more)) == After(a + b, more)
  {
    if more.Some? { assert a + (b + more.value) == a + b + more.value; }
  }

  lemma {:induction false} EntriesUnfold(keys: seq<AttributeRef>, i: nat, end: nat, entries: map<string, string>)
    requires i < end <= |keys|
    ensures EntryTokens(keys[i..end], entries) ==
            if keys[i].mapKey !in entries then None
            else After([Text(keys[i].mapKey), Delimiter, Text(entries[keys[i].mapKey]), Delimiter],
                       EntryTokens(keys[i + 1..end], entries))
  {
    assert keys[i..end][1..] == keys[i + 1..end];
  }

  lemma {:induction false} NoEntries(keys: seq<AttributeRef>, entries: map<string, string>)
    requires keys == []
    ensures EntryTokens(keys, entries) == Some([])
  {
  }

  lemma {:induction false} NoKeys(keys: seq<AttributeRef>, attributes: Attributes)
    requires keys == []
    ensures ExactTokens(keys, attributes) == Some([])
  {
  }

  lemma {:induction false} StepUnfolds(keys: seq<AttributeRef>, i: nat, attributes: Attributes)
    requires i < |keys|
    ensures var name, all := keys[i].name, ExactTokens(keys[i..], attributes);
            if name !in attributes then all == None
            else if attributes[name].StringMapValue? then
              var n := GroupLength(keys[i..]);
              var entries := EntryTokens(keys[i..i + n], attributes[name].entries);
              all == if entries.None? then None
                     else After([Text(name), Delimiter] + entries.value + [Delimiter],
                                ExactTokens(keys[i + n..], attributes))
            else
              all == After([Text(name), Delimiter] + ValueTokens(attributes[name]) + [Delimiter],
                           ExactTokens(keys[i + 1..], attributes))
  {
    hide EntryTokens, GroupLength, ExactTokens;
    var rest := keys[i..];
    var n := StepLength(rest, attributes);
    ExactUnfolds(rest, attributes);
    assert rest[n..] == keys[i + n..];
    assert rest[..n] == keys[i..i + n];
  }

  lemma {:induction false} ExactUnfolds(keys: seq<AttributeRef>, attributes: Attributes)
    requires keys != []
    ensures ExactTokens(keys, attributes) ==
            var here := StepTokens(keys, attributes);
            if here.None? then None
            else After(here.value, ExactTokens(keys[StepLength(keys, attributes)..], attributes))
  {
  }

  /** The order of the server's matches changes neither hash nor signatures. */
  lemma {:induction false} MatchOrderIsIrrelevant(a: seq<Match>, b: seq<Match>, attributes: Attributes, w: Words,
                                                  signed: Attributes, extraKey: string)
    requires multiset(a) == multiset(b)
    ensures Fillable(a, attributes, w) <==> Fillable(b, attributes, w)
    ensures var aa, ae := SortKeys(KeysOf(a, Absence, attributes, w)), SortKeys(KeysOf(a, Exact, attributes, w));
            var ba, be := SortKeys(KeysOf(b, Absence, attributes, w)), SortKeys(KeysOf(b, Exact, attributes, w));
            && HashOf(aa, ae) == HashOf(ba, be)
            && SignatureOf(aa, ae, signed, extraKey) == SignatureOf(ba, be, signed, extraKey)
  {
    OrderOfMatchesIsIrrelevant(a, b, Absence, attributes, w);
    OrderOfMatchesIsIrrelevant(a, b, Exact, attributes, w);
  }

  // ----- what Fill makes of matches, and when the hash tells it apart

  /** The keys of one condition that Fill leaves in a new object. */
  function Filled(matches: seq<Match>, condition: Condition, attributes: Attributes, w: Words): seq<AttributeRef> {
    SortKeys(KeysOf(matches, condition, attributes, w))
  }

  function HashOfFilled(matches: seq<Match>, attributes: Attributes, w: Words): Digest {
    HashOf(Filled(matches, Absence, attributes, w), Filled(matches, Exact, attributes, w))
  }

  /** Names that are looked at with a map key are mapped, the others plain. */
  predicate MatchesUse(matches: seq<Match>, attributes: Attributes, w: Words, plain: string -> bool,
                       mapped: string -> bool) {
    forall i :: 0 <= i < |matches| && Usable(matches[i], attributes, w) ==>
      var key := RefOf(matches[i], attributes, w).value;
      if key.mapKey == "" then plain(key.name) else mapped(key.name)
  }

  lemma {:induction false} KeysOfUse(matches: seq<Match>, condition: Condition, attributes: Attributes, w: Words,
                                     plain: string -> bool, mapped: string -> bool)
    requires Fillable(matches, attributes, w) && MatchesUse(matches, attributes, w, plain, mapped)
    ensures Uses(KeysOf(matches, condition, attributes, w), plain, mapped)
    decreases |matches|
  {
    hide RefOf;
    if matches != [] {
      forall i | 0 <= i < |matches[1..]| ensures Usable(matches[1..][i], attributes, w) {
        assert Usable(matches[i + 1], attributes, w);
      }
      KeysOfUse(matches[1..], condition, attributes, w, plain, mapped);
      assert Usable(matches[0], attributes, w);
    }
  }

  lemma {:induction false} FilledUse(matches: seq<Match>, condition: Condition, attributes: Attributes, w: Words,
                                     plain: string -> bool, mapped: string -> bool)
    requires Fillable(matches, attributes, w) && MatchesUse(matches, attributes, w, plain, mapped)
    ensures Ordered(Filled(matches, condition, attributes, w))
    ensures Uses(Filled(matches, condition, attributes, w), plain, mapped)
  {
    hide KeysOf, Fillable, MatchesUse;
    var keys := KeysOf(matches, condition, attributes, w);
    KeysOfUse(matches, condition, attributes, w, plain, mapped);
    SortedIsOrdered(keys);
    var sorted := SortKeys(keys);
    forall i | 0 <= i < |sorted|
      ensures if sorted[i].mapKey == "" then plain(sorted[i].name) else mapped(sorted[i].name)
    {
      assert sorted[i] in multiset(sorted) && sorted[i] in multiset(keys);
    }
  }

  /** Different keys, filled in from any matches on any attributes with such names, have different hashes. */
  ghost predicate FillsIdentified(plain: string -> bool, mapped: string -> bool) {
    forall a, attributes, w, a', attributes', w' ::
      && Fillable(a, attributes, w) && MatchesUse(a, attributes, w, plain, mapped)
      && Fillable(a', attributes', w') && MatchesUse(a', attributes', w', plain, mapped)
      && HashOfFilled(a, attributes, w) == HashOfFilled(a', attributes', w') ==>
      && Filled(a, Absence, attributes, w) == Filled(a', Absence, attributes', w')
      && Filled(a, Exact, attributes, w) == Filled(a', Exact, attributes', w')
  }

  lemma {:induction false} FilledIsIdentified(a: seq<Match>, attributes: Attributes, w: Words, a': seq<Match>,
                                              attributes': Attributes, w': Words, plain: string -> bool,
                                              mapped: string -> bool)
    requires Unambiguous(plain, mapped)
    requires Fillable(a, attributes, w) && MatchesUse(a, attributes, w, plain, mapped)
    requires Fillable(a', attributes', w') && MatchesUse(a', attributes', w', plain, mapped)
    requires HashOfFilled(a, attributes, w) == HashOfFilled(a', attributes', w')
    ensures Filled(a, Absence, attributes, w) == Filled(a', Absence, attributes', w')
    ensures Filled(a, Exact, attributes, w) == Filled(a', Exact, attributes', w')
  {
    hide Filled, Fillable, MatchesUse, HashOf, Ordered, Uses, Unambiguous;
    HashIdentifiesIff(plain, mapped);
    FilledUse(a, Absence, attributes, w, plain, mapped);
    FilledUse(a, Exact, attributes, w, plain, mapped);
    FilledUse(a', Absence, attributes', w', plain, mapped);
    FilledUse(a', Exact, attributes', w', plain, mapped);
  }

  /** The hash identifies what Fill makes of a server's answers if and only if a name tells whether it is looked
      at with a map key. */
  lemma {:induction false} FillsIdentifiedIff(plain: string -> bool, mapped: string -> bool)
    ensures FillsIdentified(plain, mapped) <==> Unambiguous(plain, mapped)
  {
    hide Filled, Fillable, MatchesUse, HashOfFilled, Unambiguous;
    if Unambiguous(plain, mapped) {
      forall a, attributes, w, a', attributes', w' |
        && Fillable(a, attributes, w) && MatchesUse(a, attributes, w, plain, mapped)
        && Fillable(a', attributes', w') && MatchesUse(a', attributes', w', plain, mapped)
        && HashOfFilled(a, attributes, w) == HashOfFilled(a', attributes', w')
        ensures Filled(a, Absence, attributes, w) == Filled(a', Absence, attributes', w')
        ensures Filled(a, Exact, attributes, w) == Filled(a', Exact, attributes', w')
      {
        FilledIsIdentified(a, attributes, w, a', attributes', w', plain, mapped);
      }
    } else {
      var n, m := AmbiguousNames(plain, mapped);
      var w, one := Words([n, m], []), map[n := StringMapValue(map[])];
      OneMatchOrTwo(n, m, w, 0, 1, one, map[]);
      TheirNames(n, m, w, 0, 1, one, map[], plain, mapped);
      assert |[AttributeRef(n, m)]| != |[AttributeRef(n, ""), AttributeRef(m, "")]|;
    }
  }

  lemma {:induction false} OneKey(m: Match, condition: Condition, attributes: Attributes, w: Words)
    requires RefOf(m, attributes, w).Some?
    ensures KeysOf([m], condition, attributes, w) ==
            if m.condition == condition then [RefOf(m, attributes, w).value] else []
  {
    assert [m][1..] == [];
    NoMatches(attributes, w);
  }

  lemma {:induction false} TwoKeys(m: Match, m': Match, condition: Condition, attributes: Attributes, w: Words)
    requires RefOf(m, attributes, w).Some? && RefOf(m', attributes, w).Some? && m.condition == m'.condition
    ensures KeysOf([m, m'], condition, attributes, w) ==
            if m.condition == condition then [RefOf(m, attributes, w).value, RefOf(m', attributes, w).value] else []
  {
    hide KeysOf, RefOf;
    assert [m, m'] == [m] + [m'];
    KeysConcat([m], [m'], condition, attributes, w);
    OneKey(m, condition, attributes, w);
    OneKey(m', condition, attributes, w);
  }

  lemma {:induction false} SortTwo(x: AttributeRef, y: AttributeRef)
    requires AtMost(x, y)
    ensures SortKeys([]) == [] && SortKeys([x]) == [x] && SortKeys([x, y]) == [x, y]
  {
    assert [x][1..] == [] && [x, y][1..] == [y] && [y][1..] == [];
    assert SortKeys([y]) == [y];
  }

  lemma TheirKeys(n: string, m: string, w: Words, i: int, j: int, one: Attributes, two: Attributes)
    requires WordAt(w, i) == Some(n) && WordAt(w, j) == Some(m)
    requires n in one && one[n].StringMapValue? && n !in two && m !in two
    ensures RefOf(Match(i, j, Absence), one, w) == Some(AttributeRef(n, m))
    ensures RefOf(Match(i, 0, Absence), two, w) == Some(AttributeRef(n, ""))
    ensures RefOf(Match(j, 0, Absence), two, w) == Some(AttributeRef(m, ""))
  {
  }

  lemma TheirNames(n: string, m: string, w: Words, i: int, j: int, one: Attributes, two: Attributes,
                   plain: string -> bool, mapped: string -> bool)
    requires WordAt(w, i) == Some(n) && WordAt(w, j) == Some(m) && m != ""
    requires n in one && one[n].StringMapValue? && n !in two && m !in two && mapped(n) && plain(n) && plain(m)
    ensures MatchesUse([Match(i, j, Absence)], one, w, plain, mapped)
    ensures MatchesUse([Match(i, 0, Absence), Match(j, 0, Absence)], two, w, plain, mapped)
  {
    hide RefOf;
    TheirKeys(n, m, w, i, j, one, two);
  }

  /** One match with a map key in a string map, and two on attributes that have neither name. */
  lemma {:induction false} OneMatchOrTwo(n: string, m: string, w: Words, i: int, j: int, one: Attributes,
                                         two: Attributes)
    requires WordAt(w, i) == Some(n) && WordAt(w, j) == Some(m) && m != "" && (n == m || Less(n, m))
    requires n in one && one[n].StringMapValue? && n !in two && m !in two
    ensures var a, b := [Match(i, j, Absence)], [Match(i, 0, Absence), Match(j, 0, Absence)];
            && Fillable(a, one, w) && Fillable(b, two, w)
            && Filled(a, Absence, one, w) == [AttributeRef(n, m)] && Filled(a, Exact, one, w) == []
            && Filled(b, Absence, two, w) == [AttributeRef(n, ""), AttributeRef(m, "")]
            && Filled(b, Exact, two, w) == []
            && HashOfFilled(a, one, w) == HashOfFilled(b, two, w)
  {
    hide HashOf, RefOf, KeysOf, SortKeys;
    TheirKeys(n, m, w, i, j, one, two);
    OneKey(Match(i, j, Absence), Absence, one, w);
    OneKey(Match(i, j, Absence), Exact, one, w);
    TwoKeys(Match(i, 0, Absence), Match(j, 0, Absence), Absence, two, w);
    TwoKeys(Match(i, 0, Absence), Match(j, 0, Absence), Exact, two, w);
    OneOrTwo(n, m);
    SortTwo(AttributeRef(n, ""), AttributeRef(m, ""));
    SortTwo(AttributeRef(n, m), AttributeRef(n, m));
  }

  lemma AbsentKeysSign(keys: seq<AttributeRef>, attributes: Attributes, extraKey: string)
    requires forall i :: 0 <= i < |keys| ==> AbsentIn(keys[i], attributes)
    ensures SignatureOf(keys, [], attributes, extraKey).Some?
  {
    SignatureIff(keys, [], attributes, extraKey);
  }

  /** The same as run: two objects with different keys, both with signatures for their own attributes, so that
      both answers are cached, under one hash. */
  method HashConfuses(n: string, m: string, globalWords: seq<string>, words: seq<string>, i: int, j: int,
                      one: Attributes, two: Attributes, extraKey: string)
      returns (hash: Digest, hash': Digest, signature: Option<Digest>, signature': Option<Digest>)
    requires var w := Words(globalWords, words); WordAt(w, i) == Some(n) && WordAt(w, j) == Some(m)
    requires m != "" && (n == m || Less(n, m)) && n !in two && m !in two
    requires n in one && one[n].StringMapValue? && m !in one[n].entries
    ensures hash == HashOf([AttributeRef(n, m)], []) == HashOf([AttributeRef(n, ""), AttributeRef(m, "")], []) == hash'
    ensures signature == SignatureOf([AttributeRef(n, m)], [], one, extraKey) && signature.Some?
    ensures signature' == SignatureOf([AttributeRef(n, ""), AttributeRef(m, "")], [], two, extraKey) && signature'.Some?
  {
    hide SortKeys, KeysOf, HashOf, RefOf, Fillable, WordAt, SignatureOf;
    ghost var w := Words(globalWords, words);
    var a, b := [Match(i, j, Absence)], [Match(i, 0, Absence), Match(j, 0, Absence)];
    OneMatchOrTwo(n, m, w, i, j, one, two);
    AbsentKeysSign([AttributeRef(n, m)], one, extraKey);
    AbsentKeysSign([AttributeRef(n, ""), AttributeRef(m, "")], two, extraKey);
    hash, signature := HashAndSign(a, one, globalWords, words, extraKey);
    hash', signature' := HashAndSign(b, two, globalWords, words, extraKey);
  }

  method HashAndSign(matches: seq<Match>, attributes: Attributes, globalWords: seq<string>, words: seq<string>,
                     extraKey: string)
      returns (hash: Digest, signature: Option<Digest>)
    requires Fillable(matches, attributes, Words(globalWords, words))
    ensures hash == HashOfFilled(matches, attributes, Words(globalWords, words))
    ensures var w := Words(globalWords, words);
            signature == SignatureOf(Filled(matches, Absence, attributes, w), Filled(matches, Exact, attributes, w),
                                     attributes, extraKey)
  {
    hide SortKeys, KeysOf, HashOf, Fillable, SignatureOf;
    FromNothing(KeysOf(matches, Absence, attributes, Words(globalWords, words)));
    FromNothing(KeysOf(matches, Exact, attributes, Words(globalWords, words)));
    var referenced := new Referenced();
    var ok := referenced.Fill(attributes, matches, globalWords, words);
    hash := referenced.Hash();
    signature := referenced.Signature(attributes, extraKey);
  }

  lemma FromNothing(keys: seq<AttributeRef>)
    ensures [] + keys == keys
  {
  }
}
