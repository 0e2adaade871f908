/** The hash under which a client looks up the keys of a server's answer, src/referenced.cc, and when it
    tells different keys apart. */
module ReferencedHashes {
  import opened Wrappers
  import opened AttributeCoding
  import opened ReferencedModel

  function RefTokens(key: AttributeRef): seq<Token> {
    [Text(key.name), Delimiter] + (if key.mapKey == "" then [] else [Text(key.mapKey), Delimiter])
  }

  function KeyTokens(keys: seq<AttributeRef>): seq<Token> {
    if keys == [] then [] else RefTokens(keys[0]) + KeyTokens(keys[1..])
  }

  function HashOf(absence: seq<AttributeRef>, exact: seq<AttributeRef>): Digest {
    KeyTokens(absence) + [Text(":")] + KeyTokens(exact)
  }

  // ----- what is hashed is the list of names and map keys, whichever of the two a word is

  function RefWords(key: AttributeRef): seq<string> {
    if key.mapKey == "" then [key.name] else [key.name, key.mapKey]
  }

  function KeyWords(keys: seq<AttributeRef>): seq<string> {
    if keys == [] then [] else RefWords(keys[0]) + KeyWords(keys[1..])
  }

  function Delimited(words: seq<string>): seq<Token> {
    if words == [] then [] else [Text(words[0]), Delimiter] + Delimited(words[1..])
  }

  lemma {:induction false} KeysAreDelimited(keys: seq<AttributeRef>)
    ensures KeyTokens(keys) == Delimited(KeyWords(keys))
    decreases |keys|
  {
    if keys != [] {
      var key, rest := keys[0], KeyWords(keys[1..]);
      KeysAreDelimited(keys[1..]);
      assert ([key.name] + rest)[1..] == rest;
      if key.mapKey != "" {
        assert ([key.name, key.mapKey] + rest)[1..] == [key.mapKey] + rest;
        assert ([key.mapKey] + rest)[1..] == rest;
      }
    }
  }

  /** The word before a token that is no delimiter is the separator of the two lists. */
  lemma {:induction false} DelimitedSplits(a: seq<string>, b: seq<string>, a': seq<string>, b': seq<string>)
    ensures Delimited(a) + [Text(":")] + Delimited(b) == Delimited(a') + [Text(":")] + Delimited(b') <==>
            a == a' && b == b'
    decreases |a| + |a'|
  {
    var s, s' := Delimited(a) + [Text(":")] + Delimited(b), Delimited(a') + [Text(":")] + Delimited(b');
    if s == s' {
      if a == [] && a' == [] {
        assert s[1..] == Delimited(b) && s'[1..] == Delimited(b');
        DelimitedIsUnique(b, b');
      } else if a == [] {
        SeparatorIsNoWord(b, a', b');
      } else if a' == [] {
        SeparatorIsNoWord(b', a, b);
      } else {
        assert s[0] == Text(a[0]) && s'[0] == Text(a'[0]);
        assert s[2..] == Delimited(a[1..]) + [Text(":")] + Delimited(b);
        assert s'[2..] == Delimited(a'[1..]) + [Text(":")] + Delimited(b');
        DelimitedSplits(a[1..], b, a'[1..], b');
        assert a == [a[0]] + a[1..] && a' == [a'[0]] + a'[1..];
      }
    }
  }

  lemma {:induction false} SeparatorIsNoWord(b: seq<string>, a': seq<string>, b': seq<string>)
    requires a' != []
    ensures Delimited([]) + [Text(":")] + Delimited(b) != Delimited(a') + [Text(":")] + Delimited(b')
  {
    var s, s' := Delimited([]) + [Text(":")] + Delimited(b), Delimited(a') + [Text(":")] + Delimited(b');
    assert s'[1] == Delimiter;
    if |s| > 1 { assert s[1] == Delimited(b)[0] == Text(b[0]); }
  }

  lemma {:induction false} DelimitedIsUnique(a: seq<string>, b: seq<string>)
    requires Delimited(a) == Delimited(b)
    ensures a == b
    decreases |a|
  {
    if a != [] && b != [] {
      var s, t := Delimited(a), Delimited(b);
      assert s[0] == Text(a[0]) && t[0] == Text(b[0]);
      assert s[2..] == Delimited(a[1..]) && t[2..] == Delimited(b[1..]);
      DelimitedIsUnique(a[1..], b[1..]);
      assert a == [a[0]] + a[1..] && b == [b[0]] + b[1..];
    }
  }

  /** Two hashes are equal if and only if both lists have the same words. */
  lemma {:induction false} HashesAgreeIff(absence: seq<AttributeRef>, exact: seq<AttributeRef>,
                                          absence': seq<AttributeRef>, exact': seq<AttributeRef>)
    ensures HashOf(absence, exact) == HashOf(absence', exact') <==>
            KeyWords(absence) == KeyWords(absence') && KeyWords(exact) == KeyWords(exact')
  {
    KeysAreDelimited(absence);
    KeysAreDelimited(exact);
    KeysAreDelimited(absence');
    KeysAreDelimited(exact');
    DelimitedSplits(KeyWords(absence), KeyWords(exact), KeyWords(absence'), KeyWords(exact'));
  }

  // ----- when the words identify the keys

  /** Keys without a map key have plain names, and keys with one have mapped names. */
  predicate Uses(keys: seq<AttributeRef>, plain: string -> bool, mapped: string -> bool) {
    forall i :: 0 <= i < |keys| ==> if keys[i].mapKey == "" then plain(keys[i].name) else mapped(keys[i].name)
  }

  /** Different keys with such names have different hashes. */
  ghost predicate Identifies(plain: string -> bool, mapped: string -> bool) {
    forall absence, exact, absence', exact' ::
      && Ordered(absence) && Ordered(exact) && Ordered(absence') && Ordered(exact')
      && Uses(absence, plain, mapped) && Uses(exact, plain, mapped)
      && Uses(absence', plain, mapped) && Uses(exact', plain, mapped)
      && HashOf(absence, exact) == HashOf(absence', exact') ==>
      absence == absence' && exact == exact'
  }

  /** No name is both plain and mapped; but the empty one may be, if it is the only plain one. */
  ghost predicate Unambiguous(plain: string -> bool, mapped: string -> bool) {
    forall n :: plain(n) && mapped(n) ==> n == "" && forall m :: plain(m) ==> m == ""
  }

  ghost predicate Disjoint(plain: string -> bool, mapped: string -> bool) {
    forall n :: !(plain(n) && mapped(n))
  }

  lemma {:induction false} WordsIdentify(a: seq<AttributeRef>, b: seq<AttributeRef>, plain: string -> bool,
                                         mapped: string -> bool)
    requires Disjoint(plain, mapped) || (Unambiguous(plain, mapped) && Ordered(a) && Ordered(b))
    requires Uses(a, plain, mapped) && Uses(b, plain, mapped) && KeyWords(a) == KeyWords(b)
    ensures a == b
    decreases |a|
  {
    hide Ordered, Unambiguous;
    if a != [] && b != [] {
      var w := KeyWords(a);
      assert w[0] == a[0].name && w[0] == b[0].name;
      if a[0].mapKey == "" && b[0].mapKey != "" {
        PlainIsNotMapped(a, b, plain, mapped);
      } else if a[0].mapKey != "" && b[0].mapKey == "" {
        PlainIsNotMapped(b, a, plain, mapped);
      } else {
        var n := |RefWords(a[0])|;
        assert w[n - 1] == RefWords(a[0])[n - 1] && w[n - 1] == RefWords(b[0])[n - 1];
        assert w[n..] == KeyWords(a[1..]) && w[n..] == KeyWords(b[1..]);
        if !Disjoint(plain, mapped) {
          OrderedTail(a);
          OrderedTail(b);
        }
        WordsIdentify(a[1..], b[1..], plain, mapped);
        assert a == [a[0]] + a[1..] && b == [b[0]] + b[1..];
      }
    }
  }

  /** If the empty name is the only plain one, its keys without a map key come first, so that the number of
      words tells how many there are. */
  lemma {:induction false} PlainIsNotMapped(a: seq<AttributeRef>, b: seq<AttributeRef>, plain: string -> bool,
                                            mapped: string -> bool)
    requires Disjoint(plain, mapped) || (Unambiguous(plain, mapped) && Ordered(a) && Ordered(b))
    requires Uses(a, plain, mapped) && Uses(b, plain, mapped)
    requires a != [] && b != [] && a[0].name == b[0].name && a[0].mapKey == "" && b[0].mapKey != ""
    ensures KeyWords(a) != KeyWords(b)
  {
    hide Ordered, KeyWords, AtMost;
    assert plain(a[0].name) && mapped(b[0].name);
    MappedFollow(b, plain, mapped);
    MappedWords(b);
    FirstWords(a);
    FirstWords(b);
    if KeyWords(a) == KeyWords(b) {
      OrderedTail(a);
      FirstWords(a[1..]);
      MappedFollow(a[1..], plain, mapped);
      MappedWords(a[1..]);
    }
  }

  lemma {:induction false} FirstWords(keys: seq<AttributeRef>)
    ensures keys == [] ==> KeyWords(keys) == []
    ensures keys != [] ==>
              var w := KeyWords(keys);
              && |w| > 0 && w[0] == keys[0].name
              && (keys[0].mapKey == "" ==> w[1..] == KeyWords(keys[1..]))
              && (keys[0].mapKey != "" ==> |w| > 1 && w[1] == keys[0].mapKey)
  {
  }

  /** Behind a key that has more than an empty word there are only such keys. */
  lemma {:induction false} MappedFollow(keys: seq<AttributeRef>, plain: string -> bool, mapped: string -> bool)
    requires Ordered(keys) && Uses(keys, plain, mapped) && (forall m :: plain(m) ==> m == "")
    requires keys != [] && (keys[0].mapKey != "" || keys[0].name != "")
    ensures forall i :: 0 <= i < |keys| ==> keys[i].mapKey != ""
  {
    forall i | 0 <= i < |keys| ensures keys[i].mapKey != "" {
      if i > 0 { assert AtMost(keys[0], keys[i]); }
    }
  }

  lemma {:induction false} MappedWords(keys: seq<AttributeRef>)
    requires forall i :: 0 <= i < |keys| ==> keys[i].mapKey != ""
    ensures |KeyWords(keys)| == 2 * |keys|
    decreases |keys|
  {
    if keys != [] { MappedWords(keys[1..]); }
  }

  /** Hashes identify the keys with plain and mapped names if and only if a name tells whether there is a
      map key. */
  lemma HashIdentifiesIff(plain: string -> bool, mapped: string -> bool)
    ensures Identifies(plain, mapped) <==> Unambiguous(plain, mapped)
  {
    if Unambiguous(plain, mapped) {
      forall absence, exact, absence', exact' |
        && Ordered(absence) && Ordered(exact) && Ordered(absence') && Ordered(exact')
        && Uses(absence, plain, mapped) && Uses(exact, plain, mapped)
        && Uses(absence', plain, mapped) && Uses(exact', plain, mapped)
        && HashOf(absence, exact) == HashOf(absence', exact')
        ensures absence == absence' && exact == exact'
      {
        hide HashOf, KeyWords, Uses, Ordered, Unambiguous;
        HashesAgreeIff(absence, exact, absence', exact');
        WordsIdentify(absence, absence', plain, mapped);
        WordsIdentify(exact, exact', plain, mapped);
      }
    } else {
      var one, two := AmbiguousConfuses(plain, mapped);
      assert Identifies(plain, mapped) ==> one == two;
    }
  }

  /** Some plain and mapped name, and another word behind it that is a plain name. */
  lemma AmbiguousNames(plain: string -> bool, mapped: string -> bool) returns (n: string, m: string)
    requires !Unambiguous(plain, mapped)
    ensures plain(n) && mapped(n) && plain(m) && m != "" && (n == m || Less(n, m))
  {
    n :| plain(n) && mapped(n) && !(n == "" && forall m :: plain(m) ==> m == "");
    m := n;
    if n == "" { m :| plain(m) && m != ""; }
  }

  lemma AmbiguousConfuses(plain: string -> bool, mapped: string -> bool)
      returns (one: seq<AttributeRef>, two: seq<AttributeRef>)
    requires !Unambiguous(plain, mapped)
    ensures Ordered(one) && Ordered(two) && Uses(one, plain, mapped) && Uses(two, plain, mapped) && one != two
    ensures Ordered([]) && Uses([], plain, mapped) && HashOf([], one) == HashOf([], two)
  {
    var n, m := AmbiguousNames(plain, mapped);
    OneOrTwo(n, m);
    one, two := [AttributeRef(n, m)], [AttributeRef(n, ""), AttributeRef(m, "")];
    assert |one| != |two|;
  }

  /** Two hashes are equal if and only if the keys are, in any order, as long as a name tells whether there is
      a map key. */
  lemma HashIdentifies(absence: seq<AttributeRef>, exact: seq<AttributeRef>, absence': seq<AttributeRef>,
                       exact': seq<AttributeRef>, isMap: string -> bool)
    requires var plain := (n: string) => !isMap(n);
             && Uses(absence, plain, isMap) && Uses(exact, plain, isMap)
             && Uses(absence', plain, isMap) && Uses(exact', plain, isMap)
    ensures HashOf(absence, exact) == HashOf(absence', exact') <==> absence == absence' && exact == exact'
  {
    hide HashOf, KeyWords;
    var plain := (n: string) => !isMap(n);
    HashesAgreeIff(absence, exact, absence', exact');
    if HashOf(absence, exact) == HashOf(absence', exact') {
      WordsIdentify(absence, absence', plain, isMap);
      WordsIdentify(exact, exact', plain, isMap);
    }
  }

  /** A key with a map key and two keys without have the same hash if they have the same words. */
  lemma {:induction false} OneOrTwo(n: string, m: string)
    requires m != "" && (n == m || Less(n, m))
    ensures var one, two := [AttributeRef(n, m)], [AttributeRef(n, ""), AttributeRef(m, "")];
            && Ordered(one) && Ordered(two) && HashOf(one, []) == HashOf(two, []) && HashOf([], one) == HashOf([], two)
  {
    var one, two := [AttributeRef(n, m)], [AttributeRef(n, ""), AttributeRef(m, "")];
    assert one[1..] == [] && two[1..] == [AttributeRef(m, "")] && two[1..][1..] == [];
    assert KeyWords(two[1..]) == [m];
    assert KeyWords(one) == [n, m] == KeyWords(two);
    HashesAgreeIff(one, [], two, []);
    HashesAgreeIff([], one, [], two);
  }
}
