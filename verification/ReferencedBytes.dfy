/** The hash of src/referenced.cc on bytes: every word ends with a NUL, and a colon stands between the two
    lists with no NUL behind it, so that it can be taken for the first character of a name. */
module ReferencedBytes {
  import opened AttributeCoding
  import opened ReferencedHashes
  import opened ReferencedModel

  function Joined(words: seq<string>): string {
    if words == [] then "" else words[0] + ['\0'] + Joined(words[1..])
  }

  /** What is fed to the digest for the tokens of a hash. */
  function Fed(tokens: seq<Token>): string
    requires forall i :: 0 <= i < |tokens| ==> tokens[i].Text? || tokens[i].Delimiter?
  {
    if tokens == [] then ""
    else (if tokens[0].Text? then tokens[0].text else ['\0']) + Fed(tokens[1..])
  }

  function HashBytes(absence: seq<AttributeRef>, exact: seq<AttributeRef>): string {
    Joined(KeyWords(absence)) + ":" + Joined(KeyWords(exact))
  }

  lemma {:induction false} FedConcat(a: seq<Token>, b: seq<Token>)
    requires forall i :: 0 <= i < |a| ==> a[i].Text? || a[i].Delimiter?
    requires forall i :: 0 <= i < |b| ==> b[i].Text? || b[i].Delimiter?
    ensures Fed(a + b) == Fed(a) + Fed(b)
    decreases |a|
  {
    if a == [] {
      assert a + b == b;
    } else {
      assert (a + b)[1..] == a[1..] + b;
      FedConcat(a[1..], b);
    }
  }

  lemma {:induction false} FedIsJoined(words: seq<string>)
    ensures forall i :: 0 <= i < |Delimited(words)| ==> Delimited(words)[i].Text? || Delimited(words)[i].Delimiter?
    ensures Fed(Delimited(words)) == Joined(words)
    decreases |words|
  {
    if words != [] {
      FedIsJoined(words[1..]);
      var d := Delimited(words);
      assert d[1..][1..] == Delimited(words[1..]);
    }
  }

  lemma {:induction false} FedOne(text: string)
    ensures Fed([Text(text)]) == text
  {
    assert [Text(text)][1..] == [];
  }

  /** The bytes are those of the tokens. */
  lemma {:induction false} HashIsFed(absence: seq<AttributeRef>, exact: seq<AttributeRef>)
    ensures var h := HashOf(absence, exact);
            && (forall i :: 0 <= i < |h| ==> h[i].Text? || h[i].Delimiter?)
            && Fed(h) == HashBytes(absence, exact)
  {
    hide Delimited, Joined, KeyWords, KeyTokens, Fed;
    KeysAreDelimited(absence);
    KeysAreDelimited(exact);
    FedIsJoined(KeyWords(absence));
    FedIsJoined(KeyWords(exact));
    FedOne(":");
    FedConcat(KeyTokens(absence), [Text(":")]);
    FedConcat(KeyTokens(absence) + [Text(":")], KeyTokens(exact));
  }

  // ----- the words that the bytes spell

  predicate NoNul(words: seq<string>) {
    forall i :: 0 <= i < |words| ==> '\0' !in words[i]
  }

  lemma FirstNul(s: string, s': string, a: string, a': string)
    requires '\0' !in s && '\0' !in s' && s + ['\0'] + a == s' + ['\0'] + a'
    ensures s == s' && a == a'
  {
    var t, t' := s + ['\0'] + a, s' + ['\0'] + a';
    assert t[|s|] == '\0' && t'[|s'|] == '\0';
    assert t[..|s|] == s && t'[..|s'|] == s';
    assert t[|s| + 1..] == a && t'[|s'| + 1..] == a';
  }

  lemma {:induction false} JoinedSpells(a: seq<string>, s: string, a': seq<string>, s': string)
    requires NoNul(a) && NoNul(a') && '\0' !in s && '\0' !in s'
    ensures Joined(a) + s == Joined(a') + s' <==> a == a' && s == s'
    decreases |a| + |a'|
  {
    if Joined(a) + s == Joined(a') + s' {
      if a != [] && a' != [] {
        assert Joined(a) + s == a[0] + ['\0'] + (Joined(a[1..]) + s);
        assert Joined(a') + s' == a'[0] + ['\0'] + (Joined(a'[1..]) + s');
        FirstNul(a[0], a'[0], Joined(a[1..]) + s, Joined(a'[1..]) + s');
        JoinedSpells(a[1..], s, a'[1..], s');
        assert a == [a[0]] + a[1..] && a' == [a'[0]] + a'[1..];
      } else {
        assert "" + s == s && "" + s' == s';
        NulOf(a, s);
        NulOf(a', s');
      }
    }
  }

  lemma {:induction false} NulOf(a: seq<string>, s: string)
    ensures a != [] ==> '\0' in Joined(a) + s
  {
    if a != [] { assert (Joined(a) + s)[|a[0]|] == '\0'; }
  }

  /** The words that the bytes spell: the colon goes with the first exact name. */
  function Spelled(absence: seq<AttributeRef>, exact: seq<AttributeRef>): seq<string> {
    KeyWords(absence)
    + if exact == [] then [] else [":" + exact[0].name] + KeyWords(exact)[1..]
  }

  predicate CleanKeys(keys: seq<AttributeRef>) {
    forall i :: 0 <= i < |keys| ==> '\0' !in keys[i].name && '\0' !in keys[i].mapKey
  }

  lemma {:induction false} CleanWords(keys: seq<AttributeRef>)
    requires CleanKeys(keys)
    ensures NoNul(KeyWords(keys))
    decreases |keys|
  {
    if keys != [] {
      CleanWords(keys[1..]);
      assert NoNul(RefWords(keys[0]));
    }
  }

  lemma {:induction false} BytesSpell(absence: seq<AttributeRef>, exact: seq<AttributeRef>)
    requires CleanKeys(absence) && CleanKeys(exact)
    ensures NoNul(Spelled(absence, exact))
    ensures HashBytes(absence, exact) == Joined(Spelled(absence, exact)) + if exact == [] then ":" else ""
  {
    hide KeyWords;
    CleanWords(absence);
    CleanWords(exact);
    FirstWords(exact);
    var words, rest := KeyWords(absence), KeyWords(exact);
    if exact == [] {
      assert words + [] == words && Joined(words) + ":" + "" == Joined(words) + ":";
    } else {
      var more := [":" + rest[0]] + rest[1..];
      assert more[1..] == rest[1..];
      JoinedConcat(words, more);
      assert Joined(words) + ":" + (rest[0] + ['\0'] + Joined(rest[1..])) ==
             Joined(words) + (":" + rest[0] + ['\0'] + Joined(rest[1..]));
      assert Joined(words + more) + "" == Joined(words + more);
    }
  }

  lemma {:induction false} JoinedConcat(a: seq<string>, b: seq<string>)
    ensures Joined(a + b) == Joined(a) + Joined(b)
    decreases |a|
  {
    if a == [] {
      assert a + b == b;
    } else {
      assert (a + b)[1..] == a[1..] + b;
      JoinedConcat(a[1..], b);
    }
  }

  /** Two hashes have the same bytes if and only if they spell the same words. */
  lemma {:induction false} BytesAgreeIff(absence: seq<AttributeRef>, exact: seq<AttributeRef>,
                                         absence': seq<AttributeRef>, exact': seq<AttributeRef>)
    requires CleanKeys(absence) && CleanKeys(exact) && CleanKeys(absence') && CleanKeys(exact')
    ensures HashBytes(absence, exact) == HashBytes(absence', exact') <==>
            Spelled(absence, exact) == Spelled(absence', exact') && (exact == [] <==> exact' == [])
  {
    hide Spelled, CleanKeys, NoNul, HashBytes;
    BytesSpell(absence, exact);
    BytesSpell(absence', exact');
    JoinedSpells(Spelled(absence, exact), if exact == [] then ":" else "",
                 Spelled(absence', exact'), if exact' == [] then ":" else "");
  }

  // ----- when the bytes identify the keys

  predicate Named(n: string, plain: string -> bool, mapped: string -> bool) {
    plain(n) || mapped(n)
  }

  predicate NotAfter(a: string, b: string) {
    a == b || Less(a, b)
  }

  /** Different keys with plain and mapped names and no NUL have different bytes. */
  ghost predicate BytesIdentify(plain: string -> bool, mapped: string -> bool) {
    forall absence, exact, absence', exact' ::
      && Ordered(absence) && Ordered(exact) && Ordered(absence') && Ordered(exact')
      && Uses(absence, plain, mapped) && Uses(exact, plain, mapped)
      && Uses(absence', plain, mapped) && Uses(exact', plain, mapped)
      && CleanKeys(absence) && CleanKeys(exact) && CleanKeys(absence') && CleanKeys(exact')
      && HashBytes(absence, exact) == HashBytes(absence', exact') ==>
      absence == absence' && exact == exact'
  }

  /** The colon before q may belong to a name: of the same kind as q, if another such name can follow q; or of
      another kind, if then the words can still be read to the end. */
  ghost predicate ClashAt(q: string, plain: string -> bool, mapped: string -> bool) {
    && Named(q, plain, mapped) && Named(":" + q, plain, mapped)
    && (|| (plain(":" + q) && mapped(q))
        || (mapped(":" + q) && plain(q) && exists x :: mapped(x) && NotAfter(q, x))
        || exists r :: ColonFollows(q, r, plain, mapped))
  }

  predicate ColonFollows(q: string, r: string, plain: string -> bool, mapped: string -> bool) {
    Named(r, plain, mapped) && Named(":" + r, plain, mapped) && NotAfter(q, ":" + r)
  }

  ghost predicate ColonClash(plain: string -> bool, mapped: string -> bool) {
    exists q :: ClashAt(q, plain, mapped)
  }

  // ----- without a clash they do

  /** A word behind those of some keys is a name, if names tell whether there is a map key. */
  lemma {:induction false} NameInside(xs: seq<AttributeRef>, word: string, rest: seq<string>, ys: seq<AttributeRef>,
                                      plain: string -> bool, mapped: string -> bool) returns (j: nat)
    requires Disjoint(plain, mapped) && Uses(xs, plain, mapped) && Uses(ys, plain, mapped)
    requires KeyWords(xs) + ([word] + rest) == KeyWords(ys)
    ensures j < |ys| && ys[j].name == word
    decreases |xs|
  {
    hide KeyWords;
    FirstWords(xs);
    FirstWords(ys);
    var all := KeyWords(ys);
    if xs == [] {
      assert all == [word] + rest;
      j := 0;
    } else {
      var w := KeyWords(xs);
      assert all[0] == w[0];
      SameFirstKey(xs, ys, w + ([word] + rest), plain, mapped);
      var n := |RefWords(xs[0])|;
      WordsUnfold(xs);
      WordsUnfold(ys);
      assert all[n..] == KeyWords(xs[1..]) + ([word] + rest) && all[n..] == KeyWords(ys[1..]);
      var i := NameInside(xs[1..], word, rest, ys[1..], plain, mapped);
      j := i + 1;
    }
  }

  lemma {:induction false} WordsUnfold(keys: seq<AttributeRef>)
    requires keys != []
    ensures KeyWords(keys) == RefWords(keys[0]) + KeyWords(keys[1..])
  {
  }

  /** Keys whose words begin alike have the same first key. */
  lemma {:induction false} SameFirstKey(xs: seq<AttributeRef>, ys: seq<AttributeRef>, words: seq<string>,
                                        plain: string -> bool, mapped: string -> bool)
    requires Disjoint(plain, mapped) && Uses(xs, plain, mapped) && Uses(ys, plain, mapped) && xs != [] && ys != []
    requires KeyWords(xs) <= words && KeyWords(ys) <= words
    ensures xs[0] == ys[0]
  {
    hide KeyWords;
    FirstWords(xs);
    FirstWords(ys);
    assert words[0] == xs[0].name && words[0] == ys[0].name;
    assert (xs[0].mapKey == "") == (ys[0].mapKey == "") by {
      assert !(plain(xs[0].name) && mapped(ys[0].name)) && !(mapped(xs[0].name) && plain(ys[0].name));
    }
    if xs[0].mapKey != "" { assert words[1] == xs[0].mapKey && words[1] == ys[0].mapKey; }
  }

  lemma {:induction false} PlainWords(keys: seq<AttributeRef>)
    requires forall i :: 0 <= i < |keys| ==> keys[i].mapKey == ""
    ensures |KeyWords(keys)| == |keys| && forall i :: 0 <= i < |keys| ==> KeyWords(keys)[i] == keys[i].name
    decreases |keys|
  {
    if keys != [] { PlainWords(keys[1..]); }
  }

  /** The name behind the absent keys is in the other list, behind its first key. */
  lemma {:induction false} NameFollows(exact': seq<AttributeRef>, j: nat, plain: string -> bool, mapped: string -> bool)
    requires Ordered(exact') && Uses(exact', plain, mapped) && j < |exact'|
    ensures Named(exact'[j].name, plain, mapped) && NotAfter(exact'[0].name, exact'[j].name)
  {
    if j > 0 { assert AtMost(exact'[0], exact'[j]); }
  }

  /** Absent keys and exact keys that are spelled like exact keys alone. */
  ghost predicate SpelledAlike(absence: seq<AttributeRef>, exact: seq<AttributeRef>, exact': seq<AttributeRef>) {
    && absence != [] && exact != [] && exact' != []
    && KeyWords(absence) + ([":" + exact[0].name] + KeyWords(exact)[1..]) ==
       [":" + exact'[0].name] + KeyWords(exact')[1..]
  }

  lemma {:induction false} SpelledIsAlike(absence: seq<AttributeRef>, exact: seq<AttributeRef>,
                                          exact': seq<AttributeRef>)
    requires absence != [] && Spelled(absence, exact) == Spelled([], exact') && (exact == [] <==> exact' == [])
    ensures SpelledAlike(absence, exact, exact')
    ensures absence[0].name == ":" + exact'[0].name
  {
    hide KeyWords;
    FirstWords([]);
    FirstWords(absence);
    FirstWords(exact);
    FirstWords(exact');
    var spelled, rest := Spelled([], exact'), [":" + exact'[0].name] + KeyWords(exact')[1..];
    assert [] + rest == rest;
    assert spelled[0] == absence[0].name && rest[0] == ":" + exact'[0].name;
  }

  /** If the first names are of one kind, the two lists are read alike up to the colon. */
  lemma {:induction false} SameKind(absence: seq<AttributeRef>, exact: seq<AttributeRef>, exact': seq<AttributeRef>,
                                    plain: string -> bool, mapped: string -> bool) returns (j: nat)
    requires Disjoint(plain, mapped) && SpelledAlike(absence, exact, exact')
    requires Uses(absence, plain, mapped) && Uses(exact', plain, mapped)
    requires (absence[0].mapKey == "") == (exact'[0].mapKey == "")
    ensures j < |exact'| && exact'[j].name == ":" + exact[0].name
  {
    hide KeyWords;
    FirstWords(exact);
    var colon, rest := ":" + exact[0].name, KeyWords(exact)[1..];
    var a, e := KeyWords(absence), KeyWords(exact');
    var all := a + ([colon] + rest);
    WordsUnfold(absence);
    WordsUnfold(exact');
    var n := |RefWords(absence[0])|;
    assert all[n..] == a[n..] + ([colon] + rest) && a[n..] == KeyWords(absence[1..]);
    assert all[n..] == e[n..] && e[n..] == KeyWords(exact'[1..]);
    var i := NameInside(absence[1..], colon, rest, exact'[1..], plain, mapped);
    j := i + 1;
  }

  /** If the names of the list are all plain, each of its words is a name. */
  lemma {:induction false} AllPlain(absence: seq<AttributeRef>, exact: seq<AttributeRef>, exact': seq<AttributeRef>)
      returns (j: nat)
    requires SpelledAlike(absence, exact, exact') && forall i :: 0 <= i < |exact'| ==> exact'[i].mapKey == ""
    ensures j < |exact'| && exact'[j].name == ":" + exact[0].name
  {
    hide KeyWords;
    PlainWords(exact');
    FirstWords(absence);
    j := |KeyWords(absence)|;
    var all := [":" + exact'[0].name] + KeyWords(exact')[1..];
    assert all[j] == KeyWords(exact')[j];
  }

  /** If absent keys are spelled like exact keys, there is a clash. */
  lemma {:induction false} ClashFound(absence: seq<AttributeRef>, exact: seq<AttributeRef>, exact': seq<AttributeRef>,
                                      plain: string -> bool, mapped: string -> bool)
    requires Disjoint(plain, mapped) && Ordered(exact') && absence != []
    requires Uses(absence, plain, mapped) && Uses(exact, plain, mapped) && Uses(exact', plain, mapped)
    requires Spelled(absence, exact) == Spelled([], exact') && (exact == [] <==> exact' == [])
    ensures ColonClash(plain, mapped)
  {
    hide KeyWords, Ordered, NotAfter, SpelledAlike, Spelled;
    SpelledIsAlike(absence, exact, exact');
    assert exact != [] && exact' != [] by { AlikeIsNotEmpty(absence, exact, exact'); }
    var q, r := exact'[0].name, exact[0].name;
    if absence[0].mapKey == "" && exact'[0].mapKey != "" {
      assert ClashAt(q, plain, mapped);
    } else if absence[0].mapKey != "" && exact'[0].mapKey == "" && exists x :: mapped(x) && NotAfter(q, x) {
      assert ClashAt(q, plain, mapped);
    } else {
      var j;
      if absence[0].mapKey != "" && exact'[0].mapKey == "" {
        forall i | 0 <= i < |exact'| ensures exact'[i].mapKey == "" { NameFollows(exact', i, plain, mapped); }
        j := AllPlain(absence, exact, exact');
      } else {
        j := SameKind(absence, exact, exact', plain, mapped);
      }
      NameFollows(exact', j, plain, mapped);
      assert ColonFollows(q, r, plain, mapped);
      assert ClashAt(q, plain, mapped);
    }
  }

  lemma AlikeIsNotEmpty(absence: seq<AttributeRef>, exact: seq<AttributeRef>, exact': seq<AttributeRef>)
    requires SpelledAlike(absence, exact, exact')
    ensures exact != [] && exact' != []
  {
  }

  lemma {:induction false} SpelledIdentifies(absence: seq<AttributeRef>, exact: seq<AttributeRef>,
                                             absence': seq<AttributeRef>, exact': seq<AttributeRef>,
                                             plain: string -> bool, mapped: string -> bool)
    requires Disjoint(plain, mapped) && !ColonClash(plain, mapped) && Ordered(exact) && Ordered(exact')
    requires Uses(absence, plain, mapped) && Uses(exact, plain, mapped)
    requires Uses(absence', plain, mapped) && Uses(exact', plain, mapped)
    requires Spelled(absence, exact) == Spelled(absence', exact') && (exact == [] <==> exact' == [])
    ensures absence == absence' && exact == exact'
    decreases |absence| + |absence'|
  {
    hide KeyWords, Ordered, ColonClash;
    if absence == [] && absence' == [] {
      if exact != [] { SameSpelling(exact, exact', plain, mapped); }
    } else if absence == [] {
      ClashFound(absence', exact', exact, plain, mapped);
    } else if absence' == [] {
      ClashFound(absence, exact, exact', plain, mapped);
    } else {
      var spelled := Spelled(absence, exact);
      SameFirstKey(absence, absence', spelled, plain, mapped);
      var n := |RefWords(absence[0])|;
      WordsUnfold(absence);
      WordsUnfold(absence');
      assert spelled[n..] == Spelled(absence[1..], exact) && spelled[n..] == Spelled(absence'[1..], exact');
      SpelledIdentifies(absence[1..], exact, absence'[1..], exact', plain, mapped);
      assert absence == [absence[0]] + absence[1..] && absence' == [absence'[0]] + absence'[1..];
    }
  }

  lemma {:induction false} SameSpelling(exact: seq<AttributeRef>, exact': seq<AttributeRef>, plain: string -> bool,
                                        mapped: string -> bool)
    requires Disjoint(plain, mapped) && Uses(exact, plain, mapped) && Uses(exact', plain, mapped)
    requires exact != [] && exact' != [] && Spelled([], exact) == Spelled([], exact')
    ensures exact == exact'
  {
    hide KeyWords;
    FirstWords([]);
    FirstWords(exact);
    FirstWords(exact');
    var e, e' := KeyWords(exact), KeyWords(exact');
    var s, s' := Spelled([], exact), Spelled([], exact');
    assert s[0] == ":" + e[0] && s'[0] == ":" + e'[0];
    assert s[0][1..] == e[0] && s'[0][1..] == e'[0];
    assert s[1..] == e[1..] && s'[1..] == e'[1..];
    assert e == [e[0]] + e[1..] && e' == [e'[0]] + e'[1..];
    WordsIdentify(exact, exact', plain, mapped);
  }

  // ----- with a clash they do not

  lemma OneKeyWords(a: AttributeRef)
    ensures KeyWords([a]) == RefWords(a)
  {
    assert [a][1..] == [] && RefWords(a) + [] == RefWords(a);
  }

  lemma TwoKeyWords(a: AttributeRef, b: AttributeRef)
    ensures KeyWords([a, b]) == RefWords(a) + RefWords(b)
  {
    assert [a, b][1..] == [b];
    OneKeyWords(b);
  }

  /** Keys with the name n, and the map key r if it is mapped. */
  ghost predicate AllNamed(keys: seq<AttributeRef>, n: string, r: string, mapped: string -> bool) {
    keys != [] && forall i :: 0 <= i < |keys| ==> keys[i] == AttributeRef(n, if mapped(n) then r else "")
  }

  ghost predicate Proper(keys: seq<AttributeRef>, plain: string -> bool, mapped: string -> bool) {
    Ordered(keys) && Uses(keys, plain, mapped) && CleanKeys(keys)
  }

  ghost predicate CleanNames(plain: string -> bool, mapped: string -> bool) {
    forall n :: Named(n, plain, mapped) ==> n != "" && '\0' !in n
  }

  lemma {:induction false} NamedIsProper(keys: seq<AttributeRef>, n: string, r: string, plain: string -> bool,
                                         mapped: string -> bool)
    requires AllNamed(keys, n, r, mapped) && Named(n, plain, mapped) && Named(r, plain, mapped)
    requires CleanNames(plain, mapped)
    ensures Proper(keys, plain, mapped)
  {
  }

  /** Absent keys, and exact keys with the name q, that are spelled alike with a colon before q. */
  lemma {:induction false} FrontPart(q: string, r: string, plain: string -> bool, mapped: string -> bool)
      returns (absence: seq<AttributeRef>, front: seq<AttributeRef>)
    requires Named(q, plain, mapped) && Named(":" + q, plain, mapped) && Named(r, plain, mapped)
    requires Disjoint(plain, mapped) && CleanNames(plain, mapped) && !(plain(":" + q) && mapped(q))
    ensures Proper(absence, plain, mapped) && absence != [] && AllNamed(front, q, r, mapped)
    ensures KeyWords(front) != [] && KeyWords(absence) == [":" + q] + KeyWords(front)[1..]
  {
    var p := ":" + q;
    if mapped(p) && plain(q) {
      absence, front := [AttributeRef(p, q)], [AttributeRef(q, ""), AttributeRef(q, "")];
      TwoKeyWords(front[0], front[1]);
      assert [q, q][1..] == [q];
      NamedIsProper(absence, p, q, plain, mapped);
    } else {
      absence := [AttributeRef(p, if mapped(p) then r else "")];
      front := [AttributeRef(q, if mapped(q) then r else "")];
      OneKeyWords(front[0]);
      assert [q][1..] == [] && [q, r][1..] == [r];
      NamedIsProper(absence, p, r, plain, mapped);
    }
    OneKeyWords(absence[0]);
  }

  /** Exact keys, the first with the name r, and keys named with a colon before r, that are spelled alike. */
  lemma {:induction false} BackPart(r: string, plain: string -> bool, mapped: string -> bool)
      returns (exact: seq<AttributeRef>, back: seq<AttributeRef>)
    requires Named(r, plain, mapped) && Named(":" + r, plain, mapped)
    requires Disjoint(plain, mapped) && CleanNames(plain, mapped)
    ensures Proper(exact, plain, mapped) && exact != [] && exact[0].name == r && AllNamed(back, ":" + r, r, mapped)
    ensures KeyWords(exact) != [] && KeyWords(back) == [":" + r] + KeyWords(exact)[1..]
  {
    var s := ":" + r;
    if mapped(r) && plain(s) {
      exact, back := [AttributeRef(r, s)], [AttributeRef(s, ""), AttributeRef(s, "")];
      OneKeyWords(exact[0]);
      TwoKeyWords(back[0], back[1]);
      assert [r, s][1..] == [s];
      NamedIsProper(exact, r, s, plain, mapped);
    } else if plain(r) && mapped(s) {
      exact, back := [AttributeRef(r, ""), AttributeRef(r, "")], [AttributeRef(s, r)];
      TwoKeyWords(exact[0], exact[1]);
      OneKeyWords(back[0]);
      assert [r, r][1..] == [r];
      NamedIsProper(exact, r, r, plain, mapped);
    } else {
      exact := [AttributeRef(r, if mapped(r) then r else "")];
      back := [AttributeRef(s, if mapped(s) then r else "")];
      OneKeyWords(exact[0]);
      OneKeyWords(back[0]);
      assert [r][1..] == [] && [r, r][1..] == [r];
      NamedIsProper(exact, r, r, plain, mapped);
    }
  }

  lemma {:induction false} JoinParts(front: seq<AttributeRef>, back: seq<AttributeRef>, q: string, s: string, r: string,
                                     plain: string -> bool, mapped: string -> bool)
    requires AllNamed(front, q, r, mapped) && AllNamed(back, s, r, mapped) && NotAfter(q, s)
    requires Named(q, plain, mapped) && Named(s, plain, mapped) && Named(r, plain, mapped) && CleanNames(plain, mapped)
    ensures Proper(front + back, plain, mapped)
  {
    NamedIsProper(front, q, r, plain, mapped);
    NamedIsProper(back, s, r, plain, mapped);
    hide NotAfter;
    var keys := front + back;
    forall i, j | 0 <= i < j < |keys| ensures AtMost(keys[i], keys[j]) {
      assert keys[i] == if i < |front| then front[i] else back[i - |front|];
      assert keys[j] == if j < |front| then front[j] else back[j - |front|];
      NamesInOrder(q, s, r, mapped);
    }
  }

  lemma NamesInOrder(q: string, s: string, r: string, mapped: string -> bool)
    requires NotAfter(q, s)
    ensures AtMost(AttributeRef(q, if mapped(q) then r else ""), AttributeRef(s, if mapped(s) then r else ""))
  {
  }

  /** Exact keys by themselves that are spelled like absent keys and others. */
  lemma {:induction false} ClashConfuses(plain: string -> bool, mapped: string -> bool)
      returns (absence: seq<AttributeRef>, exact: seq<AttributeRef>, exact': seq<AttributeRef>)
    requires Disjoint(plain, mapped) && CleanNames(plain, mapped) && ColonClash(plain, mapped)
    ensures Proper(absence, plain, mapped) && Proper(exact, plain, mapped) && Proper(exact', plain, mapped)
    ensures absence != [] && exact != [] && exact' != [] && Spelled(absence, exact) == Spelled([], exact')
  {
    hide KeyWords, Ordered, CleanKeys, Uses;
    var q :| ClashAt(q, plain, mapped);
    var p := ":" + q;
    if plain(p) && mapped(q) {
      absence, exact, exact' := [AttributeRef(p, "")], [AttributeRef(p, "")], [AttributeRef(q, ":" + p)];
      ShortConfusion(q, plain, mapped);
    } else if mapped(p) && plain(q) && exists x :: mapped(x) && NotAfter(q, x) {
      var x :| mapped(x) && NotAfter(q, x);
      absence, exact := [AttributeRef(p, x)], [AttributeRef(q, "")];
      exact' := [AttributeRef(q, ""), AttributeRef(x, p)];
      MixedConfusion(q, x, plain, mapped);
    } else {
      var r :| ColonFollows(q, r, plain, mapped);
      var front, back;
      absence, front := FrontPart(q, r, plain, mapped);
      exact, back := BackPart(r, plain, mapped);
      exact' := front + back;
      JoinParts(front, back, q, ":" + r, r, plain, mapped);
      PartsAgree(absence, exact, front, back);
    }
  }

  lemma {:induction false} PartsAgree(absence: seq<AttributeRef>, exact: seq<AttributeRef>, front: seq<AttributeRef>,
                                      back: seq<AttributeRef>)
    requires exact != [] && front != [] && KeyWords(front) != [] && KeyWords(exact) != []
    requires KeyWords(absence) == [":" + front[0].name] + KeyWords(front)[1..]
    requires KeyWords(back) == [":" + exact[0].name] + KeyWords(exact)[1..]
    ensures Spelled(absence, exact) == Spelled([], front + back)
  {
    hide KeyWords;
    WordsConcat(front, back);
    FirstWords([]);
    var f, b, e := KeyWords(front), KeyWords(back), KeyWords(exact)[1..];
    var colon, colon' := [":" + front[0].name], [":" + exact[0].name];
    assert (f + b)[1..] == f[1..] + b;
    assert colon + f[1..] + (colon' + e) == [] + (colon + (f[1..] + (colon' + e)));
    assert (front + back)[0] == front[0];
  }

  lemma {:induction false} WordsConcat(a: seq<AttributeRef>, b: seq<AttributeRef>)
    ensures KeyWords(a + b) == KeyWords(a) + KeyWords(b)
    decreases |a|
  {
    if a == [] {
      assert a + b == b;
    } else {
      assert (a + b)[1..] == a[1..] + b;
      WordsConcat(a[1..], b);
    }
  }

  lemma {:induction false} ShortConfusion(q: string, plain: string -> bool, mapped: string -> bool)
    requires Disjoint(plain, mapped) && CleanNames(plain, mapped) && plain(":" + q) && mapped(q)
    ensures var p := ":" + q;
            var one, two := [AttributeRef(p, "")], [AttributeRef(q, ":" + p)];
            Proper(one, plain, mapped) && Proper(two, plain, mapped) && Spelled(one, one) == Spelled([], two)
  {
    var p := ":" + q;
    assert Named(p, plain, mapped) && Named(q, plain, mapped);
    OneKeyWords(AttributeRef(p, ""));
    OneKeyWords(AttributeRef(q, ":" + p));
    assert [p][1..] == [] && [q, ":" + p][1..] == [":" + p];
  }

  lemma {:induction false} MixedConfusion(q: string, x: string, plain: string -> bool, mapped: string -> bool)
    requires Disjoint(plain, mapped) && CleanNames(plain, mapped)
    requires mapped(":" + q) && plain(q) && mapped(x) && NotAfter(q, x)
    ensures var p := ":" + q;
            var a, e, e' := [AttributeRef(p, x)], [AttributeRef(q, "")], [AttributeRef(q, ""), AttributeRef(x, p)];
            && Proper(a, plain, mapped) && Proper(e, plain, mapped) && Proper(e', plain, mapped)
            && Spelled(a, e) == Spelled([], e')
  {
    var p := ":" + q;
    assert Named(p, plain, mapped) && Named(q, plain, mapped) && Named(x, plain, mapped);
    OneKeyWords(AttributeRef(p, x));
    OneKeyWords(AttributeRef(q, ""));
    TwoKeyWords(AttributeRef(q, ""), AttributeRef(x, p));
    assert [q][1..] == [] && [q, x, p][1..] == [x, p];
  }

  /** For names that are not empty and have no NUL: the bytes of hashes identify the keys if and only if a name
      tells whether there is a map key, and no colon before an exact name can be taken for part of a name. */
  lemma {:induction false} BytesIdentifyIff(plain: string -> bool, mapped: string -> bool)
    requires CleanNames(plain, mapped)
    ensures BytesIdentify(plain, mapped) <==> Disjoint(plain, mapped) && !ColonClash(plain, mapped)
  {
    hide Ordered, Uses, CleanKeys, HashBytes, ColonClash, Spelled, CleanNames;
    assert Ordered([]) && Uses([], plain, mapped) && CleanKeys([]) by { NoKeysAreProper(plain, mapped); }
    if !Disjoint(plain, mapped) {
      var n :| plain(n) && mapped(n);
      SameBytesTwice(n, plain, mapped);
      assert BytesIdentify(plain, mapped) ==> |[AttributeRef(n, n)]| == |[AttributeRef(n, ""), AttributeRef(n, "")]|;
    } else if ColonClash(plain, mapped) {
      var absence, exact, exact' := ClashConfuses(plain, mapped);
      BytesAgreeIff(absence, exact, [], exact');
      assert BytesIdentify(plain, mapped) ==> absence == [];
    } else {
      forall absence, exact, absence', exact' |
        && Ordered(absence) && Ordered(exact) && Ordered(absence') && Ordered(exact')
        && Uses(absence, plain, mapped) && Uses(exact, plain, mapped)
        && Uses(absence', plain, mapped) && Uses(exact', plain, mapped)
        && CleanKeys(absence) && CleanKeys(exact) && CleanKeys(absence') && CleanKeys(exact')
        && HashBytes(absence, exact) == HashBytes(absence', exact')
        ensures absence == absence' && exact == exact'
      {
        BytesAgreeIff(absence, exact, absence', exact');
        SpelledIdentifies(absence, exact, absence', exact', plain, mapped);
      }
    }
  }

  lemma NoKeysAreProper(plain: string -> bool, mapped: string -> bool)
    ensures Proper([], plain, mapped)
  {
  }

  lemma {:induction false} SameBytesTwice(n: string, plain: string -> bool, mapped: string -> bool)
    requires CleanNames(plain, mapped) && plain(n) && mapped(n)
    ensures var one, two := [AttributeRef(n, n)], [AttributeRef(n, ""), AttributeRef(n, "")];
            Proper(one, plain, mapped) && Proper(two, plain, mapped) && HashBytes([], one) == HashBytes([], two)
  {
    assert Named(n, plain, mapped);
    OneKeyWords(AttributeRef(n, n));
    TwoKeyWords(AttributeRef(n, ""), AttributeRef(n, ""));
    assert [n] + [n] == [n, n];
  }
}
