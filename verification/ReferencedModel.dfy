/** Which attributes a server's answer depended on, and signatures of attribute sets restricted to
    them: src/referenced.cc on values. A digest stands for the tokens it was computed from. */
module ReferencedModel {
  import opened Wrappers
  import opened AttributeCoding

  datatype AttributeRef = AttributeRef(name: string, mapKey: string)

  datatype Condition = Unspecified | Absence | Exact | Regex

  datatype Match = Match(name: int, mapKey: int, condition: Condition)

  datatype Token = Text(text: string) | Delimiter | Int64(n: int) | Int32(m: int) | Double(x: real) | Bool(b: bool)

  type Digest = seq<Token>

  // ----- the order of the keys

  /** Lexicographic comparison of strings. */
  predicate Less(a: string, b: string) {
    if b == "" then false
    else if a == "" then true
    else a[0] < b[0] || (a[0] == b[0] && Less(a[1..], b[1..]))
  }

  predicate RefLess(a: AttributeRef, b: AttributeRef) {
    if a.name == b.name then Less(a.mapKey, b.mapKey) else Less(a.name, b.name)
  }

  lemma {:induction false} LessIsTotal(a: string, b: string)
    ensures a == b || Less(a, b) || Less(b, a)
    ensures !(Less(a, b) && (a == b || Less(b, a)))
    decreases |a|
  {
    if a != "" && b != "" {
      LessIsTotal(a[1..], b[1..]);
      assert a == [a[0]] + a[1..] && b == [b[0]] + b[1..];
    }
  }

  /** At the first difference the character decides, and a proper prefix comes first. */
  lemma {:induction false} LessIff(a: string, b: string)
    ensures Less(a, b) <==>
            exists n :: 0 <= n <= |a| && n < |b| && a[..n] == b[..n] && (n == |a| || a[n] < b[n])
    decreases |a|
  {
    if Less(a, b) {
      var n := FirstDifference(a, b);
    }
    forall n | 0 <= n <= |a| && n < |b| && a[..n] == b[..n] && (n == |a| || a[n] < b[n]) ensures Less(a, b) {
      DifferenceDecides(a, b, n);
    }
  }

  lemma {:induction false} FirstDifference(a: string, b: string) returns (n: nat)
    requires Less(a, b)
    ensures n <= |a| && n < |b| && a[..n] == b[..n] && (n == |a| || a[n] < b[n])
    decreases |a|
  {
    if a == "" || a[0] < b[0] {
      n := 0;
    } else {
      n := FirstDifference(a[1..], b[1..]);
      assert a[..n + 1] == [a[0]] + a[1..][..n] && b[..n + 1] == [b[0]] + b[1..][..n];
      n := n + 1;
    }
  }

  lemma {:induction false} DifferenceDecides(a: string, b: string, n: nat)
    requires n <= |a| && n < |b| && a[..n] == b[..n] && (n == |a| || a[n] < b[n])
    ensures Less(a, b)
    decreases |a|
  {
    if n > 0 {
      assert a[..n][0] == b[..n][0] && a[1..][..n - 1] == a[..n][1..] && b[1..][..n - 1] == b[..n][1..];
      DifferenceDecides(a[1..], b[1..], n - 1);
    }
  }

  lemma {:induction false} LessIsTransitive(a: string, b: string, c: string)
    requires Less(a, b) && Less(b, c)
    ensures Less(a, c)
    decreases |a|
  {
    if a != "" && a[0] == b[0] && b[0] == c[0] { LessIsTransitive(a[1..], b[1..], c[1..]); }
  }

  predicate AtMost(a: AttributeRef, b: AttributeRef) {
    a == b || RefLess(a, b)
  }

  lemma AtMostIsOrder(a: AttributeRef, b: AttributeRef, c: AttributeRef)
    ensures AtMost(a, b) || AtMost(b, a)
    ensures AtMost(a, b) && AtMost(b, a) ==> a == b
    ensures AtMost(a, b) && AtMost(b, c) ==> AtMost(a, c)
  {
    LessIsTotal(a.name, b.name);
    LessIsTotal(a.mapKey, b.mapKey);
    LessIsTotal(b.name, c.name);
    if Less(a.name, b.name) && Less(b.name, c.name) { LessIsTransitive(a.name, b.name, c.name); }
    if Less(a.mapKey, b.mapKey) && Less(b.mapKey, c.mapKey) { LessIsTransitive(a.mapKey, b.mapKey, c.mapKey); }
    LessIsTotal(a.name, c.name);
  }

  predicate Ordered(keys: seq<AttributeRef>) {
    forall i, j :: 0 <= i < j < |keys| ==> AtMost(keys[i], keys[j])
  }

  function InsertKey(key: AttributeRef, keys: seq<AttributeRef>): (r: seq<AttributeRef>)
    ensures multiset(r) == multiset(keys) + multiset{key}
  {
    if keys == [] then [key]
    else if AtMost(key, keys[0]) then [key] + keys
    else
      assert keys == [keys[0]] + keys[1..];
      [keys[0]] + InsertKey(key, keys[1..])
  }

  function SortKeys(keys: seq<AttributeRef>): (r: seq<AttributeRef>)
    ensures multiset(r) == multiset(keys)
  {
    if keys == [] then []
    else
      assert keys == [keys[0]] + keys[1..];
      InsertKey(keys[0], SortKeys(keys[1..]))
  }

  lemma OrderedCons(key: AttributeRef, keys: seq<AttributeRef>)
    requires Ordered(keys) && forall i :: 0 <= i < |keys| ==> AtMost(key, keys[i])
    ensures Ordered([key] + keys)
  {
    hide AtMost;
  }

  lemma {:induction false} InsertKeepsOrder(key: AttributeRef, keys: seq<AttributeRef>)
    requires Ordered(keys)
    ensures Ordered(InsertKey(key, keys))
    decreases |keys|
  {
    hide AtMost, Ordered;
    if keys == [] {
      EmptyIsOrdered();
      OrderedCons(key, []);
      assert [key] + [] == [key];
    } else {
      AtMostIsOrder(key, keys[0], keys[0]);
      if AtMost(key, keys[0]) {
        forall i | 0 <= i < |keys| ensures AtMost(key, keys[i]) {
          assert keys[i] in multiset(keys);
          LeastIsFirst(keys, keys[i]);
          AtMostIsOrder(key, keys[0], keys[i]);
        }
        OrderedCons(key, keys);
      } else {
        OrderedTail(keys);
        InsertKeepsOrder(key, keys[1..]);
        var r := InsertKey(key, keys[1..]);
        forall i | 0 <= i < |r| ensures AtMost(keys[0], r[i]) {
          assert r[i] in multiset(r);
          assert r[i] in multiset(keys[1..]) + multiset{key};
          if r[i] != key {
            assert keys == [keys[0]] + keys[1..];
            LeastIsFirst(keys, r[i]);
          }
        }
        OrderedCons(keys[0], r);
      }
    }
  }

  lemma EmptyIsOrdered()
    ensures Ordered([])
  {
  }

  lemma {:induction false} SortedIsOrdered(keys: seq<AttributeRef>)
    ensures Ordered(SortKeys(keys))
  {
    if keys == [] {
      EmptyIsOrdered();
    } else {
      SortedIsOrdered(keys[1..]);
      InsertKeepsOrder(keys[0], SortKeys(keys[1..]));
    }
  }

  lemma SameLength<T>(a: seq<T>, b: seq<T>)
    requires multiset(a) == multiset(b)
    ensures |a| == |b|
  {
    assert |multiset(a)| == |a| && |multiset(b)| == |b|;
  }

  lemma TakeOut<T>(a: seq<T>, j: nat)
    requires j < |a|
    ensures multiset(a[..j] + a[j + 1..]) == multiset(a) - multiset{a[j]}
    ensures j == 0 ==> multiset(a[1..]) == multiset(a) - multiset{a[j]}
  {
    assert a == a[..j] + [a[j]] + a[j + 1..];
    if j == 0 { assert a[..j] + a[j + 1..] == a[1..]; }
  }

  lemma LeastIsFirst(keys: seq<AttributeRef>, key: AttributeRef)
    requires keys != [] && Ordered(keys) && key in multiset(keys)
    ensures AtMost(keys[0], key)
  {
    var i :| 0 <= i < |keys| && keys[i] == key;
  }

  /** There is one way to put keys in order. */
  lemma {:induction false} OrderIsUnique(a: seq<AttributeRef>, b: seq<AttributeRef>)
    requires Ordered(a) && Ordered(b) && multiset(a) == multiset(b)
    ensures a == b
    decreases |a|
  {
    hide Ordered;
    SameLength(a, b);
    if a != [] {
      SameLeast(a, b);
      OrderedTail(a);
      OrderedTail(b);
      TakeOut(a, 0);
      TakeOut(b, 0);
      OrderIsUnique(a[1..], b[1..]);
      assert a == [a[0]] + a[1..] && b == [b[0]] + b[1..];
    }
  }

  lemma SameLeast(a: seq<AttributeRef>, b: seq<AttributeRef>)
    requires Ordered(a) && Ordered(b) && multiset(a) == multiset(b) && a != [] && b != []
    ensures a[0] == b[0]
  {
    hide AtMost;
    assert b[0] in multiset(b) && a[0] in multiset(a);
    LeastIsFirst(a, b[0]);
    LeastIsFirst(b, a[0]);
    AtMostIsOrder(a[0], b[0], a[0]);
  }

  lemma OrderedTail(a: seq<AttributeRef>)
    requires Ordered(a) && a != []
    ensures Ordered(a[1..])
  {
  }

  // ----- from the server's answer to keys

  /** The key of a match: the map key is looked at only if attributes has a string map of the name. */
  function RefOf(m: Match, attributes: Attributes, w: Words): Option<AttributeRef> {
    var name := WordAt(w, m.name);
    if name.None? then None
    else if name.value in attributes && attributes[name.value].StringMapValue? then
      var mapKey := WordAt(w, m.mapKey);
      if mapKey.Some? then Some(AttributeRef(name.value, mapKey.value)) else None
    else Some(AttributeRef(name.value, ""))
  }

  predicate Usable(m: Match, attributes: Attributes, w: Words) {
    RefOf(m, attributes, w).Some? && m.condition != Regex
  }

  predicate Fillable(matches: seq<Match>, attributes: Attributes, w: Words) {
    forall i :: 0 <= i < |matches| ==> Usable(matches[i], attributes, w)
  }

  function KeysOf(matches: seq<Match>, condition: Condition, attributes: Attributes, w: Words): seq<AttributeRef> {
    if matches == [] then []
    else
      var r := RefOf(matches[0], attributes, w);
      (if matches[0].condition == condition && r.Some? then [r.value] else [])
      + KeysOf(matches[1..], condition, attributes, w)
  }

  lemma {:induction false} KeysConcat(a: seq<Match>, b: seq<Match>, condition: Condition, attributes: Attributes,
                                      w: Words)
    ensures KeysOf(a + b, condition, attributes, w) ==
            KeysOf(a, condition, attributes, w) + KeysOf(b, condition, attributes, w)
    decreases |a|
  {
    if a == [] {
      assert a + b == b;
    } else {
      assert (a + b)[1..] == a[1..] + b;
      KeysConcat(a[1..], b, condition, attributes, w);
    }
  }

  lemma {:induction false} KeysPermute(a: seq<Match>, b: seq<Match>, condition: Condition, attributes: Attributes,
                                       w: Words)
    requires multiset(a) == multiset(b)
    ensures multiset(KeysOf(a, condition, attributes, w)) == multiset(KeysOf(b, condition, attributes, w))
    decreases |a|
  {
    hide KeysOf;
    SameLength(a, b);
    if a != [] {
      var j := SameElsewhere(a, b);
      KeysPermute(a[1..], b[..j] + b[j + 1..], condition, attributes, w);
      KeysWithout(a, 0, condition, attributes, w);
      KeysWithout(b, j, condition, attributes, w);
      assert a[..0] + a[1..] == a[1..];
    }
  }

  lemma SameElsewhere<T>(a: seq<T>, b: seq<T>) returns (j: nat)
    requires multiset(a) == multiset(b) && a != []
    ensures j < |b| && b[j] == a[0] && multiset(a[1..]) == multiset(b[..j] + b[j + 1..])
  {
    assert a[0] in multiset(a) && a[0] in multiset(b);
    j :| 0 <= j < |b| && b[j] == a[0];
    TakeOut(a, 0);
    TakeOut(b, j);
  }

  lemma {:induction false} KeysWithout(a: seq<Match>, j: nat, condition: Condition, attributes: Attributes, w: Words)
    requires j < |a|
    ensures multiset(KeysOf(a, condition, attributes, w)) ==
            multiset(KeysOf(a[..j] + a[j + 1..], condition, attributes, w))
            + multiset(KeysOf([a[j]], condition, attributes, w))
  {
    hide KeysOf;
    assert a == a[..j] + ([a[j]] + a[j + 1..]);
    KeysConcat(a[..j], [a[j]] + a[j + 1..], condition, attributes, w);
    KeysConcat([a[j]], a[j + 1..], condition, attributes, w);
    KeysConcat(a[..j], a[j + 1..], condition, attributes, w);
  }

  lemma FillablePermute(a: seq<Match>, b: seq<Match>, attributes: Attributes, w: Words)
    requires multiset(a) == multiset(b) && Fillable(a, attributes, w)
    ensures Fillable(b, attributes, w)
  {
    forall i | 0 <= i < |b| ensures Usable(b[i], attributes, w) {
      assert b[i] in multiset(a);
    }
  }

  /** The order of the server's matches does not matter for whether they can be used, nor for the keys. */
  lemma {:induction false} OrderOfMatchesIsIrrelevant(a: seq<Match>, b: seq<Match>, condition: Condition,
                                        attributes: Attributes, w: Words)
    requires multiset(a) == multiset(b)
    ensures Fillable(a, attributes, w) <==> Fillable(b, attributes, w)
    ensures SortKeys(KeysOf(a, condition, attributes, w)) == SortKeys(KeysOf(b, condition, attributes, w))
  {
    if Fillable(a, attributes, w) { FillablePermute(a, b, attributes, w); }
    if Fillable(b, attributes, w) { FillablePermute(b, a, attributes, w); }
    var ka, kb := KeysOf(a, condition, attributes, w), KeysOf(b, condition, attributes, w);
    KeysPermute(a, b, condition, attributes, w);
    SortedIsOrdered(ka);
    SortedIsOrdered(kb);
    OrderIsUnique(SortKeys(ka), SortKeys(kb));
  }

  // ----- signatures of attributes

  predicate AbsentIn(key: AttributeRef, attributes: Attributes) {
    key.name in attributes ==>
      attributes[key.name].StringMapValue? && key.mapKey !in attributes[key.name].entries
  }

  predicate PresentIn(key: AttributeRef, attributes: Attributes) {
    key.name in attributes
    && (attributes[key.name].StringMapValue? ==> key.mapKey in attributes[key.name].entries)
  }

  function ValueTokens(v: Value): seq<Token>
    requires !v.StringMapValue?
  {
    match v
    case StringValue(text) => [Text(text)]
    case BytesValue(bytes) => [Text(bytes)]
    case Int64Value(int64) => [Int64(int64)]
    case DoubleValue(double) => [Double(double)]
    case BoolValue(flag) => [Bool(flag)]
    case TimestampValue(seconds, nanos) => [Int64(seconds), Delimiter, Int32(nanos)]
    case DurationValue(seconds, nanos) => [Int64(seconds), Delimiter, Int32(nanos)]
    case NotSet => []
  }

  /** How many keys from the front have the first one's name. */
  function GroupLength(keys: seq<AttributeRef>): (n: nat)
    requires keys != []
    ensures 0 < n <= |keys| && (forall i :: 0 <= i < n ==> keys[i].name == keys[0].name)
    ensures n < |keys| ==> keys[n].name != keys[0].name
  {
    if |keys| == 1 || keys[1].name != keys[0].name then 1 else 1 + GroupLength(keys[1..])
  }

  function EntryTokens(keys: seq<AttributeRef>, entries: map<string, string>): Option<seq<Token>> {
    if keys == [] then Some([])
    else if keys[0].mapKey !in entries then None
    else
      var more := EntryTokens(keys[1..], entries);
      if more.None? then None
      else Some([Text(keys[0].mapKey), Delimiter, Text(entries[keys[0].mapKey]), Delimiter] + more.value)
  }

  /** The keys that one step covers: all of a string map's, else one. */
  function StepLength(keys: seq<AttributeRef>, attributes: Attributes): (n: nat)
    requires keys != []
    ensures 0 < n <= |keys| && (forall i :: 0 <= i < n ==> keys[i].name == keys[0].name)
  {
    if keys[0].name in attributes && attributes[keys[0].name].StringMapValue? then GroupLength(keys) else 1
  }

  /** What one step puts into the digest. */
  function StepTokens(keys: seq<AttributeRef>, attributes: Attributes): Option<seq<Token>>
    requires keys != []
  {
    if keys[0].name !in attributes then None
    else
      var v := attributes[keys[0].name];
      var value :=
        if v.StringMapValue? then EntryTokens(keys[..GroupLength(keys)], v.entries) else Some(ValueTokens(v));
      if value.None? then None
      else Some([Text(keys[0].name), Delimiter] + value.value + [Delimiter])
  }

  function ExactTokens(keys: seq<AttributeRef>, attributes: Attributes): Option<seq<Token>>
    decreases |keys|
  {
    if keys == [] then Some([])
    else
      var here, more := StepTokens(keys, attributes), ExactTokens(keys[StepLength(keys, attributes)..], attributes);
      if here.None? || more.None? then None else Some(here.value + more.value)
  }

  function SignatureOf(absence: seq<AttributeRef>, exact: seq<AttributeRef>, attributes: Attributes, extraKey: string)
    : Option<Digest>
  {
    var tokens := ExactTokens(exact, attributes);
    if (exists i :: 0 <= i < |absence| && !AbsentIn(absence[i], attributes)) || tokens.None? then None
    else Some(tokens.value + [Text(extraKey)])
  }

  lemma {:induction false} EntriesPresent(keys: seq<AttributeRef>, entries: map<string, string>)
    ensures EntryTokens(keys, entries).Some? <==> forall i :: 0 <= i < |keys| ==> keys[i].mapKey in entries
    ensures EntryTokens(keys, entries).Some? ==> |EntryTokens(keys, entries).value| == 4 * |keys|
  {
    if keys != [] {
      EntriesPresent(keys[1..], entries);
      assert forall i :: 0 < i < |keys| ==> keys[i] == keys[1..][i - 1];
    }
  }

  /** There is a signature if and only if every absence key is absent and every exact key present. */
  lemma SignatureIff(absence: seq<AttributeRef>, exact: seq<AttributeRef>, attributes: Attributes, extraKey: string)
    ensures SignatureOf(absence, exact, attributes, extraKey).Some? <==>
            && (forall i :: 0 <= i < |absence| ==> AbsentIn(absence[i], attributes))
            && (forall i :: 0 <= i < |exact| ==> PresentIn(exact[i], attributes))
  {
    ExactPresent(exact, attributes);
  }

  lemma {:induction false} ExactPresent(keys: seq<AttributeRef>, attributes: Attributes)
    ensures ExactTokens(keys, attributes).Some? <==> forall i :: 0 <= i < |keys| ==> PresentIn(keys[i], attributes)
    decreases |keys|
  {
    hide StepTokens, StepLength, PresentIn;
    if keys != [] {
      var n := StepLength(keys, attributes);
      ExactPresent(keys[n..], attributes);
      StepPresent(keys, attributes);
      assert (forall i :: 0 <= i < |keys[n..]| ==> PresentIn(keys[n..][i], attributes)) <==>
             (forall i :: n <= i < |keys| ==> PresentIn(keys[i], attributes)) by {
        assert forall i :: n <= i < |keys| ==> keys[i] == keys[n..][i - n];
      }
    }
  }

  lemma StepPresent(keys: seq<AttributeRef>, attributes: Attributes)
    requires keys != []
    ensures StepTokens(keys, attributes).Some? <==>
            forall i :: 0 <= i < StepLength(keys, attributes) ==> PresentIn(keys[i], attributes)
  {
    if keys[0].name in attributes && attributes[keys[0].name].StringMapValue? {
      var n := GroupLength(keys);
      EntriesPresent(keys[..n], attributes[keys[0].name].entries);
    } else {
      assert PresentIn(keys[0], attributes) <==> keys[0].name in attributes;
    }
  }

  // ----- what equal signatures mean

  predicate SameKind(a: Value, b: Value) {
    && a.StringValue? == b.StringValue? && a.BytesValue? == b.BytesValue? && a.Int64Value? == b.Int64Value?
    && a.DoubleValue? == b.DoubleValue? && a.BoolValue? == b.BoolValue? && a.TimestampValue? == b.TimestampValue?
    && a.DurationValue? == b.DurationValue? && a.StringMapValue? == b.StringMapValue?
  }

  /** The part of the attributes that a key refers to is the same. */
  predicate Agree(key: AttributeRef, a: Attributes, b: Attributes)
    requires PresentIn(key, a) && PresentIn(key, b) && SameKind(a[key.name], b[key.name])
  {
    if a[key.name].StringMapValue? then a[key.name].entries[key.mapKey] == b[key.name].entries[key.mapKey]
    else a[key.name] == b[key.name]
  }

  predicate Comparable(keys: seq<AttributeRef>, a: Attributes, b: Attributes) {
    forall i :: 0 <= i < |keys| ==>
      PresentIn(keys[i], a) && PresentIn(keys[i], b) && SameKind(a[keys[i].name], b[keys[i].name])
  }

  predicate AllAgree(keys: seq<AttributeRef>, a: Attributes, b: Attributes)
    requires Comparable(keys, a, b)
  {
    forall i :: 0 <= i < |keys| ==> Agree(keys[i], a, b)
  }

  lemma {:induction false} EntriesAgree(keys: seq<AttributeRef>, a: map<string, string>, b: map<string, string>)
    requires forall i :: 0 <= i < |keys| ==> keys[i].mapKey in a && keys[i].mapKey in b
    ensures EntryTokens(keys, a).Some? && EntryTokens(keys, b).Some?
    ensures EntryTokens(keys, a) == EntryTokens(keys, b) <==>
            forall i :: 0 <= i < |keys| ==> a[keys[i].mapKey] == b[keys[i].mapKey]
  {
    EntriesPresent(keys, a);
    EntriesPresent(keys, b);
    if keys != [] {
      var ta, tb := EntryTokens(keys, a).value, EntryTokens(keys, b).value;
      EntriesAgree(keys[1..], a, b);
      assert ta[4..] == EntryTokens(keys[1..], a).value && tb[4..] == EntryTokens(keys[1..], b).value;
      assert ta[2] == Text(a[keys[0].mapKey]) && tb[2] == Text(b[keys[0].mapKey]);
      assert forall i :: 0 < i < |keys| ==> keys[i] == keys[1..][i - 1];
      assert ta == ta[..4] + ta[4..] && tb == tb[..4] + tb[4..];
    }
  }

  lemma StepAgree(keys: seq<AttributeRef>, a: Attributes, b: Attributes)
    requires keys != [] && Comparable(keys, a, b)
    ensures StepLength(keys, a) == StepLength(keys, b)
    ensures StepTokens(keys, a).Some? && StepTokens(keys, b).Some?
    ensures |StepTokens(keys, a).value| == |StepTokens(keys, b).value|
    ensures StepTokens(keys, a) == StepTokens(keys, b) <==>
            forall i :: 0 <= i < StepLength(keys, a) ==> Agree(keys[i], a, b)
  {
    var n := StepLength(keys, a);
    var va, vb := a[keys[0].name], b[keys[0].name];
    assert PresentIn(keys[0], a) && PresentIn(keys[0], b);
    if va.StringMapValue? {
      var group := keys[..n];
      forall i | 0 <= i < |group| ensures group[i].mapKey in va.entries && group[i].mapKey in vb.entries {
        assert PresentIn(keys[i], a) && PresentIn(keys[i], b);
      }
      EntriesPresent(group, va.entries);
      EntriesPresent(group, vb.entries);
      EntriesAgree(group, va.entries, vb.entries);
      Wrapped(keys[0].name, EntryTokens(group, va.entries).value, EntryTokens(group, vb.entries).value);
      assert forall i :: 0 <= i < n ==>
          (Agree(keys[i], a, b) <==> va.entries[group[i].mapKey] == vb.entries[group[i].mapKey]);
    } else {
      ValuesAgree(va, vb);
      Wrapped(keys[0].name, ValueTokens(va), ValueTokens(vb));
      assert n == 1;
      assert Agree(keys[0], a, b) <==> va == vb;
    }
  }

  lemma ValuesAgree(a: Value, b: Value)
    requires SameKind(a, b) && !a.StringMapValue?
    ensures ValueTokens(a) == ValueTokens(b) <==> a == b
    ensures |ValueTokens(a)| == |ValueTokens(b)|
  {
    if ValueTokens(a) == ValueTokens(b) && a != NotSet {
      assert ValueTokens(a)[0] == ValueTokens(b)[0];
      if a.TimestampValue? || a.DurationValue? { assert ValueTokens(a)[2] == ValueTokens(b)[2]; }
    }
  }

  lemma Wrapped(name: string, a: seq<Token>, b: seq<Token>)
    ensures [Text(name), Delimiter] + a + [Delimiter] == [Text(name), Delimiter] + b + [Delimiter] <==> a == b
  {
    var s, t := [Text(name), Delimiter] + a + [Delimiter], [Text(name), Delimiter] + b + [Delimiter];
    assert s[2..|s| - 1] == a && t[2..|t| - 1] == b;
  }

  lemma {:induction false} TokensAgree(keys: seq<AttributeRef>, a: Attributes, b: Attributes)
    requires Comparable(keys, a, b)
    ensures ExactTokens(keys, a).Some? && ExactTokens(keys, b).Some?
    ensures ExactTokens(keys, a) == ExactTokens(keys, b) <==> AllAgree(keys, a, b)
    decreases |keys|
  {
    hide StepTokens, StepLength, Agree, PresentIn, SameKind;
    if keys != [] {
      StepAgree(keys, a, b);
      var n := StepLength(keys, a);
      TokensAgree(keys[n..], a, b);
      SameSplit(StepTokens(keys, a).value, ExactTokens(keys[n..], a).value,
                StepTokens(keys, b).value, ExactTokens(keys[n..], b).value);
      assert AllAgree(keys[n..], a, b) <==> forall i :: n <= i < |keys| ==> Agree(keys[i], a, b) by {
        assert forall i :: n <= i < |keys| ==> keys[i] == keys[n..][i - n];
      }
    }
  }

  lemma SameSplit(a: seq<Token>, restA: seq<Token>, b: seq<Token>, restB: seq<Token>)
    requires |a| == |b|
    ensures a + restA == b + restB <==> a == b && restA == restB
  {
    if a + restA == b + restB {
      assert (a + restA)[..|a|] == a && (b + restB)[..|a|] == b;
      assert (a + restA)[|a|..] == restA && (b + restB)[|a|..] == restB;
    }
  }

  /** Signatures of two attribute sets by the same keys are equal if and only if the extra keys are
      equal and the sets agree on every exact key. */
  lemma EqualSignatures(absence: seq<AttributeRef>, exact: seq<AttributeRef>,
                        a: Attributes, extraA: string, b: Attributes, extraB: string)
    requires SignatureOf(absence, exact, a, extraA).Some? && SignatureOf(absence, exact, b, extraB).Some?
    requires forall i :: 0 <= i < |exact| && exact[i].name in a && exact[i].name in b ==>
               SameKind(a[exact[i].name], b[exact[i].name])
    ensures Comparable(exact, a, b)
    ensures SignatureOf(absence, exact, a, extraA) == SignatureOf(absence, exact, b, extraB) <==>
            extraA == extraB && AllAgree(exact, a, b)
  {
    ExactPresent(exact, a);
    ExactPresent(exact, b);
    TokensAgree(exact, a, b);
    var ta, tb := ExactTokens(exact, a).value, ExactTokens(exact, b).value;
    var s, t := ta + [Text(extraA)], tb + [Text(extraB)];
    assert s[..|s| - 1] == ta && t[..|t| - 1] == tb;
    assert s[|s| - 1] == Text(extraA) && t[|t| - 1] == Text(extraB);
  }
}
