/** The path trie of api_spec/src/path_matcher_node.cc on values: insertion, the backtracking
    lookup, and the declarative meaning of the paths it holds. */
module PathTrie {
  import opened Wrappers

  const SINGLE_PARAMETER_KEY: string := "/."
  const WILD_CARD_PATH_PART_KEY: string := "*"
  const WILD_CARD_PATH_KEY: string := "**"
  const HTTP_METHOD_WILD_CARD: string := "*"

  /** data names the registration; it stands for a pointer that is never null. */
  datatype LookupResult = LookupResult(data: nat, isMultiple: bool)

  datatype Trie = Trie(results: map<string, LookupResult>, children: map<string, Trie>, wildcard: bool)

  const EMPTY := Trie(map[], map[], false)

  // ----- the algorithms

  function ChildOrNew(t: Trie, key: string): Trie {
    var child := if key in t.children then t.children[key] else EMPTY;
    if key == WILD_CARD_PATH_KEY then child.(wildcard := true) else child
  }

  /** Says also whether the path and method are new. */
  function Insert(t: Trie, path: seq<string>, method_: string, data: nat, mark: bool): (Trie, bool)
    decreases |path|
  {
    if path == [] then
      if method_ in t.results then
        (if mark then t.(results := t.results[method_ := t.results[method_].(isMultiple := true)]) else t, false)
      else (t.(results := t.results[method_ := LookupResult(data, false)]), true)
    else
      var (child, added) := Insert(ChildOrNew(t, path[0]), path[1..], method_, data, mark);
      (t.(children := t.children[path[0] := child]), added)
  }

  function ResultFor(t: Trie, method_: string): Option<LookupResult> {
    if method_ in t.results then Some(t.results[method_])
    else if HTTP_METHOD_WILD_CARD in t.results then Some(t.results[HTTP_METHOD_WILD_CARD])
    else None
  }

  function LookupFromChild(t: Trie, key: string, parts: seq<string>, method_: string): Option<LookupResult>
    requires parts != []
    decreases |parts|, 0
  {
    if key in t.children then Lookup(t.children[key], parts[1..], method_) else None
  }

  function OrElse(a: Option<LookupResult>, b: Option<LookupResult>): Option<LookupResult> {
    if a.Some? then a else b
  }

  function Lookup(t: Trie, parts: seq<string>, method_: string): Option<LookupResult>
    decreases |parts|, 1
  {
    if parts == [] then
      var own := ResultFor(t, method_);
      if own.Some? then own
      else if WILD_CARD_PATH_KEY in t.children then ResultFor(t.children[WILD_CARD_PATH_KEY], method_)
      else None
    else
      var literal := LookupFromChild(t, parts[0], parts, method_);
      if literal.Some? then literal
      else if t.wildcard then Lookup(t, parts[1..], method_)
      else OrElse(LookupFromChild(t, SINGLE_PARAMETER_KEY, parts, method_),
           OrElse(LookupFromChild(t, WILD_CARD_PATH_PART_KEY, parts, method_),
                  LookupFromChild(t, WILD_CARD_PATH_KEY, parts, method_)))
  }

  // ----- what a trie holds

  /** The entry stored under exactly this path and method. */
  function Find(t: Trie, path: seq<string>, method_: string): Option<LookupResult>
    decreases |path|
  {
    if path == [] then if method_ in t.results then Some(t.results[method_]) else None
    else if path[0] in t.children then Find(t.children[path[0]], path[1..], method_)
    else None
  }

  predicate Literal(segment: string) {
    segment != SINGLE_PARAMETER_KEY && segment != WILD_CARD_PATH_PART_KEY && segment != WILD_CARD_PATH_KEY
  }

  predicate AllLiteral(path: seq<string>) {
    forall i :: 0 <= i < |path| ==> Literal(path[i])
  }

  /** Only constant segments may follow a `**`. */
  predicate WellFormed(path: seq<string>) {
    if path == [] then true
    else if path[0] == WILD_CARD_PATH_KEY then AllLiteral(path[1..])
    else WellFormed(path[1..])
  }

  /** Right behind a `**` any segment but another `**` is as good as a constant: lookup follows it only for
      the part that equals it. */
  predicate MayFollow(segment: string, wild: bool) {
    Literal(segment) || (wild && segment != WILD_CARD_PATH_KEY)
  }

  /** The paths that lookup takes for what they mean. */
  predicate Sound(path: seq<string>) {
    if path == [] then true
    else if path[0] == WILD_CARD_PATH_KEY then SoundTail(path[1..], true)
    else Sound(path[1..])
  }

  predicate SoundTail(tail: seq<string>, wild: bool) {
    tail == [] || (MayFollow(tail[0], wild) && AllLiteral(tail[1..]))
  }

  /** The shape that inserting sound paths gives to a trie: below a `**` there are only constant
      segments, or right behind it any but a `**`, and just the `**` nodes are marked. */
  ghost predicate Shaped(t: Trie, wild: bool, below: bool)
    decreases t
  {
    && t.wildcard == wild
    && (forall k {:trigger t.children[k]} :: k in t.children ==>
          && (below ==> MayFollow(k, wild))
          && Shaped(t.children[k], k == WILD_CARD_PATH_KEY, below || k == WILD_CARD_PATH_KEY))
  }

  lemma {:induction false} InsertKeepsShape(t: Trie, path: seq<string>, method_: string, data: nat, mark: bool,
                                            wild: bool, below: bool)
    requires Shaped(t, wild, below) && (if below then SoundTail(path, wild) else Sound(path))
    ensures Shaped(Insert(t, path, method_, data, mark).0, wild, below)
    decreases |path|
  {
    if path != [] {
      var k := path[0];
      var below' := below || k == WILD_CARD_PATH_KEY;
      assert AllLiteral(path[1..]) ==> SoundTail(path[1..], false);
      InsertKeepsShape(ChildOrNew(t, k), path[1..], method_, data, mark, k == WILD_CARD_PATH_KEY, below');
    }
  }

  /** Insertion changes the entry it names and no other, and never replaces its data. */
  lemma {:induction false} InsertThenFind(t: Trie, path: seq<string>, method_: string, data: nat, mark: bool,
                                          q: seq<string>, mq: string)
    ensures var (t', added) := Insert(t, path, method_, data, mark);
            && added == Find(t, path, method_).None?
            && Find(t', q, mq) ==
               if q == path && mq == method_ then
                 if added then Some(LookupResult(data, false))
                 else if mark then Some(Find(t, path, method_).value.(isMultiple := true))
                 else Find(t, path, method_)
               else Find(t, q, mq)
    decreases |path|
  {
    if path != [] {
      var child := ChildOrNew(t, path[0]);
      if q != [] && q[0] == path[0] {
        InsertThenFind(child, path[1..], method_, data, mark, q[1..], mq);
        assert q == path <==> q[1..] == path[1..] by {
          assert q == [q[0]] + q[1..] && path == [path[0]] + path[1..];
        }
        FindInChildOrNew(t, path[0], q[1..], mq);
        FindInChildOrNew(t, path[0], path[1..], method_);
      } else {
        InsertThenFind(child, path[1..], method_, data, mark, path[1..], method_);
        FindInChildOrNew(t, path[0], path[1..], method_);
      }
    }
  }

  lemma {:induction false} FindInChildOrNew(t: Trie, key: string, q: seq<string>, mq: string)
    ensures Find(ChildOrNew(t, key), q, mq) == Find(t, [key] + q, mq)
  {
    assert ([key] + q)[1..] == q;
    if key !in t.children {
      assert Find(EMPTY, q, mq) == None;
    }
  }

  lemma {:induction false} FoundIsSound(t: Trie, path: seq<string>, method_: string, wild: bool, below: bool)
    requires Shaped(t, wild, below) && Find(t, path, method_).Some?
    ensures if below then SoundTail(path, wild) else Sound(path)
    decreases |path|
  {
    if path != [] {
      var k := path[0];
      FoundIsSound(t.children[k], path[1..], method_, k == WILD_CARD_PATH_KEY, below || k == WILD_CARD_PATH_KEY);
      if below && path[1..] != [] {
        assert path[1..][1..] == path[2..];
        assert forall i :: 1 < i < |path| ==> path[i] == path[2..][i - 2];
      }
    }
  }

  // ----- what a path means

  predicate SegmentMatches(segment: string, part: string) {
    segment == part || segment == SINGLE_PARAMETER_KEY || segment == WILD_CARD_PATH_PART_KEY
  }

  /** A `**` at the end takes any number of parts; before constants it takes at least one. */
  predicate TailMatches(tail: seq<string>, parts: seq<string>) {
    tail == [] || (|parts| > |tail| && parts[|parts| - |tail|..] == tail)
  }

  predicate Matches(path: seq<string>, parts: seq<string>) {
    if path == [] then parts == []
    else if path[0] == WILD_CARD_PATH_KEY then TailMatches(path[1..], parts)
    else parts != [] && SegmentMatches(path[0], parts[0]) && Matches(path[1..], parts[1..])
  }

  predicate MethodMatches(registered: string, method_: string) {
    registered == method_ || registered == HTTP_METHOD_WILD_CARD
  }

  // ----- which of two matching paths is the more specific

  function Rank(segment: string): nat {
    if Literal(segment) then 0
    else if segment == SINGLE_PARAMETER_KEY then 1
    else if segment == WILD_CARD_PATH_PART_KEY then 2
    else 3
  }

  /** At the first difference a constant beats `*` beats `**`; after a shared `**` the longer
      constant tail wins; and ending at a node beats going on to its empty `**`. */
  predicate Beats(p: seq<string>, q: seq<string>) {
    if p == [] || q == [] then p == [] && q == [WILD_CARD_PATH_KEY]
    else if p[0] == q[0] then
      if p[0] == WILD_CARD_PATH_KEY then |p| > |q| else Beats(p[1..], q[1..])
    else Rank(p[0]) < Rank(q[0])
  }

  /** At one path, the exact method beats `*`. */
  predicate NotWorse(p: seq<string>, mp: string, q: seq<string>, mq: string, method_: string) {
    if p == q then mp == method_ || mq != method_ else Beats(p, q)
  }

  /** Request parts that do not read like the wildcard segments. */
  predicate Plain(parts: seq<string>) {
    forall i :: 0 <= i < |parts| ==>
      parts[i] != WILD_CARD_PATH_PART_KEY && parts[i] != WILD_CARD_PATH_KEY
  }

  // ----- what lookup takes a path for, in any trie that insertion builds

  /** Just the `**` nodes are marked. */
  ghost predicate Marked(t: Trie, wild: bool)
    decreases t
  {
    && t.wildcard == wild
    && forall k {:trigger t.children[k]} :: k in t.children ==> Marked(t.children[k], k == WILD_CARD_PATH_KEY)
  }

  lemma {:induction false} InsertKeepsMarks(t: Trie, path: seq<string>, method_: string, data: nat, mark: bool,
                                            wild: bool)
    requires Marked(t, wild)
    ensures Marked(Insert(t, path, method_, data, mark).0, wild)
    decreases |path|
  {
    if path != [] {
      InsertKeepsMarks(ChildOrNew(t, path[0]), path[1..], method_, data, mark, path[0] == WILD_CARD_PATH_KEY);
    }
  }

  /** Lookup at the node of a `**`, if wild, or at another one can get to the end of the path with these
      parts: a `**` node may skip parts and takes its children for constants. */
  predicate Reads(path: seq<string>, wild: bool, parts: seq<string>)
    decreases |parts|
  {
    if parts == [] then path == [] || path == [WILD_CARD_PATH_KEY]
    else
      || (wild && Reads(path, true, parts[1..]))
      || (path != [] && (path[0] == parts[0] || (!wild && !Literal(path[0])))
          && Reads(path[1..], path[0] == WILD_CARD_PATH_KEY, parts[1..]))
  }

  /** p and mp are read as parts and found; and whatever can be read so, something is found. */
  ghost predicate IsRead(t: Trie, wild: bool, parts: seq<string>, method_: string, p: seq<string>, mp: string) {
    && (Lookup(t, parts, method_).Some? ==>
          Find(t, p, mp) == Lookup(t, parts, method_) && Reads(p, wild, parts) && MethodMatches(mp, method_))
    && (forall q, mq {:trigger Find(t, q, mq)} ::
          Find(t, q, mq).Some? && Reads(q, wild, parts) && MethodMatches(mq, method_) ==>
          Lookup(t, parts, method_).Some?)
  }

  // ----- lookup below a `**`

  lemma ResultForFinds(t: Trie, method_: string) returns (m: string)
    ensures ResultFor(t, method_).Some? ==>
              Find(t, [], m) == ResultFor(t, method_) && MethodMatches(m, method_)
    ensures forall mq :: Find(t, [], mq).Some? && MethodMatches(mq, method_) ==>
              ResultFor(t, method_).Some? && (m == method_ || mq != method_)
  {
    m := if method_ in t.results then method_ else HTTP_METHOD_WILD_CARD;
  }

  lemma {:induction false} ConstantChildren(t: Trie, key: string)
    requires t.wildcard ==> Shaped(t, true, true)
    requires !t.wildcard ==> Shaped(t, false, true)
    ensures key in t.children ==> MayFollow(key, t.wildcard)
  {
    if key in t.children { var c := t.children[key]; }
  }

  /** Lookup in any marked trie finds an entry if and only if it can read some stored path as the parts, and
      then one that it can. */
  lemma {:induction false} LookupReads(t: Trie, wild: bool, parts: seq<string>, method_: string)
      returns (p: seq<string>, mp: string)
    requires Marked(t, wild)
    ensures IsRead(t, wild, parts, method_, p, mp)
    decreases |parts|
  {
    hide IsRead, Find, Lookup, Marked, Reads;
    MarkedFlag(t, wild);
    if parts == [] {
      p, mp := ReadAtEnd(t, wild, method_);
    } else {
      var p0, m0 := ReadFrom(t, wild, parts[0], parts, method_);
      if wild {
        var p1, m1 := LookupReads(t, true, parts[1..], method_);
        p, mp := if LookupFromChild(t, parts[0], parts, method_).Some? then p0 else p1,
                 if LookupFromChild(t, parts[0], parts, method_).Some? then m0 else m1;
        CombineWild(t, parts, method_, p0, m0, p1, m1);
      } else {
        var p1, m1 := ReadFrom(t, false, SINGLE_PARAMETER_KEY, parts, method_);
        var p2, m2 := ReadFrom(t, false, WILD_CARD_PATH_PART_KEY, parts, method_);
        var p3, m3 := ReadFrom(t, false, WILD_CARD_PATH_KEY, parts, method_);
        p, mp := CombineRead(t, parts, method_, p0, m0, p1, m1, p2, m2, p3, m3);
      }
    }
  }

  lemma {:induction false} MarkedFlag(t: Trie, wild: bool)
    requires Marked(t, wild)
    ensures t.wildcard == wild
  {
  }

  lemma ReadAtEnd(t: Trie, wild: bool, method_: string) returns (p: seq<string>, mp: string)
    requires Marked(t, wild)
    ensures IsRead(t, wild, [], method_, p, mp)
  {
    p := [];
    mp := ResultForFinds(t, method_);
    if ResultFor(t, method_).None? && WILD_CARD_PATH_KEY in t.children {
      p := [WILD_CARD_PATH_KEY];
      mp := ResultForFinds(t.children[WILD_CARD_PATH_KEY], method_);
    }
    forall q, mq | Find(t, q, mq).Some? && Reads(q, wild, []) && MethodMatches(mq, method_)
      ensures Lookup(t, [], method_).Some?
    {
      if q != [] { assert q[1..] == []; }
    }
  }

  /** The same for the paths that start with one key that lookup follows. */
  ghost predicate IsReadFrom(t: Trie, wild: bool, key: string, parts: seq<string>, method_: string, p: seq<string>,
                             mp: string)
    requires parts != []
  {
    var found := LookupFromChild(t, key, parts, method_);
    && (found.Some? ==> p != [] && p[0] == key && Find(t, p, mp) == found && MethodMatches(mp, method_)
                        && Reads(p[1..], key == WILD_CARD_PATH_KEY, parts[1..]))
    && (forall q, mq {:trigger Find(t, q, mq)} ::
          q != [] && q[0] == key && Find(t, q, mq).Some? && MethodMatches(mq, method_)
          && Reads(q[1..], key == WILD_CARD_PATH_KEY, parts[1..]) ==>
          found.Some?)
  }

  lemma {:induction false} ReadFrom(t: Trie, wild: bool, key: string, parts: seq<string>, method_: string)
      returns (p: seq<string>, mp: string)
    requires Marked(t, wild) && parts != []
    ensures IsReadFrom(t, wild, key, parts, method_, p, mp)
    decreases |parts|, 0
  {
    p, mp := [key], "";
    if key in t.children {
      var p1, m1 := LookupReads(t.children[key], key == WILD_CARD_PATH_KEY, parts[1..], method_);
      p, mp := [key] + p1, m1;
      assert p[1..] == p1;
      ReadOfChild(t, wild, key, parts, method_, p1, m1);
    }
  }

  lemma {:induction false} ReadOfChild(t: Trie, wild: bool, key: string, parts: seq<string>, method_: string,
                                       p: seq<string>, mp: string)
    requires parts != [] && key in t.children
    requires IsRead(t.children[key], key == WILD_CARD_PATH_KEY, parts[1..], method_, p, mp)
    ensures IsReadFrom(t, wild, key, parts, method_, [key] + p, mp)
  {
    hide Reads, Lookup;
    assert ([key] + p)[1..] == p;
    forall q, mq | q != [] && q[0] == key && Find(t, q, mq).Some? && MethodMatches(mq, method_)
        && Reads(q[1..], key == WILD_CARD_PATH_KEY, parts[1..])
      ensures LookupFromChild(t, key, parts, method_).Some?
    {
      assert Find(t.children[key], q[1..], mq).Some?;
    }
  }

  lemma {:induction false} CombineWild(t: Trie, parts: seq<string>, method_: string, p0: seq<string>, m0: string,
                                       p1: seq<string>, m1: string)
    requires t.wildcard && parts != [] && IsReadFrom(t, true, parts[0], parts, method_, p0, m0)
    requires IsRead(t, true, parts[1..], method_, p1, m1)
    ensures if LookupFromChild(t, parts[0], parts, method_).Some? then IsRead(t, true, parts, method_, p0, m0)
            else IsRead(t, true, parts, method_, p1, m1)
  {
    hide Find;
  }

  lemma {:induction false} CombineRead(t: Trie, parts: seq<string>, method_: string, p0: seq<string>, m0: string,
                                       p1: seq<string>, m1: string, p2: seq<string>, m2: string, p3: seq<string>,
                                       m3: string)
      returns (p: seq<string>, mp: string)
    requires !t.wildcard && parts != [] && IsReadFrom(t, false, parts[0], parts, method_, p0, m0)
    requires IsReadFrom(t, false, SINGLE_PARAMETER_KEY, parts, method_, p1, m1)
    requires IsReadFrom(t, false, WILD_CARD_PATH_PART_KEY, parts, method_, p2, m2)
    requires IsReadFrom(t, false, WILD_CARD_PATH_KEY, parts, method_, p3, m3)
    ensures IsRead(t, false, parts, method_, p, mp)
  {
    hide Find;
    p, mp := if LookupFromChild(t, parts[0], parts, method_).Some? then p0
             else if LookupFromChild(t, SINGLE_PARAMETER_KEY, parts, method_).Some? then p1
             else if LookupFromChild(t, WILD_CARD_PATH_PART_KEY, parts, method_).Some? then p2
             else p3,
             if LookupFromChild(t, parts[0], parts, method_).Some? then m0
             else if LookupFromChild(t, SINGLE_PARAMETER_KEY, parts, method_).Some? then m1
             else if LookupFromChild(t, WILD_CARD_PATH_PART_KEY, parts, method_).Some? then m2
             else m3;
  }

  /** A path that is read has at most as many segments as there are parts, but for a `**` at its end. */
  lemma {:induction false} ReadIsShort(path: seq<string>, wild: bool, parts: seq<string>)
    requires Reads(path, wild, parts)
    ensures |path| <= |parts| || (|path| == |parts| + 1 && path[|path| - 1] == WILD_CARD_PATH_KEY)
    decreases |parts|
  {
    if parts != [] {
      if wild && Reads(path, true, parts[1..]) {
        ReadIsShort(path, true, parts[1..]);
      } else {
        ReadIsShort(path[1..], path[0] == WILD_CARD_PATH_KEY, parts[1..]);
      }
    }
  }

  /** What matches is read. */
  lemma {:induction false} MatchedIsRead(path: seq<string>, parts: seq<string>)
    requires Matches(path, parts)
    ensures Reads(path, false, parts)
    decreases |path|
  {
    if path == [] {
    } else if path[0] != WILD_CARD_PATH_KEY {
      MatchedIsRead(path[1..], parts[1..]);
    } else if parts == [] {
      assert path == [WILD_CARD_PATH_KEY];
    } else {
      var tail, rest := path[1..], parts[1..];
      assert tail != [] ==> rest[|rest| - |tail|..] == parts[|parts| - |tail|..];
      assert rest[|rest|..] == [];
      TailIsRead(tail, true, rest);
    }
  }

  lemma {:induction false} TailIsRead(tail: seq<string>, wild: bool, parts: seq<string>)
    requires |tail| <= |parts| && parts[|parts| - |tail|..] == tail && (|tail| < |parts| ==> wild)
    ensures Reads(tail, wild, parts)
    decreases |parts|
  {
    if |tail| < |parts| {
      assert parts[1..][|parts| - 1 - |tail|..] == tail;
      TailIsRead(tail, wild, parts[1..]);
    } else if parts != [] {
      assert parts[0..] == parts;
      TailIsRead(tail[1..], tail[0] == WILD_CARD_PATH_KEY, parts[1..]);
    }
  }

  /** What is read matches, if the path is sound. */
  lemma {:induction false} SoundIsMatched(path: seq<string>, parts: seq<string>)
    requires Sound(path) && Reads(path, false, parts)
    ensures Matches(path, parts)
    decreases |path|
  {
    if parts != [] && path[0] != WILD_CARD_PATH_KEY {
      SoundIsMatched(path[1..], parts[1..]);
    } else if parts != [] {
      var tail, rest := path[1..], parts[1..];
      SoundTailIsSuffix(tail, true, rest);
      assert tail != [] ==> rest[|rest| - |tail|..] == parts[|parts| - |tail|..];
    }
  }

  lemma {:induction false} SoundTailIsSuffix(tail: seq<string>, wild: bool, parts: seq<string>)
    requires SoundTail(tail, wild) && Reads(tail, wild, parts)
    ensures |tail| <= |parts| && parts[|parts| - |tail|..] == tail && (!wild ==> |tail| == |parts|)
    decreases |parts|
  {
    if parts == [] {
    } else if wild && Reads(tail, true, parts[1..]) {
      SoundTailIsSuffix(tail, true, parts[1..]);
      assert parts[1..][|parts| - 1 - |tail|..] == parts[|parts| - |tail|..];
    } else {
      assert forall i :: 0 <= i < |tail| - 2 ==> tail[1..][1..][i] == tail[1..][i + 1];
      assert SoundTail(tail[1..], false);
      SoundTailIsSuffix(tail[1..], false, parts[1..]);
      assert parts[1..][0..] == parts[1..] && parts[0..] == parts;
      assert tail == [tail[0]] + tail[1..];
    }
  }

  lemma {:induction false} SelfIsRead(path: seq<string>, wild: bool)
    ensures Reads(path, wild, path)
    decreases |path|
  {
    if path != [] { SelfIsRead(path[1..], path[0] == WILD_CARD_PATH_KEY); }
  }

  /** Away from a `**` node a wildcard is read as any part. */
  lemma {:induction false} StrayIsRead(path: seq<string>, wild: bool, i: nat, part: string)
    requires i < |path| && !Literal(path[i])
    requires if i == 0 then !wild else path[i - 1] != WILD_CARD_PATH_KEY
    ensures Reads(path, wild, path[i := part])
    decreases |path|
  {
    var parts := path[i := part];
    if i == 0 {
      assert parts[1..] == path[1..];
      SelfIsRead(path[1..], path[0] == WILD_CARD_PATH_KEY);
    } else {
      assert parts[1..] == path[1..][i - 1 := part];
      StrayIsRead(path[1..], path[0] == WILD_CARD_PATH_KEY, i - 1, part);
    }
  }

  lemma {:induction false} UnsoundIsMisread(path: seq<string>) returns (parts: seq<string>)
    requires !Sound(path)
    ensures Reads(path, false, parts) && !Matches(path, parts)
    decreases |path|
  {
    if path[0] != WILD_CARD_PATH_KEY {
      var rest := UnsoundIsMisread(path[1..]);
      parts := [path[0]] + rest;
      assert parts[1..] == rest;
    } else {
      var tail := path[1..];
      var rest := UnsoundTailIsMisread(tail);
      parts := ["x"] + rest;
      assert parts[1..] == rest;
      assert parts[|parts| - |tail|..] == rest[|rest| - |tail|..];
    }
  }

  lemma {:induction false} UnsoundTailIsMisread(tail: seq<string>) returns (parts: seq<string>)
    requires !SoundTail(tail, true)
    ensures Reads(tail, true, parts) && |parts| >= |tail| && parts[|parts| - |tail|..] != tail
  {
    if tail[0] == WILD_CARD_PATH_KEY {
      var rest := ["y"] + tail[1..];
      parts := [WILD_CARD_PATH_KEY] + rest;
      SelfIsRead(tail[1..], true);
      assert rest[1..] == tail[1..] && parts[1..] == rest;
      assert parts[1..][0] != tail[0];
    } else {
      var i := FirstStray(tail);
      var part := if tail[i] == "y" then "z" else "y";
      parts := tail[i := part];
      StrayIsRead(tail, true, i, part);
      assert parts[0..] == parts && parts[i] != tail[i];
    }
  }

  lemma {:induction false} FirstStray(tail: seq<string>) returns (i: nat)
    requires !SoundTail(tail, true) && tail[0] != WILD_CARD_PATH_KEY
    ensures 0 < i < |tail| && !Literal(tail[i]) && tail[i - 1] != WILD_CARD_PATH_KEY
  {
    i := 1;
    assert exists j :: 0 <= j < |tail| - 1 && !Literal(tail[1..][j]);
    while Literal(tail[i])
      invariant 0 < i < |tail| && tail[i - 1] != WILD_CARD_PATH_KEY
      invariant exists j :: i <= j < |tail| && !Literal(tail[j])
      decreases |tail| - i
    {
      i := i + 1;
    }
  }

  /** A path is read as exactly the parts that it matches if and only if it is sound. */
  lemma {:induction false} SoundIffReadAsMeant(path: seq<string>)
    ensures Sound(path) <==> forall parts :: Reads(path, false, parts) <==> Matches(path, parts)
  {
    if Sound(path) {
      forall parts ensures Reads(path, false, parts) <==> Matches(path, parts) {
        if Matches(path, parts) { MatchedIsRead(path, parts); }
        if Reads(path, false, parts) { SoundIsMatched(path, parts); }
      }
    } else {
      var parts := UnsoundIsMisread(path);
    }
  }

  /** Among constant segments lookup follows the parts exactly. */
  lemma {:induction false} LookupAmongConstants(t: Trie, parts: seq<string>, method_: string) returns (m: string)
    requires Shaped(t, false, true)
    ensures Lookup(t, parts, method_).Some? ==>
              Find(t, parts, m) == Lookup(t, parts, method_) && MethodMatches(m, method_)
    ensures forall mq :: Find(t, parts, mq).Some? && MethodMatches(mq, method_) ==>
              Lookup(t, parts, method_).Some? && (m == method_ || mq != method_)
    decreases |parts|
  {
    if parts == [] {
      m := ResultForFinds(t, method_);
      ConstantChildren(t, WILD_CARD_PATH_KEY);
    } else {
      forall k ensures k in t.children ==> Literal(k) { ConstantChildren(t, k); }
      m := "";
      if parts[0] in t.children {
        m := LookupAmongConstants(t.children[parts[0]], parts[1..], method_);
      }
    }
  }

  /** tail and m are the longest constant tail of the parts, and the method, that t has an entry for. */
  ghost predicate IsLongestTail(t: Trie, parts: seq<string>, method_: string, tail: seq<string>, m: string) {
    && (Lookup(t, parts, method_).Some? ==>
          && |tail| <= |parts| && parts[|parts| - |tail|..] == tail
          && Find(t, tail, m) == Lookup(t, parts, method_) && MethodMatches(m, method_))
    && (forall q, mq {:trigger Find(t, q, mq)} ::
          |q| <= |parts| && parts[|parts| - |q|..] == q
          && Find(t, q, mq).Some? && MethodMatches(mq, method_) ==>
          && Lookup(t, parts, method_).Some? && |q| <= |tail|
          && (q == tail ==> m == method_ || mq != method_))
  }

  lemma TailAtEnd(t: Trie, method_: string) returns (m: string)
    requires Shaped(t, true, true)
    ensures IsLongestTail(t, [], method_, [], m)
  {
    m := ResultForFinds(t, method_);
    ConstantChildren(t, WILD_CARD_PATH_KEY);
  }

  lemma TailFromLiteral(t: Trie, parts: seq<string>, method_: string) returns (m: string)
    requires Shaped(t, true, true) && parts != []
    requires LookupFromChild(t, parts[0], parts, method_).Some?
    ensures IsLongestTail(t, parts, method_, parts, m)
  {
    ConstantChildren(t, parts[0]);
    m := LookupAmongConstants(t.children[parts[0]], parts[1..], method_);
    assert parts[0..] == parts;
    forall q, mq | |q| <= |parts| && parts[|parts| - |q|..] == q && q == parts
        && Find(t, q, mq).Some? && MethodMatches(mq, method_)
      ensures m == method_ || mq != method_
    {
      assert Find(t.children[parts[0]], parts[1..], mq).Some?;
    }
  }

  lemma {:induction false} NoLiteral(t: Trie, parts: seq<string>, method_: string, mq: string)
    requires Shaped(t, true, true) && parts != [] && MethodMatches(mq, method_)
    requires LookupFromChild(t, parts[0], parts, method_).None?
    ensures Find(t, parts, mq).None?
  {
    if parts[0] in t.children {
      ConstantChildren(t, parts[0]);
      var m := LookupAmongConstants(t.children[parts[0]], parts[1..], method_);
    }
  }

  lemma {:induction false} TailFromRest(t: Trie, parts: seq<string>, method_: string, tail: seq<string>, m: string)
    requires Shaped(t, true, true) && parts != [] && IsLongestTail(t, parts[1..], method_, tail, m)
    requires LookupFromChild(t, parts[0], parts, method_).None?
    ensures IsLongestTail(t, parts, method_, tail, m)
  {
    hide Find, Shaped;
    WildcardStays(t, parts, method_);
    forall q, mq | |q| <= |parts| && parts[|parts| - |q|..] == q
        && Find(t, q, mq).Some? && MethodMatches(mq, method_)
      ensures Lookup(t, parts, method_).Some? && |q| <= |tail|
      ensures q == tail ==> m == method_ || mq != method_
    {
      if |q| == |parts| {
        assert q == parts;
        NoLiteral(t, parts, method_, mq);
      } else {
        assert parts[1..][|parts| - 1 - |q|..] == q;
      }
    }
    if Lookup(t, parts, method_).Some? {
      assert parts[1..][|parts| - 1 - |tail|..] == parts[|parts| - |tail|..];
    }
  }

  lemma {:induction false} WildcardStays(t: Trie, parts: seq<string>, method_: string)
    requires Shaped(t, true, true) && parts != [] && LookupFromChild(t, parts[0], parts, method_).None?
    ensures Lookup(t, parts, method_) == Lookup(t, parts[1..], method_)
  {
  }

  /** At a `**` node the longest constant tail of the parts that is registered wins. */
  lemma {:induction false} LookupAtWildcard(t: Trie, parts: seq<string>, method_: string)
      returns (tail: seq<string>, m: string)
    requires Shaped(t, true, true)
    ensures IsLongestTail(t, parts, method_, tail, m)
    decreases |parts|
  {
    hide IsLongestTail, Shaped, Find, Lookup;
    if parts == [] {
      tail := [];
      m := TailAtEnd(t, method_);
    } else if LookupFromChild(t, parts[0], parts, method_).Some? {
      tail := parts;
      m := TailFromLiteral(t, parts, method_);
    } else {
      tail, m := LookupAtWildcard(t, parts[1..], method_);
      TailFromRest(t, parts, method_, tail, m);
    }
  }

  // ----- lookup from the root

  /** Any path that matches is found, and what is found is a path that matches and
      that no other matching path beats. */
  ghost predicate IsBest(t: Trie, parts: seq<string>, method_: string, p: seq<string>, mp: string) {
    && (Lookup(t, parts, method_).Some? ==>
          && Find(t, p, mp) == Lookup(t, parts, method_)
          && Matches(p, parts) && MethodMatches(mp, method_))
    && (forall q, mq {:trigger Find(t, q, mq)} ::
          Find(t, q, mq).Some? && Matches(q, parts) && MethodMatches(mq, method_) ==>
          && Lookup(t, parts, method_).Some?
          && (Plain(parts) ==> NotWorse(p, mp, q, mq, method_)))
  }

  lemma LookupAtEnd(t: Trie, method_: string) returns (p: seq<string>, m: string)
    requires Shaped(t, false, false)
    ensures IsBest(t, [], method_, p, m)
  {
    p := [];
    m := ResultForFinds(t, method_);
    if ResultFor(t, method_).None? && WILD_CARD_PATH_KEY in t.children {
      p := [WILD_CARD_PATH_KEY];
      m := ResultForFinds(t.children[WILD_CARD_PATH_KEY], method_);
    }
    forall q, mq | Find(t, q, mq).Some? && Matches(q, []) && MethodMatches(mq, method_)
      ensures Lookup(t, [], method_).Some? && NotWorse(p, m, q, mq, method_)
    {
      if q != [] {
        assert q == [WILD_CARD_PATH_KEY] + q[1..];
        assert q[1..] == [];
        assert q == [WILD_CARD_PATH_KEY];
      }
    }
  }

  /** The best match among the paths that start with one key. */
  ghost predicate IsBestFrom(t: Trie, key: string, parts: seq<string>, method_: string, p: seq<string>, mp: string)
    requires parts != []
  {
    var found := LookupFromChild(t, key, parts, method_);
    && (found.Some? ==>
          && p != [] && p[0] == key && Find(t, p, mp) == found
          && Matches(p, parts) && MethodMatches(mp, method_))
    && (forall q, mq {:trigger Find(t, q, mq)} ::
          q != [] && q[0] == key
          && Find(t, q, mq).Some? && Matches(q, parts) && MethodMatches(mq, method_) ==>
          && found.Some?
          && (Plain(parts) ==> NotWorse(p, mp, q, mq, method_)))
  }

  lemma BestOfChild(t: Trie, key: string, parts: seq<string>, method_: string, p: seq<string>, mp: string)
    requires parts != [] && key in t.children && key != WILD_CARD_PATH_KEY && SegmentMatches(key, parts[0])
    requires IsBest(t.children[key], parts[1..], method_, p, mp)
    ensures IsBestFrom(t, key, parts, method_, [key] + p, mp)
  {
    assert ([key] + p)[1..] == p;
    forall q, mq | q != [] && q[0] == key
        && Find(t, q, mq).Some? && Matches(q, parts) && MethodMatches(mq, method_)
      ensures LookupFromChild(t, key, parts, method_).Some?
      ensures Plain(parts) ==> NotWorse([key] + p, mp, q, mq, method_)
    {
      assert Find(t.children[key], q[1..], mq).Some?;
      assert q == [key] + q[1..];
      assert Plain(parts) ==> Plain(parts[1..]);
      assert q == [key] + p <==> q[1..] == p;
    }
  }

  lemma BestOfWildcard(t: Trie, parts: seq<string>, method_: string) returns (p: seq<string>, mp: string)
    requires Shaped(t, false, false) && parts != [] && WILD_CARD_PATH_KEY in t.children
    ensures IsBestFrom(t, WILD_CARD_PATH_KEY, parts, method_, p, mp)
  {
    var rest := parts[1..];
    var tail, m := LookupAtWildcard(t.children[WILD_CARD_PATH_KEY], rest, method_);
    p, mp := [WILD_CARD_PATH_KEY] + tail, m;
    assert p[1..] == tail;
    if |tail| <= |rest| {
      assert rest[|rest| - |tail|..] == parts[|parts| - |tail|..];
    }
    forall q, mq | q != [] && q[0] == WILD_CARD_PATH_KEY
        && Find(t, q, mq).Some? && Matches(q, parts) && MethodMatches(mq, method_)
      ensures LookupFromChild(t, WILD_CARD_PATH_KEY, parts, method_).Some?
      ensures NotWorse(p, mp, q, mq, method_)
    {
      assert q == [WILD_CARD_PATH_KEY] + q[1..];
      assert Find(t.children[WILD_CARD_PATH_KEY], q[1..], mq).Some?;
      assert rest[|rest| - |q[1..]|..] == q[1..] by {
        if q[1..] != [] {
          assert rest[|rest| - |q[1..]|..] == parts[|parts| - |q[1..]|..];
        }
      }
      if |q[1..]| == |tail| && LookupFromChild(t, WILD_CARD_PATH_KEY, parts, method_).Some? {
        assert q[1..] == tail;
      }
    }
  }

  lemma NoChild(t: Trie, key: string, parts: seq<string>, method_: string)
    requires parts != [] && key !in t.children
    ensures IsBestFrom(t, key, parts, method_, [], "")
  {
  }

  /** The four children a part may lead to, in the order in which lookup tries them. */
  lemma {:induction false} LookupIsBest(t: Trie, parts: seq<string>, method_: string)
      returns (p: seq<string>, mp: string)
    requires Shaped(t, false, false)
    ensures IsBest(t, parts, method_, p, mp)
    decreases |parts|
  {
    hide IsBest, IsBestFrom;
    if parts == [] {
      p, mp := LookupAtEnd(t, method_);
    } else {
      var p0, m0 := BestFrom(t, parts[0], parts, method_);
      var p1, m1 := BestFrom(t, SINGLE_PARAMETER_KEY, parts, method_);
      var p2, m2 := BestFrom(t, WILD_CARD_PATH_PART_KEY, parts, method_);
      var p3, m3 := BestFrom(t, WILD_CARD_PATH_KEY, parts, method_);
      p, mp := CombineBest(t, parts, method_, p0, m0, p1, m1, p2, m2, p3, m3);
    }
  }

  lemma {:induction false} BestFrom(t: Trie, key: string, parts: seq<string>, method_: string)
      returns (p: seq<string>, mp: string)
    requires Shaped(t, false, false) && parts != []
    requires SegmentMatches(key, parts[0]) || key == WILD_CARD_PATH_KEY
    ensures IsBestFrom(t, key, parts, method_, p, mp)
    decreases |parts|, 0
  {
    hide IsBest, IsBestFrom;
    if key !in t.children {
      p, mp := [], "";
      NoChild(t, key, parts, method_);
    } else if key == WILD_CARD_PATH_KEY {
      p, mp := BestOfWildcard(t, parts, method_);
    } else {
      var q, m := LookupIsBest(t.children[key], parts[1..], method_);
      BestOfChild(t, key, parts, method_, q, m);
      p, mp := [key] + q, m;
    }
  }

  lemma CombineBest(t: Trie, parts: seq<string>, method_: string,
                    p0: seq<string>, m0: string, p1: seq<string>, m1: string,
                    p2: seq<string>, m2: string, p3: seq<string>, m3: string)
      returns (p: seq<string>, mp: string)
    requires Shaped(t, false, false) && parts != []
    requires IsBestFrom(t, parts[0], parts, method_, p0, m0)
    requires IsBestFrom(t, SINGLE_PARAMETER_KEY, parts, method_, p1, m1)
    requires IsBestFrom(t, WILD_CARD_PATH_PART_KEY, parts, method_, p2, m2)
    requires IsBestFrom(t, WILD_CARD_PATH_KEY, parts, method_, p3, m3)
    ensures IsBest(t, parts, method_, p, mp)
  {
    if LookupFromChild(t, parts[0], parts, method_).Some? {
      p, mp := p0, m0;
    } else if LookupFromChild(t, SINGLE_PARAMETER_KEY, parts, method_).Some? {
      p, mp := p1, m1;
    } else if LookupFromChild(t, WILD_CARD_PATH_PART_KEY, parts, method_).Some? {
      p, mp := p2, m2;
    } else {
      p, mp := p3, m3;
    }
    forall q, mq | Find(t, q, mq).Some? && Matches(q, parts) && MethodMatches(mq, method_)
      ensures Lookup(t, parts, method_).Some?
      ensures Plain(parts) ==> NotWorse(p, mp, q, mq, method_)
    {
      assert q[0] == parts[0] || q[0] == SINGLE_PARAMETER_KEY
        || q[0] == WILD_CARD_PATH_PART_KEY || q[0] == WILD_CARD_PATH_KEY;
    }
  }

  // ----- the precedence needs plain parts, and exactly those

  /** A trie with one branch, which spells out a prefix. */
  ghost function Chain(prefix: seq<string>, t: Trie): Trie {
    if prefix == [] then t else Trie(map[], map[prefix[0] := Chain(prefix[1..], t)], false)
  }

  lemma {:induction false} ChainFinds(prefix: seq<string>, t: Trie, path: seq<string>, m: string)
    ensures Find(Chain(prefix, t), prefix + path, m) == Find(t, path, m)
    decreases |prefix|
  {
    if prefix == [] {
      assert prefix + path == path;
    } else {
      assert (prefix + path)[1..] == prefix[1..] + path;
      ChainFinds(prefix[1..], t, path, m);
    }
  }

  lemma {:induction false} ChainLooksUp(prefix: seq<string>, t: Trie, rest: seq<string>, m: string)
    requires Plain(prefix)
    ensures Lookup(Chain(prefix, t), prefix + rest, m) == Lookup(t, rest, m)
    decreases |prefix|
  {
    if prefix == [] {
      assert prefix + rest == rest;
    } else {
      assert (prefix + rest)[1..] == prefix[1..] + rest;
      ChainLooksUp(prefix[1..], t, rest, m);
    }
  }

  lemma {:induction false} ChainIsShaped(prefix: seq<string>, t: Trie)
    requires Plain(prefix) && Shaped(t, false, false)
    ensures Shaped(Chain(prefix, t), false, false)
    decreases |prefix|
  {
    if prefix != [] { ChainIsShaped(prefix[1..], t); }
  }

  lemma {:induction false} ChainBeats(prefix: seq<string>, p: seq<string>, q: seq<string>)
    requires Plain(prefix) && Beats(p, q) && p != [] && q != []
    ensures Beats(prefix + p, prefix + q)
    decreases |prefix|
  {
    if prefix == [] {
      assert prefix + p == p && prefix + q == q;
    } else {
      assert (prefix + p)[1..] == prefix[1..] + p && (prefix + q)[1..] == prefix[1..] + q;
      ChainBeats(prefix[1..], p, q);
    }
  }

  lemma {:induction false} ChainMatches(prefix: seq<string>, path: seq<string>, rest: seq<string>)
    requires Plain(prefix) && Matches(path, rest)
    ensures Matches(prefix + path, prefix + rest)
    decreases |prefix|
  {
    if prefix == [] {
      assert prefix + path == path && prefix + rest == rest;
    } else {
      assert (prefix + path)[1..] == prefix[1..] + path && (prefix + rest)[1..] == prefix[1..] + rest;
      ChainMatches(prefix[1..], path, rest);
    }
  }

  /** A path of n single-segment wildcards with one key, ending in an entry. */
  ghost function Row(key: string, n: nat): seq<string> { seq(n, _ => key) }

  ghost function Leaf(data: nat, wild: bool): Trie { Trie(map["GET" := LookupResult(data, false)], map[], wild) }

  lemma {:induction false} RowFacts(key: string, n: nat, parts: seq<string>, data: nat)
    requires |parts| == n && (key == SINGLE_PARAMETER_KEY || key == WILD_CARD_PATH_PART_KEY)
    ensures Matches(Row(key, n), parts)
    ensures Find(RowTrie(key, n, data), Row(key, n), "GET") == Some(LookupResult(data, false))
    ensures Lookup(RowTrie(key, n, data), parts, "GET") == Some(LookupResult(data, false))
    ensures Shaped(RowTrie(key, n, data), false, false)
    decreases n
  {
    if n > 0 {
      assert Row(key, n)[1..] == Row(key, n - 1);
      RowFacts(key, n - 1, parts[1..], data);
    }
  }

  ghost function RowTrie(key: string, n: nat, data: nat): Trie {
    if n == 0 then Leaf(data, false) else Trie(map[], map[key := RowTrie(key, n - 1, data)], false)
  }

  lemma {:induction false} WildLeafTakesAll(parts: seq<string>, data: nat)
    ensures Lookup(Leaf(data, true), parts, "GET") == Some(LookupResult(data, false))
    decreases |parts|
  {
    if parts != [] { WildLeafTakesAll(parts[1..], data); }
  }

  lemma {:induction false} RowData(key: string, n: nat, data: nat, q: seq<string>, m: string)
    ensures Find(RowTrie(key, n, data), q, m).Some? ==>
              Find(RowTrie(key, n, data), q, m).value == LookupResult(data, false)
    decreases n
  {
    if n > 0 && q != [] { RowData(key, n - 1, data, q[1..], m); }
  }

  /** Two branches behind a prefix: the better one is a row of wildcards under `key`. */
  ghost function Fork(prefix: seq<string>, key: string, n: nat, part: string, bad: Trie): Trie {
    Chain(prefix, Trie(map[], map[key := RowTrie(key, n, 1), part := bad], false))
  }

  lemma {:induction false} BestOfFork(prefix: seq<string>, key: string, n: nat, part: string, bad: Trie,
                                      rest: seq<string>)
    requires Plain(prefix) && |rest| == n && key != part
    requires key == SINGLE_PARAMETER_KEY || key == WILD_CARD_PATH_PART_KEY
    ensures Find(Fork(prefix, key, n, part, bad), prefix + ([key] + Row(key, n)), "GET").Some?
    ensures Matches(prefix + ([key] + Row(key, n)), prefix + ([part] + rest))
  {
    var best := [key] + Row(key, n);
    assert best[1..] == Row(key, n) && ([part] + rest)[1..] == rest;
    RowFacts(key, n, rest, 1);
    ChainFinds(prefix, Trie(map[], map[key := RowTrie(key, n, 1), part := bad], false), best, "GET");
    ChainMatches(prefix, best, [part] + rest);
  }

  lemma {:induction false} WrongBranch(prefix: seq<string>, key: string, n: nat, part: string, bad: Trie,
                                       rest: seq<string>, p: seq<string>, mp: string)
    requires Plain(prefix) && |rest| == n && key != part && Rank(key) < Rank(part)
    requires key == SINGLE_PARAMETER_KEY || key == WILD_CARD_PATH_PART_KEY
    requires Find(Fork(prefix, key, n, part, bad), p, mp) == Some(LookupResult(2, false))
    ensures !IsMostSpecific(Fork(prefix, key, n, part, bad), prefix + ([part] + rest), "GET", p, mp)
  {
    var t0 := Trie(map[], map[key := RowTrie(key, n, 1), part := bad], false);
    var best := [key] + Row(key, n);
    BestOfFork(prefix, key, n, part, bad, rest);
    forall q, m ensures Find(t0.children[key], q, m).Some? ==> Find(t0.children[key], q, m).value.data == 1 {
      RowData(key, n, 1, q, m);
    }
    OnlyBad(prefix, t0, p, mp, key, part);
    var p0 := p[|prefix|..];
    assert p == prefix + p0;
    ChainBeats(prefix, best, p0);
    NotBoth(prefix + best, p);
  }

  /** Where a request part is `*` or `**`, there are registered paths for which lookup does not
      return the most specific match. */
  lemma UnplainPartsMislead(parts: seq<string>, i: nat) returns (t: Trie)
    requires i < |parts| && Plain(parts[..i])
    requires parts[i] == WILD_CARD_PATH_PART_KEY || parts[i] == WILD_CARD_PATH_KEY
    ensures Shaped(t, false, false) && Lookup(t, parts, "GET").Some?
    ensures forall p, mp ::
              !(Find(t, p, mp) == Lookup(t, parts, "GET") && IsMostSpecific(t, parts, "GET", p, mp))
  {
    hide IsMostSpecific;
    var prefix, rest, part := parts[..i], parts[i + 1..], parts[i];
    var n := |rest|;
    assert parts == prefix + ([part] + rest) && ([part] + rest)[1..] == rest;
    var key := if part == WILD_CARD_PATH_KEY then WILD_CARD_PATH_PART_KEY else SINGLE_PARAMETER_KEY;
    var bad := if part == WILD_CARD_PATH_KEY then Leaf(2, true) else RowTrie(SINGLE_PARAMETER_KEY, n, 2);
    t := Fork(prefix, key, n, part, bad);
    var t0 := Trie(map[], map[key := RowTrie(key, n, 1), part := bad], false);
    RowFacts(key, n, rest, 1);
    RowFacts(SINGLE_PARAMETER_KEY, n, rest, 2);
    WildLeafTakesAll(rest, 2);
    ChainIsShaped(prefix, t0);
    ChainLooksUp(prefix, t0, [part] + rest, "GET");
    forall p, mp | Find(t, p, mp) == Lookup(t, parts, "GET")
      ensures !IsMostSpecific(t, parts, "GET", p, mp)
    {
      WrongBranch(prefix, key, n, part, bad, rest, p, mp);
    }
  }

  /** p is no worse than any other entry that matches. */
  ghost predicate IsMostSpecific(t: Trie, parts: seq<string>, method_: string, p: seq<string>, mp: string) {
    forall q, mq {:trigger Find(t, q, mq)} ::
      Find(t, q, mq).Some? && Matches(q, parts) && MethodMatches(mq, method_) ==>
      NotWorse(p, mp, q, mq, method_)
  }

  lemma {:induction false} OnlyBad(prefix: seq<string>, t: Trie, p: seq<string>, mp: string, key: string, bad: string)
    requires key != bad && key in t.children && bad in t.children && t.children.Keys == {key, bad}
    requires t.results == map[]
    requires forall q, m :: Find(t.children[key], q, m).Some? ==> Find(t.children[key], q, m).value.data == 1
    requires Find(Chain(prefix, t), p, mp) == Some(LookupResult(2, false))
    ensures |p| > |prefix| && p[..|prefix|] == prefix && p[|prefix|] == bad
    decreases |prefix|
  {
    if prefix != [] {
      OnlyBad(prefix[1..], t, p[1..], mp, key, bad);
      assert p == [p[0]] + p[1..] && prefix == [prefix[0]] + prefix[1..];
    }
  }

  lemma {:induction false} NotBoth(p: seq<string>, q: seq<string>)
    requires Beats(p, q)
    ensures !Beats(q, p) && p != q
    decreases |p|
  {
    if p != [] && q != [] && p[0] == q[0] && p[0] != WILD_CARD_PATH_KEY {
      NotBoth(p[1..], q[1..]);
    }
  }

  /** Lookup on a list of parts returns the most specific match in every trie if and only if
      no part is `*` or `**`. */
  lemma {:induction false} PrecedenceNeedsPlainParts(parts: seq<string>)
    ensures Plain(parts) <==>
            forall t: Trie, method_ :: Shaped(t, false, false) && Lookup(t, parts, method_).Some? ==>
              exists p, mp :: Find(t, p, mp) == Lookup(t, parts, method_) && IsMostSpecific(t, parts, method_, p, mp)
  {
    if Plain(parts) {
      forall t: Trie, method_ | Shaped(t, false, false) && Lookup(t, parts, method_).Some?
        ensures exists p, mp :: Find(t, p, mp) == Lookup(t, parts, method_) && IsMostSpecific(t, parts, method_, p, mp)
      {
        var p, mp := LookupIsBest(t, parts, method_);
        assert Find(t, p, mp) == Lookup(t, parts, method_) && IsMostSpecific(t, parts, method_, p, mp);
      }
    } else {
      var i := FirstUnplain(parts);
      var t := UnplainPartsMislead(parts, i);
    }
  }

  lemma {:induction false} FirstUnplain(parts: seq<string>) returns (i: nat)
    requires !Plain(parts)
    ensures i < |parts| && Plain(parts[..i])
    ensures parts[i] == WILD_CARD_PATH_PART_KEY || parts[i] == WILD_CARD_PATH_KEY
  {
    i := 0;
    while parts[i] != WILD_CARD_PATH_PART_KEY && parts[i] != WILD_CARD_PATH_KEY
      invariant i < |parts| && Plain(parts[..i]) && !Plain(parts[i..])
      decreases |parts| - i
    {
      assert parts[..i + 1] == parts[..i] + [parts[i]];
      assert parts[i..] == [parts[i]] + parts[i + 1..];
      i := i + 1;
    }
  }
}
