/** The sub-paths that the variables of a matched template are bound to, api_spec/src/path_matcher.h. */
module Bindings {
  import opened PathTrie
  import opened HttpTemplates
  import opened RequestPaths
  import opened UrlUnescaping

  datatype Binding = Binding(fieldPath: seq<string>, value: string)

  /** One past the last part that v is bound to. */
  function EndOf(v: VariableInfo, count: nat): int {
    if v.end >= 0 then v.end else count + v.end + 1
  }

  predicate InBounds(v: VariableInfo, count: nat) {
    0 <= v.start <= EndOf(v, count) <= count
  }

  function JoinUnescaped(parts: seq<string>, unescapeReserved: bool): string {
    if parts == [] then ""
    else Unescape(parts[0], unescapeReserved)
         + (if |parts| == 1 then "" else "/" + JoinUnescaped(parts[1..], unescapeReserved))
  }

  predicate IsMultipart(v: VariableInfo, count: nat) {
    EndOf(v, count) - v.start > 1 || v.end < 0
  }

  function Bind(v: VariableInfo, parts: seq<string>): Binding
    requires InBounds(v, |parts|)
  {
    Binding(v.fieldPath, JoinUnescaped(parts[v.start..EndOf(v, |parts|)], !IsMultipart(v, |parts|)))
  }

  lemma {:induction false} JoinCons(part: string, parts: seq<string>, flag: bool)
    ensures JoinUnescaped([part] + parts, flag) ==
            Unescape(part, flag) + if parts == [] then "" else "/" + JoinUnescaped(parts, flag)
    ensures JoinUnescaped([], flag) == ""
  {
    hide Unescape;
    assert ([part] + parts)[1..] == parts;
  }

  lemma {:induction false} JoinLast(parts: seq<string>, part: string, flag: bool)
    ensures JoinUnescaped(parts + [part], flag) ==
            if parts == [] then Unescape(part, flag) else JoinUnescaped(parts, flag) + "/" + Unescape(part, flag)
    decreases |parts|
  {
    hide Unescape, JoinUnescaped;
    if parts == [] {
      JoinCons(part, [], flag);
      assert parts + [part] == [part] + [];
    } else {
      JoinLast(parts[1..], part, flag);
      JoinCons(parts[0], parts[1..], flag);
      JoinCons(parts[0], parts[1..] + [part], flag);
      assert parts == [parts[0]] + parts[1..];
      assert parts + [part] == [parts[0]] + (parts[1..] + [part]);
    }
  }

  method ExtractBindingsFromPath(vars: seq<VariableInfo>, parts: seq<string>) returns (bindings: seq<Binding>)
    requires forall i :: 0 <= i < |vars| ==> InBounds(vars[i], |parts|)
    ensures |bindings| == |vars| && forall i :: 0 <= i < |vars| ==> bindings[i] == Bind(vars[i], parts)
  {
    hide Bind, JoinUnescaped, Unescape;
    bindings := [];
    for n := 0 to |vars|
      invariant |bindings| == n && forall i :: 0 <= i < n ==> bindings[i] == Bind(vars[i], parts)
    {
      var v := vars[n];
      var end := if v.end >= 0 then v.end else |parts| + v.end + 1;
      var isMultipart := end - v.start > 1 || v.end < 0;
      var value := BoundValue(parts, v.start, end, !isMultipart);
      BindIs(v, parts);
      bindings := bindings + [Binding(v.fieldPath, value)];
    }
  }

  lemma BindIs(v: VariableInfo, parts: seq<string>)
    requires InBounds(v, |parts|)
    ensures Bind(v, parts) ==
            Binding(v.fieldPath, JoinUnescaped(parts[v.start..EndOf(v, |parts|)], !IsMultipart(v, |parts|)))
  {
  }

  method BoundValue(parts: seq<string>, start: int, end: int, unescapeReserved: bool) returns (value: string)
    requires 0 <= start <= end <= |parts|
    ensures value == JoinUnescaped(parts[start..end], unescapeReserved)
  {
    value := "";
    for i := start to end
      invariant i < end ==> value == JoinUnescaped(parts[start..i], unescapeReserved) + (if i > start then "/" else "")
      invariant i == end ==> value == JoinUnescaped(parts[start..i], unescapeReserved)
    {
      var part := UrlUnescapeString(parts[i], unescapeReserved);
      JoinLast(parts[start..i], parts[i], unescapeReserved);
      assert parts[start..i + 1] == parts[start..i] + [parts[i]];
      value := value + part;
      if i < end - 1 {
        value := value + "/";
      }
    }
  }

  /** A value of several parts can be taken apart again at its slashes. */
  lemma {:induction false} MultipartSplits(parts: seq<string>)
    requires parts != [] && AllFree(parts, '/')
    ensures var un := seq(|parts|, i requires 0 <= i < |parts| => Unescape(parts[i], false));
            DropTrailingEmpty(Split(JoinUnescaped(parts, false), '/')) == DropTrailingEmpty(un)
  {
    var un := seq(|parts|, i requires 0 <= i < |parts| => Unescape(parts[i], false));
    forall i | 0 <= i < |un| ensures Free(un[i], '/') { NoNewReserved(parts[i], '/'); }
    SplitUndoesJoin(un, 0);
    JoinIsJoined(parts, un);
    assert Joined(un) + Slashes(0) == Joined(un);
    assert Joined(un)[1..] == JoinUnescaped(parts, false);
  }

  lemma {:induction false} JoinIsJoined(parts: seq<string>, un: seq<string>)
    requires parts != [] && |un| == |parts| && forall i :: 0 <= i < |parts| ==> un[i] == Unescape(parts[i], false)
    ensures Joined(un) == "/" + JoinUnescaped(parts, false)
    decreases |parts|
  {
    if |parts| > 1 {
      JoinIsJoined(parts[1..], un[1..]);
      assert Joined(un) == "/" + un[0] + ("/" + JoinUnescaped(parts[1..], false));
    } else {
      assert un[1..] == [];
    }
  }

  // ----- which parts a variable should be bound to

  /** A `**` takes any run of parts, any other segment one part that it matches. */
  predicate Takes(segment: string, parts: seq<string>, from: nat, to: nat) {
    && from <= to <= |parts|
    && (segment != WILD_CARD_PATH_KEY ==> to == from + 1 && SegmentMatches(segment, parts[from]))
  }

  /** cut divides the parts among the segments of path: segment k gets parts[cut[k]..cut[k + 1]]. */
  ghost predicate Divides(path: seq<string>, parts: seq<string>, cut: seq<nat>) {
    && |cut| == |path| + 1 && cut[0] == 0 && cut[|path|] == |parts|
    && forall k :: 0 <= k < |path| ==> Takes(path[k], parts, cut[k], cut[k + 1])
  }

  lemma {:induction false} CutBeforeWildcard(path: seq<string>, parts: seq<string>, cut: seq<nat>, k: nat)
    requires Divides(path, parts, cut) && k <= |path| && WILD_CARD_PATH_KEY !in path[..k]
    ensures cut[k] == k
  {
    if k > 0 {
      assert path[..k] == path[..k - 1] + [path[k - 1]];
      CutBeforeWildcard(path, parts, cut, k - 1);
    }
  }

  lemma {:induction false} CutAfterWildcard(path: seq<string>, parts: seq<string>, cut: seq<nat>, k: nat)
    requires Divides(path, parts, cut) && k <= |path| && WILD_CARD_PATH_KEY !in path[k..]
    ensures cut[k] == k + |parts| - |path|
    decreases |path| - k
  {
    if k < |path| {
      assert path[k..] == [path[k]] + path[k + 1..];
      CutAfterWildcard(path, parts, cut, k + 1);
    }
  }

  lemma {:induction false} OneWildcard(path: seq<string>, k: nat)
    requires Sound(path) && k <= |path| && WILD_CARD_PATH_KEY in path[..k]
    ensures WILD_CARD_PATH_KEY !in path[k..]
  {
    if path[0] == WILD_CARD_PATH_KEY {
      assert forall i :: k <= i < |path| ==> path[i] == path[1..][i - 1];
    } else {
      assert path[..k] == [path[0]] + path[1..][..k - 1];
      assert path[k..] == path[1..][k - 1..];
      OneWildcard(path[1..], k - 1);
    }
  }

  /** A sound path divides parts in at most one way, and only parts that it matches. */
  lemma {:induction false} DivisionIsUnique(path: seq<string>, parts: seq<string>, cut: seq<nat>, k: nat)
    requires Sound(path) && Divides(path, parts, cut) && k <= |path|
    ensures cut[k] == if WILD_CARD_PATH_KEY in path[..k] then k + |parts| - |path| else k
  {
    if WILD_CARD_PATH_KEY in path[..k] {
      OneWildcard(path, k);
      CutAfterWildcard(path, parts, cut, k);
    } else {
      CutBeforeWildcard(path, parts, cut, k);
    }
  }

  /** Whatever a path matches it divides. */
  lemma {:induction false} MatchesDivides(path: seq<string>, parts: seq<string>) returns (cut: seq<nat>)
    requires Sound(path) && Matches(path, parts)
    ensures Divides(path, parts, cut)
    decreases |path|
  {
    if path == [] {
      cut := [0];
    } else if path[0] == WILD_CARD_PATH_KEY {
      cut := [0] + seq(|path|, i => i + |parts| - (|path| - 1));
      forall k | 0 <= k < |path| ensures Takes(path[k], parts, cut[k], cut[k + 1]) {
        if k > 0 {
          assert path[k] == path[1..][k - 1] && parts[cut[k]] == parts[|parts| - (|path| - 1)..][k - 1];
        }
      }
    } else {
      var more := MatchesDivides(path[1..], parts[1..]);
      cut := [0] + seq(|path|, i requires 0 <= i < |path| => more[i] + 1);
      forall k | 0 <= k < |path| ensures Takes(path[k], parts, cut[k], cut[k + 1]) {
        if k > 0 { assert Takes(path[1..][k - 1], parts[1..], more[k - 1], more[k]); }
      }
    }
  }

  /** A variable's range covers the keys of one variable of the template. */
  lemma {:induction false} RangeIsVariable(gs: seq<Segment>, at: nat, k: nat) returns (m: nat)
    requires k < |Ranges(gs, at)|
    ensures m < |gs| && gs[m].Variable?
    ensures var start := at + |Flat(gs[..m])|;
            Ranges(gs, at)[k] ==
            VariableInfo(start, start + |FlatSegment(gs[m])|, gs[m].fields, StarStar in gs[m].sub)
    decreases |gs|
  {
    var end := at + |FlatSegment(gs[0])|;
    if gs[0].Variable? && k == 0 {
      m := 0;
    } else {
      var n := RangeIsVariable(gs[1..], end, if gs[0].Variable? then k - 1 else k);
      m := n + 1;
      assert gs[..m] == [gs[0]] + gs[1..][..n];
      FlatConcat([gs[0]], gs[1..][..n]);
      FlatOne(gs[0]);
    }
  }

  lemma {:induction false} FlatSlice(gs: seq<Segment>, m: nat)
    requires m < |gs|
    ensures var start := |Flat(gs[..m])|;
            && start + |FlatSegment(gs[m])| <= |Flat(gs)|
            && Flat(gs)[start..start + |FlatSegment(gs[m])|] == FlatSegment(gs[m])
  {
    assert gs == gs[..m] + [gs[m]] + gs[m + 1..];
    FlatConcat(gs[..m] + [gs[m]], gs[m + 1..]);
    FlatConcat(gs[..m], [gs[m]]);
    FlatOne(gs[m]);
  }

  lemma {:induction false} WildcardInFlat(gs: seq<Segment>)
    requires SegmentsOk(gs, true) || gs == []
    ensures StarStar in gs <==> WILD_CARD_PATH_KEY in Flat(gs)
    decreases |gs|
  {
    if gs != [] {
      assert gs == [gs[0]] + gs[1..];
      WildcardInFlat(gs[1..]);
    }
  }

  /** The slice computed for a variable is the run of parts that its segments matched if and only if
      it contains the `**`, or no `**` comes before it, or the request has as many parts as the path. */
  lemma {:induction false} SliceIsTheRun(t: Template, parts: seq<string>, cut: seq<nat>, k: nat)
    requires TemplateOk(t) && Sound(PathOf(Flat(t.segments), t.verb))
    requires Matches(PathOf(Flat(t.segments), t.verb), parts)
    requires Divides(PathOf(Flat(t.segments), t.verb), parts, cut) && k < |Flatten(t).variables|
    ensures var v, range, path := Flatten(t).variables[k], Ranges(t.segments, 0)[k], PathOf(Flat(t.segments), t.verb);
            && InBounds(v, |parts|) && 0 <= range.start < range.end < |cut|
            && (v.start == cut[range.start] && EndOf(v, |parts|) == cut[range.end] <==>
                  v.hasWildcardPath || WILD_CARD_PATH_KEY !in path[..range.start] || |parts| == |path|)
  {
    hide Sound, Flat, Ranges, TemplateOk, Matches;
    var path := PathOf(Flat(t.segments), t.verb);
    var range := Ranges(t.segments, 0)[k];
    RangesAreOrdered(t.segments, 0, k);
    WildcardIsInside(t, k);
    WildcardsAround(path, range.start, range.end);
    DivisionIsUnique(path, parts, cut, range.start);
    DivisionIsUnique(path, parts, cut, range.end);
    CutsGrow(path, parts, cut, range.start, range.end);
    if WILD_CARD_PATH_KEY in path[..range.start] { LongEnough(path, parts, range.start); }
  }

  /** A `**` before constants takes at least one part. */
  lemma {:induction false} LongEnough(path: seq<string>, parts: seq<string>, k: nat)
    requires Sound(path) && Matches(path, parts) && k < |path| && WILD_CARD_PATH_KEY in path[..k]
    ensures |parts| >= |path|
    decreases |path|
  {
    if path[0] != WILD_CARD_PATH_KEY {
      assert path[..k] == [path[0]] + path[1..][..k - 1];
      LongEnough(path[1..], parts[1..], k - 1);
    }
  }

  lemma {:induction false} WildcardsAround(path: seq<string>, i: nat, j: nat)
    requires Sound(path) && i <= j <= |path|
    ensures WILD_CARD_PATH_KEY in path[..j] <==> WILD_CARD_PATH_KEY in path[..i] || WILD_CARD_PATH_KEY in path[i..j]
    ensures !(WILD_CARD_PATH_KEY in path[..i] && WILD_CARD_PATH_KEY in path[i..j])
  {
    assert path[..j] == path[..i] + path[i..j];
    if WILD_CARD_PATH_KEY in path[..i] {
      OneWildcard(path, i);
      assert path[i..] == path[i..j] + path[j..];
    }
  }

  lemma {:induction false} CutsGrow(path: seq<string>, parts: seq<string>, cut: seq<nat>, i: nat, j: nat)
    requires Divides(path, parts, cut) && i <= j <= |path|
    ensures cut[i] <= cut[j] <= |parts|
    decreases j - i
  {
    if i < j {
      CutsGrow(path, parts, cut, i, j - 1);
      assert Takes(path[j - 1], parts, cut[j - 1], cut[j]);
    } else if j < |path| {
      assert Takes(path[j], parts, cut[j], cut[j + 1]);
    }
  }

  lemma WildcardIsInside(t: Template, k: nat)
    requires TemplateOk(t) && k < |Ranges(t.segments, 0)|
    ensures var range, path := Ranges(t.segments, 0)[k], PathOf(Flat(t.segments), t.verb);
            && 0 <= range.start <= range.end <= |path|
            && (range.hasWildcardPath <==> WILD_CARD_PATH_KEY in path[range.start..range.end])
  {
    RangesAreOrdered(t.segments, 0, k);
    var m := RangeIsVariable(t.segments, 0, k);
    FlatSlice(t.segments, m);
    var g := t.segments[m];
    assert SegmentOk(g, false);
    WildcardInFlat(g.sub);
    var range := Ranges(t.segments, 0)[k];
    assert PathOf(Flat(t.segments), t.verb)[range.start..range.end] == FlatSegment(g);
  }

  /** For any request that lookup takes the path for, every variable can be extracted. */
  lemma {:induction false} ReadIsInBounds(t: Template, parts: seq<string>, k: nat)
    requires TemplateOk(t) && k < |Flatten(t).variables|
    requires Reads(PathOf(Flat(t.segments), t.verb), false, parts)
    ensures InBounds(Flatten(t).variables[k], |parts|)
  {
    hide Flat, Ranges, TemplateOk, Reads;
    var path, range := PathOf(Flat(t.segments), t.verb), Ranges(t.segments, 0)[k];
    ReadIsShort(path, false, parts);
    RangesAreOrdered(t.segments, 0, k);
    WildcardIsInside(t, k);
    if range.end == |path| { assert path[|path| - 1] == path[range.start..range.end][range.end - range.start - 1]; }
  }

  /** b binds the k-th variable of t to the run of parts that its segments took, unescaped and joined,
      under exactly the condition of SliceIsTheRun.  Reserved characters are decoded in a single segment only. */
  ghost predicate BindsRun(t: Template, parts: seq<string>, cut: seq<nat>, k: nat, b: Binding)
    requires k < |Flatten(t).variables| && |cut| == |PathOf(Flat(t.segments), t.verb)| + 1
  {
    var v, range, path := Flatten(t).variables[k], Ranges(t.segments, 0)[k], PathOf(Flat(t.segments), t.verb);
    && 0 <= range.start < range.end < |cut| && cut[range.start] <= cut[range.end] <= |parts|
    && InBounds(v, |parts|) && b == Bind(v, parts) && b.fieldPath == range.fieldPath
    && var isRun := v.hasWildcardPath || WILD_CARD_PATH_KEY !in path[..range.start] || |parts| == |path|;
       && (isRun <==> v.start == cut[range.start] && EndOf(v, |parts|) == cut[range.end])
       && var single := range.end == range.start + 1 && !range.hasWildcardPath;
       && (isRun ==> b.value == JoinUnescaped(parts[cut[range.start]..cut[range.end]], single))
  }

  /** A variable may take several parts unless it is one segment that is no `**`. */
  lemma MultipartIff(t: Template, k: nat, count: nat)
    requires k < |Flatten(t).variables|
    ensures var range := Ranges(t.segments, 0)[k];
            IsMultipart(Flatten(t).variables[k], count) <==> range.end > range.start + 1 || range.hasWildcardPath
  {
    hide Ranges, Flat;
    RangesAreOrdered(t.segments, 0, k);
  }

  lemma {:induction false} BindingIsRun(t: Template, parts: seq<string>, cut: seq<nat>, k: nat)
    requires TemplateOk(t) && Sound(PathOf(Flat(t.segments), t.verb))
    requires Matches(PathOf(Flat(t.segments), t.verb), parts)
    requires Divides(PathOf(Flat(t.segments), t.verb), parts, cut) && k < |Flatten(t).variables|
    ensures InBounds(Flatten(t).variables[k], |parts|)
    ensures BindsRun(t, parts, cut, k, Bind(Flatten(t).variables[k], parts))
  {
    hide Sound, Flat, Ranges, TemplateOk, Matches, JoinUnescaped;
    SliceIsTheRun(t, parts, cut, k);
    MultipartIff(t, k, |parts|);
    RangesAreOrdered(t.segments, 0, k);
    var range := Ranges(t.segments, 0)[k];
    CutsGrow(PathOf(Flat(t.segments), t.verb), parts, cut, range.start, range.end);
  }

  /** The bindings that a template with this text gives for parts that it matches. */
  ghost predicate BindRuns(template: string, parts: seq<string>, bindings: seq<Binding>) {
    exists t, cut ::
      && TemplateOk(t) && Print(t) == template
      && Divides(PathOf(Flat(t.segments), t.verb), parts, cut) && |cut| == |PathOf(Flat(t.segments), t.verb)| + 1
      && |bindings| == |Flatten(t).variables|
      && forall k :: 0 <= k < |bindings| ==> BindsRun(t, parts, cut, k, bindings[k])
  }

  lemma {:induction false} BoundToRuns(t: Template, parts: seq<string>, bindings: seq<Binding>)
    requires TemplateOk(t) && Sound(PathOf(Flat(t.segments), t.verb))
    requires Matches(PathOf(Flat(t.segments), t.verb), parts) && |bindings| == |Flatten(t).variables|
    requires forall k :: 0 <= k < |bindings| ==>
               && InBounds(Flatten(t).variables[k], |parts|)
               && bindings[k] == Bind(Flatten(t).variables[k], parts)
    ensures BindRuns(Print(t), parts, bindings)
  {
    hide Sound, Flat, Flatten, TemplateOk, Matches, BindsRun, Print, Divides, Bind;
    var cut := MatchesDivides(PathOf(Flat(t.segments), t.verb), parts);
    DivisionLength(PathOf(Flat(t.segments), t.verb), parts, cut);
    forall k | 0 <= k < |bindings| ensures BindsRun(t, parts, cut, k, bindings[k]) {
      BindingIsRun(t, parts, cut, k);
    }
  }

  lemma DivisionLength(path: seq<string>, parts: seq<string>, cut: seq<nat>)
    requires Divides(path, parts, cut)
    ensures |cut| == |path| + 1
  {
  }
}
