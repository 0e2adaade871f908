/** How api_spec/src/path_matcher.h turns a request path into the parts that are looked up. */
module RequestPaths {

  // ----- finding and splitting

  /** The first position of c, |s| if there is none. */
  function FindFirst(s: string, c: char): (n: nat)
    ensures n <= |s| && (forall i :: 0 <= i < n ==> s[i] != c) && (n < |s| ==> s[n] == c)
  {
    if s == "" || s[0] == c then 0 else 1 + FindFirst(s[1..], c)
  }

  /** The last position of c, -1 if there is none. */
  function FindLast(s: string, c: char): (n: int)
    ensures -1 <= n < |s| && (forall i :: n < i < |s| ==> s[i] != c) && (n >= 0 ==> s[n] == c)
  {
    if s == "" then -1 else if s[|s| - 1] == c then |s| - 1 else FindLast(s[..|s| - 1], c)
  }

  /** The items that delim ends or the end of s ends; the end of s ends no empty item. */
  function Split(s: string, delim: char): seq<string>
    decreases |s|
  {
    if s == "" then []
    else
      var n := FindFirst(s, delim);
      [s[..n]] + (if n < |s| then Split(s[n + 1..], delim) else [])
  }

  function DropTrailingEmpty(parts: seq<string>): seq<string> {
    if parts != [] && parts[|parts| - 1] == "" then DropTrailingEmpty(parts[..|parts| - 1]) else parts
  }

  /** The path up to the query, with the colon before a known verb made a slash. */
  function WithoutQuery(path: string, customVerbs: set<string>): string {
    var p := path[..FindFirst(path, '?')];
    var colon, slash := FindLast(p, ':'), FindLast(p, '/');
    if 0 <= slash < colon && p[colon + 1..] in customVerbs then p[colon := '/'] else p
  }

  function RequestParts(path: string, customVerbs: set<string>): seq<string> {
    var p := WithoutQuery(path, customVerbs);
    if p == "" then [] else DropTrailingEmpty(Split(p[1..], '/'))
  }

  // ----- as the source runs it

  method SplitInto(s: string, delim: char, elems: seq<string>) returns (r: seq<string>)
    ensures r == elems + Split(s, delim)
  {
    hide Split;
    r := elems;
    var at := 0;
    while at < |s|
      invariant at <= |s| && r + Split(s[at..], delim) == elems + Split(s, delim)
    {
      var end := at;
      while end < |s| && s[end] != delim
        invariant at <= end <= |s| && forall i :: at <= i < end ==> s[i] != delim
      {
        end := end + 1;
      }
      SplitUnfolds(s, at, end, delim);
      assert r + ([s[at..end]] + Split(s[if end < |s| then end + 1 else end..], delim)) ==
             r + [s[at..end]] + Split(s[if end < |s| then end + 1 else end..], delim);
      r := r + [s[at..end]];
      at := if end < |s| then end + 1 else end;
    }
    SplitEmpty(s[at..], delim);
  }

  lemma {:induction false} SplitEmpty(s: string, delim: char)
    requires s == ""
    ensures Split(s, delim) == []
  {
  }

  lemma {:induction false} SplitUnfolds(s: string, at: nat, end: nat, delim: char)
    requires at <= end <= |s| && at < |s|
    requires (forall i :: at <= i < end ==> s[i] != delim) && (end < |s| ==> s[end] == delim)
    ensures Split(s[at..], delim) == [s[at..end]] + Split(s[if end < |s| then end + 1 else end..], delim)
  {
    FirstAt(s[at..], delim, end - at);
    assert s[at..][..end - at] == s[at..end];
    if end < |s| {
      assert s[at..][end - at + 1..] == s[end + 1..];
    } else {
      assert s[end..] == "";
    }
  }

  method ExtractRequestParts(path: string, customVerbs: set<string>) returns (result: seq<string>)
    ensures result == RequestParts(path, customVerbs)
  {
    hide FindFirst, FindLast, Split, DropTrailingEmpty;
    var p := path[..FindFirst(path, '?')];
    var colon, slash := FindLast(p, ':'), FindLast(p, '/');
    // no slash is the greatest position, not the least
    if colon >= 0 && slash >= 0 && colon > slash {
      var verb := p[colon + 1..];
      if verb in customVerbs { p := p[colon := '/']; }
    }
    assert p == WithoutQuery(path, customVerbs);
    result := [];
    if |p| > 0 {
      result := SplitInto(p[1..], '/', result);
      assert [] + Split(p[1..], '/') == Split(p[1..], '/');
    }
    ghost var all := result;
    DropSteps(result);
    while result != [] && result[|result| - 1] == ""
      invariant DropTrailingEmpty(all) == DropTrailingEmpty(result)
      decreases |result|
    {
      DropSteps(result);
      result := result[..|result| - 1];
    }
    DropSteps(result);
  }

  lemma {:induction false} DropSteps(parts: seq<string>)
    ensures if parts != [] && parts[|parts| - 1] == ""
            then DropTrailingEmpty(parts) == DropTrailingEmpty(parts[..|parts| - 1])
            else DropTrailingEmpty(parts) == parts
  {
  }

  // ----- what the parts mean

  /** Each part after a slash. */
  function Joined(parts: seq<string>): string {
    if parts == [] then "" else "/" + parts[0] + Joined(parts[1..])
  }

  predicate Free(s: string, c: char) {
    forall i :: 0 <= i < |s| ==> s[i] != c
  }

  predicate AllFree(parts: seq<string>, c: char) {
    forall i :: 0 <= i < |parts| ==> Free(parts[i], c)
  }

  function Slashes(n: nat): string { seq(n, _ => '/') }

  lemma {:induction false} FirstAt(s: string, c: char, n: nat)
    requires n <= |s| && (forall i :: 0 <= i < n ==> s[i] != c) && (n < |s| ==> s[n] == c)
    ensures FindFirst(s, c) == n
  {
  }

  lemma {:induction false} LastAt(s: string, c: char, n: int)
    requires -1 <= n < |s| && (forall i :: n < i < |s| ==> s[i] != c) && (n >= 0 ==> s[n] == c)
    ensures FindLast(s, c) == n
  {
  }

  lemma {:induction false} SplitJoined(part: string, rest: string, delim: char)
    requires Free(part, delim)
    ensures Split(part + [delim] + rest, delim) == [part] + Split(rest, delim)
  {
    var s := part + [delim] + rest;
    FirstAt(s, delim, |part|);
    assert s[..|part|] == part && s[|part| + 1..] == rest;
  }

  lemma {:induction false} DropCons(part: string, parts: seq<string>)
    ensures var rest := DropTrailingEmpty(parts);
            DropTrailingEmpty([part] + parts) == if rest == [] then DropTrailingEmpty([part]) else [part] + rest
    decreases |parts|
  {
    if parts == [] {
      assert [part] + parts == [part];
    } else if parts[|parts| - 1] == "" {
      assert ([part] + parts)[..|parts|] == [part] + parts[..|parts| - 1];
      DropCons(part, parts[..|parts| - 1]);
    }
  }

  lemma {:induction false} SlashesAreDropped(n: nat)
    ensures DropTrailingEmpty(Split(Slashes(n), '/')) == []
  {
    if n > 0 {
      assert Slashes(n) == "" + "/" + Slashes(n - 1);
      SplitJoined("", Slashes(n - 1), '/');
      SlashesAreDropped(n - 1);
      DropCons("", Split(Slashes(n - 1), '/'));
    }
  }

  lemma {:induction false} SplitWhole(part: string)
    requires Free(part, '/')
    ensures DropTrailingEmpty(Split(part, '/')) == DropTrailingEmpty([part])
  {
    FirstAt(part, '/', |part|);
    assert part[..|part|] == part;
    assert [part][..0] == [];
  }

  /** Joining and splitting give the same parts back, up to empty ones at the end. */
  lemma {:induction false} SplitUndoesJoin(parts: seq<string>, n: nat)
    requires parts != [] && AllFree(parts, '/')
    ensures DropTrailingEmpty(Split((Joined(parts) + Slashes(n))[1..], '/')) == DropTrailingEmpty(parts)
    decreases |parts|
  {
    hide Split, DropTrailingEmpty, AllFree, Joined;
    var more := Joined(parts[1..]) + Slashes(n);
    JoinedStarts(parts, n);
    if more == "" {
      SplitWhole(parts[0]);
    } else {
      SplitJoined(parts[0], more[1..], '/');
      if |parts| == 1 {
        SlashesAreDropped(n - 1);
      } else {
        SplitUndoesJoin(parts[1..], n);
        DropCons(parts[0], parts[1..]);
        assert parts == [parts[0]] + parts[1..];
      }
      DropCons(parts[0], Split(more[1..], '/'));
    }
  }

  lemma {:induction false} JoinedStarts(parts: seq<string>, n: nat)
    requires parts != [] && AllFree(parts, '/')
    ensures Free(parts[0], '/') && AllFree(parts[1..], '/')
    ensures var more := Joined(parts[1..]) + Slashes(n);
            && (Joined(parts) + Slashes(n))[1..] == (if more == "" then parts[0] else parts[0] + "/" + more[1..])
            && (more == "" ==> parts == [parts[0]])
            && (|parts| == 1 ==> parts == [parts[0]] && (more != "" ==> n > 0 && more[1..] == Slashes(n - 1)))
  {
    hide Joined, Slashes;
    JoinedUnfolds(parts);
    JoinedIsEmptyIff(parts[1..]);
    SlashesUnfold(n);
    CutSlash(parts[0], Joined(parts[1..]), Slashes(n));
  }

  lemma {:induction false} JoinedUnfolds(parts: seq<string>)
    requires parts != []
    ensures Joined(parts) == "/" + parts[0] + Joined(parts[1..])
    ensures |parts| == 1 ==> parts == [parts[0]]
  {
  }

  lemma {:induction false} JoinedIsEmptyIff(parts: seq<string>)
    ensures Joined(parts) == "" <==> parts == []
    ensures Joined(parts) != "" ==> Joined(parts)[0] == '/'
  {
  }

  lemma SlashesUnfold(n: nat)
    ensures Slashes(n) == if n == 0 then "" else "/" + Slashes(n - 1)
  {
  }

  lemma CutSlash(part: string, rest: string, tail: string)
    requires rest != "" ==> rest[0] == '/'
    requires tail != "" ==> tail[0] == '/'
    ensures var more := rest + tail;
            && ("/" + part + rest + tail)[1..] == (if more == "" then part else part + "/" + more[1..])
            && (more == "" <==> rest == "" && tail == "")
            && (rest == "" && tail != "" ==> more[1..] == tail[1..])
  {
    var more := rest + tail;
    assert ("/" + part + rest + tail)[1..] == part + more;
    if more != "" {
      assert more[0] == '/';
      assert more == "/" + more[1..];
      assert part + more == part + "/" + more[1..];
    }
    if rest == "" { assert more == tail; }
  }

  /** A request for parts, with a verb or trailing slashes, and with a query. */
  function Request(parts: seq<string>, verb: string, slashes: nat, query: string): string {
    Joined(parts) + (if verb == "" then Slashes(slashes) else ":" + verb) + query
  }

  predicate IsQuery(query: string) {
    query == "" || query[0] == '?'
  }

  lemma {:induction false} JoinedIsFree(parts: seq<string>, c: char)
    requires c != '/' && AllFree(parts, c)
    ensures Free(Joined(parts), c)
  {
    if parts != [] { JoinedIsFree(parts[1..], c); }
  }

  lemma QueryIsCut(p: string, query: string, customVerbs: set<string>)
    requires Free(p, '?') && IsQuery(query)
    ensures WithoutQuery(p + query, customVerbs) == WithoutQuery(p, customVerbs)
  {
    FirstAt(p + query, '?', |p|);
    FirstAt(p, '?', |p|);
    assert (p + query)[..|p|] == p && p[..|p|] == p;
  }

  lemma {:induction false} JoinedConcat(parts: seq<string>, last: string)
    ensures Joined(parts + [last]) == Joined(parts) + "/" + last
  {
    if parts != [] {
      assert (parts + [last])[1..] == parts[1..] + [last];
      JoinedConcat(parts[1..], last);
    } else {
      assert parts + [last] == [last];
      assert Joined([last]) == "/" + last;
    }
  }

  /** Where the query, the last slash and the last colon are decides what becomes of a path. */
  lemma WithoutQueryOf(p: string, colon: nat, customVerbs: set<string>)
    requires Free(p, '?') && p != "" && p[0] == '/' && colon < |p| && p[colon] == ':'
    requires Free(p[colon + 1..], ':') && Free(p[colon + 1..], '/')
    ensures WithoutQuery(p, customVerbs) == if p[colon + 1..] in customVerbs then p[colon := '/'] else p
  {
    FirstAt(p, '?', |p|);
    assert p[..|p|] == p;
    assert forall i :: colon < i < |p| ==> p[i] == p[colon + 1..][i - colon - 1];
    LastAt(p, ':', colon);
    assert 0 <= FindLast(p, '/') < colon;
  }

  lemma ColonToSlash(j: string, verb: string, c: char)
    ensures var p := j + ":" + verb;
            p[|j|] == ':' && p[|j| + 1..] == verb && p[|j| := '/'] == j + "/" + verb
    ensures Free(j, c) && Free(verb, c) && c != ':' ==> Free(j + ":" + verb, c)
  {
    var p := j + ":" + verb;
    assert p[|j| + 1..] == verb;
    assert p[|j| := '/'] == j + "/" + verb;
  }

  lemma {:induction false} VerbBecomesPart(parts: seq<string>, verb: string, customVerbs: set<string>)
    requires parts != [] && AllFree(parts, '?') && Free(verb, '/') && Free(verb, ':') && Free(verb, '?')
    ensures var p := Joined(parts) + ":" + verb;
            WithoutQuery(p, customVerbs) == if verb in customVerbs then Joined(parts + [verb]) else p
  {
    hide WithoutQuery, AllFree, Joined, Free;
    JoinedIsFree(parts, '?');
    ColonToSlash(Joined(parts), verb, '?');
    JoinedIsRooted(parts);
    WithoutQueryOf(Joined(parts) + ":" + verb, |Joined(parts)|, customVerbs);
    JoinedConcat(parts, verb);
  }

  lemma {:induction false} JoinedIsRooted(parts: seq<string>)
    requires parts != []
    ensures Joined(parts) != "" && Joined(parts)[0] == '/'
  {
  }

  /** The text after the last colon of the last part is no known verb. */
  predicate NoVerb(parts: seq<string>, customVerbs: set<string>) {
    parts != [] ==>
      var last := parts[|parts| - 1];
      var colon := FindLast(last, ':');
      colon >= 0 ==> last[colon + 1..] !in customVerbs
  }

  lemma {:induction false} LastOfTwo(prefix: string, last: string, c: char)
    requires Free(last, c) ==> c != '/'
    ensures var k, n := FindLast(last, c), FindLast(prefix + "/" + last, c);
            if k >= 0 then n == |prefix| + 1 + k else n < |prefix|
    ensures Free(last, '/') ==> FindLast(prefix + "/" + last, '/') == |prefix|
  {
    var s, k := prefix + "/" + last, FindLast(last, c);
    assert s[|prefix| + 1..] == last;
    if k >= 0 {
      LastAt(s, c, |prefix| + 1 + k);
    } else {
      assert forall i :: |prefix| < i < |s| ==> s[i] == last[i - |prefix| - 1];
    }
    if Free(last, '/') { LastAt(s, '/', |prefix|); }
  }

  lemma {:induction false} NoVerbNoChange(parts: seq<string>, slashes: nat, customVerbs: set<string>)
    requires AllFree(parts, '?') && AllFree(parts, '/') && (slashes > 0 || NoVerb(parts, customVerbs))
    ensures var p := Joined(parts) + Slashes(slashes); WithoutQuery(p, customVerbs) == p
  {
    hide Joined, Split, WithoutQuery, FindFirst, FindLast, AllFree, NoVerb;
    var p := Joined(parts) + Slashes(slashes);
    JoinedIsFree(parts, '?');
    if slashes > 0 {
      SlashesNoChange(Joined(parts), slashes, customVerbs);
    } else if parts != [] {
      assert p == Joined(parts);
      LastNoChange(parts, customVerbs);
    } else {
      assert p == "" by { assert Joined([]) == "" by { NothingJoined(); } }
      EmptyNoChange(customVerbs);
    }
  }

  lemma NothingJoined()
    ensures Joined([]) == ""
  {
  }

  lemma EmptyNoChange(customVerbs: set<string>)
    ensures WithoutQuery("", customVerbs) == ""
  {
  }

  lemma SlashesNoChange(p: string, slashes: nat, customVerbs: set<string>)
    requires Free(p, '?') && slashes > 0
    ensures WithoutQuery(p + Slashes(slashes), customVerbs) == p + Slashes(slashes)
  {
    hide FindFirst, FindLast;
    var q := p + Slashes(slashes);
    FirstAt(q, '?', |q|);
    assert q[..|q|] == q;
    LastAt(q, '/', |q| - 1);
  }

  lemma {:induction false} LastNoChange(parts: seq<string>, customVerbs: set<string>)
    requires parts != [] && AllFree(parts, '/') && NoVerb(parts, customVerbs) && Free(Joined(parts), '?')
    ensures WithoutQuery(Joined(parts), customVerbs) == Joined(parts)
  {
    hide FindFirst, FindLast, Joined;
    var p, last := Joined(parts), parts[|parts| - 1];
    FirstAt(p, '?', |p|);
    assert p[..|p|] == p;
    var prefix := Joined(parts[..|parts| - 1]);
    assert parts[..|parts| - 1] + [last] == parts;
    JoinedConcat(parts[..|parts| - 1], last);
    LastOfTwo(prefix, last, ':');
    var colon := FindLast(last, ':');
    if colon >= 0 {
      assert p[|prefix| + 1 + colon + 1..] == last[colon + 1..];
    }
  }

  /** The first character of a path is taken for a slash, whatever it is. */
  lemma FirstCharacterIsDropped(c: char, rest: string)
    requires c != '?'
    ensures RequestParts([c] + rest, {}) == RequestParts("/" + rest, {})
  {
    hide FindFirst, FindLast, Split;
    var n := FindFirst(rest, '?');
    FirstAt([c] + rest, '?', n + 1);
    FirstAt("/" + rest, '?', n + 1);
    assert ([c] + rest)[..n + 1][1..] == rest[..n] && ("/" + rest)[..n + 1][1..] == rest[..n];
  }

  /** A request has the parts it was made from: the verb is one more part exactly if it is
      configured, extra slashes at the end do not count, and the query is ignored. */
  lemma {:induction false} RequestRoundTrip(parts: seq<string>, verb: string, slashes: nat, query: string,
                                        customVerbs: set<string>)
    requires AllFree(parts, '/') && AllFree(parts, '?') && IsQuery(query)
    requires if verb == "" then slashes > 0 || NoVerb(parts, customVerbs)
             else parts != [] && Free(verb, '/') && Free(verb, '?') && Free(verb, ':')
    ensures RequestParts(Request(parts, verb, slashes, query), customVerbs) ==
            if verb == "" then DropTrailingEmpty(parts)
            else if verb in customVerbs then parts + [verb]
            else WithLast(parts, ":" + verb)
  {
    hide Split, DropTrailingEmpty, WithoutQuery, RequestParts, Joined, NoVerb, WithLast, AllFree, Slashes;
    if verb == "" {
      var p := Joined(parts) + Slashes(slashes);
      SlashesAreFree(slashes);
      JoinedIsFree(parts, '?');
      QueryIsCut(p, query, customVerbs);
      NoVerbNoChange(parts, slashes, customVerbs);
      PartsOfJoined(p + query, parts, slashes, customVerbs);
    } else {
      VerbRoundTrip(parts, verb, query, customVerbs);
      assert Joined(parts) + (":" + verb) + query == Joined(parts) + ":" + verb + query;
    }
  }

  lemma SlashesAreFree(n: nat)
    ensures Free(Slashes(n), '?')
  {
  }

  lemma {:induction false} VerbRoundTrip(parts: seq<string>, verb: string, query: string, customVerbs: set<string>)
    requires parts != [] && AllFree(parts, '/') && AllFree(parts, '?') && IsQuery(query)
    requires verb != "" && Free(verb, '/') && Free(verb, '?') && Free(verb, ':')
    ensures RequestParts(Joined(parts) + ":" + verb + query, customVerbs) ==
            if verb in customVerbs then parts + [verb] else WithLast(parts, ":" + verb)
  {
    hide Split, DropTrailingEmpty, WithoutQuery, RequestParts, Joined, WithLast, Slashes;
    var p := Joined(parts) + ":" + verb;
    JoinedIsFree(parts, '?');
    QueryIsCut(p, query, customVerbs);
    VerbBecomesPart(parts, verb, customVerbs);
    var whole := if verb in customVerbs then parts + [verb] else WithLast(parts, ":" + verb);
    WithLastJoins(parts, ":" + verb);
    WithLastIsFree(parts, ":" + verb);
    assert Joined(parts) + ":" + verb == Joined(parts) + (":" + verb);
    SlashesUnfold(0);
    assert Joined(whole) + Slashes(0) == Joined(whole);
    PartsOfJoined(p + query, whole, 0, customVerbs);
    KeptWhole(whole);
  }

  lemma {:induction false} PartsOfJoined(path: string, parts: seq<string>, n: nat, customVerbs: set<string>)
    requires AllFree(parts, '/')
    requires WithoutQuery(path, customVerbs) == Joined(parts) + Slashes(n)
    ensures RequestParts(path, customVerbs) == DropTrailingEmpty(parts)
  {
    hide Split, WithoutQuery;
    if parts != [] {
      SplitUndoesJoin(parts, n);
    } else if n > 0 {
      assert (Joined(parts) + Slashes(n))[1..] == Slashes(n - 1);
      SlashesAreDropped(n - 1);
    }
  }

  function WithLast(parts: seq<string>, more: string): seq<string>
    requires parts != []
  {
    parts[..|parts| - 1] + [parts[|parts| - 1] + more]
  }

  lemma WithLastIsFree(parts: seq<string>, more: string)
    requires parts != [] && AllFree(parts, '/') && Free(more, '/') && more != ""
    ensures var whole := WithLast(parts, more);
            AllFree(whole, '/') && whole != [] && whole[|whole| - 1] != ""
  {
  }

  lemma {:induction false} WithLastJoins(parts: seq<string>, more: string)
    requires parts != []
    ensures Joined(WithLast(parts, more)) == Joined(parts) + more
  {
    var init, last := parts[..|parts| - 1], parts[|parts| - 1];
    assert init + [last] == parts;
    JoinedConcat(init, last);
    JoinedConcat(init, last + more);
    assert Joined(init) + "/" + (last + more) == Joined(init) + "/" + last + more;
  }

  lemma {:induction false} KeptWhole(parts: seq<string>)
    requires parts != [] && parts[|parts| - 1] != ""
    ensures DropTrailingEmpty(parts) == parts
  {
  }

  /** Every request gives parts without slashes, the last of them not empty. */
  lemma PartsAreClean(path: string, customVerbs: set<string>)
    ensures var r := RequestParts(path, customVerbs);
            AllFree(r, '/') && AllFree(r, '?') && (r != [] ==> r[|r| - 1] != "")
  {
    var p := WithoutQuery(path, customVerbs);
    assert Free(p, '?');
    if p != "" {
      assert Free(p[1..], '?');
      SplitIsFree(p[1..], '/', '/');
      SplitIsFree(p[1..], '/', '?');
      DropKeepsFree(Split(p[1..], '/'));
    }
  }

  lemma {:induction false} SplitIsFree(s: string, delim: char, c: char)
    requires Free(s, c) || c == delim
    ensures AllFree(Split(s, delim), c)
    decreases |s|
  {
    hide Split, Free, FindFirst;
    if s == "" {
      SplitEmpty(s, delim);
    } else {
      var n := SplitFirst(s, delim, c);
      if n < |s| { SplitIsFree(s[n + 1..], delim, c); }
    }
  }

  lemma SplitFirst(s: string, delim: char, c: char) returns (n: nat)
    requires s != "" && (Free(s, c) || c == delim)
    ensures n <= |s| && Free(s[..n], c) && (n < |s| ==> Free(s[n + 1..], c) || c == delim)
    ensures Split(s, delim) == [s[..n]] + (if n < |s| then Split(s[n + 1..], delim) else [])
  {
    hide FindFirst;
    n := FindFirst(s, delim);
    SplitAt(s, delim);
  }

  lemma {:induction false} SplitAt(s: string, delim: char)
    requires s != ""
    ensures var n := FindFirst(s, delim);
            Split(s, delim) == [s[..n]] + (if n < |s| then Split(s[n + 1..], delim) else [])
  {
    hide FindFirst;
  }

  lemma {:induction false} DropKeepsFree(parts: seq<string>)
    ensures var r := DropTrailingEmpty(parts); r <= parts && (r != [] ==> r[|r| - 1] != "")
    decreases |parts|
  {
    if parts != [] && parts[|parts| - 1] == "" { DropKeepsFree(parts[..|parts| - 1]); }
  }
}
