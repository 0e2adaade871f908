/** The registrations and lookups of api_spec/src/path_matcher.h on values. */
module PathMatcherModel {
  import opened PathTrie
  import opened Wrappers
  import opened HttpTemplates
  import opened RequestPaths

  datatype MethodData = MethodData(method_: nat, variables: seq<VariableInfo>, bodyFieldPath: string)

  datatype Registration = Registration(httpMethod: string, template: string, bodyFieldPath: string, method_: nat)

  datatype Builder = Builder(root: Trie, customVerbs: set<string>, methods: seq<MethodData>)

  const EMPTY_BUILDER := Builder(EMPTY, {}, [])

  function DataOf(r: Registration, h: HttpTemplate): MethodData {
    MethodData(r.method_, h.variables, r.bodyFieldPath)
  }

  /** Says also whether the registration was accepted. */
  function Register(b: Builder, r: Registration): (Builder, bool) {
    match Parse(r.template)
    case None => (b, false)
    case Some(h) =>
      var path := PathOf(h.segments, h.verb);
      if path == [] then (b, false)
      else
        var (root, added) := Insert(b.root, path, r.httpMethod, |b.methods|, true);
        if !added then (b.(root := root), false)
        else (Builder(root,
                      if h.verb == "" then b.customVerbs else b.customVerbs + {h.verb},
                      b.methods + [DataOf(r, h)]),
              true)
  }

  function RegisterAll(rs: seq<Registration>): Builder {
    if rs == [] then EMPTY_BUILDER else Register(RegisterAll(rs[..|rs| - 1]), rs[|rs| - 1]).0
  }

  function LookupMethod(b: Builder, httpMethod: string, path: string): Option<MethodData> {
    var found := Lookup(b.root, RequestParts(path, b.customVerbs), httpMethod);
    if found.Some? && found.value.data < |b.methods| then Some(b.methods[found.value.data]) else None
  }

  // ----- what a history of registrations means

  /** r is a valid template that means path, and is registered for m. */
  predicate Means(r: Registration, path: seq<string>, m: string) {
    Parse(r.template).Some? && r.httpMethod == m
    && PathOf(Parse(r.template).value.segments, Parse(r.template).value.verb) == path
  }

  /** The earliest registration of this path and method. */
  function First(rs: seq<Registration>, path: seq<string>, m: string): (i: Option<nat>)
    ensures i.Some? ==> i.value < |rs| && Means(rs[i.value], path, m)
    ensures i.Some? ==> forall j :: 0 <= j < i.value ==> !Means(rs[j], path, m)
    ensures i.None? ==> forall j :: 0 <= j < |rs| ==> !Means(rs[j], path, m)
  {
    if rs == [] then None
    else
      var init := rs[..|rs| - 1];
      assert forall j :: 0 <= j < |init| ==> init[j] == rs[j];
      var earlier := First(init, path, m);
      if earlier.Some? then earlier else if Means(rs[|rs| - 1], path, m) then Some(|rs| - 1) else None
  }

  ghost predicate Repeated(rs: seq<Registration>, path: seq<string>, m: string) {
    exists i, j :: 0 <= i < j < |rs| && Means(rs[i], path, m) && Means(rs[j], path, m)
  }

  /** Behind a `**` in the segments the verb is no wildcard, except that it may be `*` if the `**`
      is the last segment. */
  predicate SoundVerb(r: Registration) {
    var h := Parse(r.template);
    h.Some? && WILD_CARD_PATH_KEY in h.value.segments ==>
      && h.value.verb != WILD_CARD_PATH_KEY
      && (h.value.verb == WILD_CARD_PATH_PART_KEY ==>
            h.value.segments[|h.value.segments| - 1] == WILD_CARD_PATH_KEY)
  }

  predicate SoundVerbs(rs: seq<Registration>) {
    forall i :: 0 <= i < |rs| ==> SoundVerb(rs[i])
  }

  /** What one registration does to the entry of a path and method, and to the data it names. */
  lemma {:induction false} RegisterThenFind(b: Builder, r: Registration, path: seq<string>, m: string)
    ensures var b', before, after := Register(b, r).0, Find(b.root, path, m), Find(Register(b, r).0.root, path, m);
            && b.methods <= b'.methods
            && (!Means(r, path, m) ==> after == before)
            && (Means(r, path, m) && before.Some? ==> after == Some(before.value.(isMultiple := true)))
            && (Means(r, path, m) && before.None? ==>
                  && after == Some(LookupResult(|b.methods|, false)) && |b.methods| < |b'.methods|
                  && b'.methods[|b.methods|] == DataOf(r, Parse(r.template).value))
  {
    hide Parse, Insert, Find;
    var h := Parse(r.template);
    if h.Some? {
      NotEmptyPath(r.template);
      InsertThenFind(b.root, PathOf(h.value.segments, h.value.verb), r.httpMethod, |b.methods|, true, path, m);
    }
  }

  /** Exactly the registered paths are stored, each with the data of its first registration. */
  lemma {:induction false} FirstRegistrationStays(rs: seq<Registration>, path: seq<string>, m: string)
    ensures var b, i := RegisterAll(rs), First(rs, path, m);
            var entry := Find(b.root, path, m);
            && (i.None? ==> entry.None?)
            && (i.Some? ==>
                  && entry.Some? && entry.value.data < |b.methods|
                  && b.methods[entry.value.data] == DataOf(rs[i.value], Parse(rs[i.value].template).value)
                  && (entry.value.isMultiple <==> Repeated(rs, path, m)))
    decreases |rs|
  {
    hide Parse, Register, Means, DataOf, Repeated;
    if rs == [] {
      assert Find(EMPTY, path, m) == None;
    } else {
      var init, last := rs[..|rs| - 1], rs[|rs| - 1];
      FirstRegistrationStays(init, path, m);
      assert rs == init + [last];
      NeverTwice(init, path, m);
      RepeatedLast(init, last, path, m);
      RegisterThenFind(RegisterAll(init), last, path, m);
    }
  }

  lemma {:induction false} NeverTwice(rs: seq<Registration>, path: seq<string>, m: string)
    ensures First(rs, path, m).None? ==> !Repeated(rs, path, m)
  {
    hide Means;
  }

  lemma {:induction false} RepeatedLast(init: seq<Registration>, last: Registration, path: seq<string>, m: string)
    ensures Repeated(init + [last], path, m) <==>
            Repeated(init, path, m) || (First(init, path, m).Some? && Means(last, path, m))
  {
    var rs := init + [last];
    if Repeated(rs, path, m) {
      var i, j :| 0 <= i < j < |rs| && Means(rs[i], path, m) && Means(rs[j], path, m);
      assert init[i] == rs[i];
      if j < |init| { assert init[j] == rs[j]; }
    }
    if Repeated(init, path, m) {
      var i, j :| 0 <= i < j < |init| && Means(init[i], path, m) && Means(init[j], path, m);
      assert init[i] == rs[i] && init[j] == rs[j];
    }
    var f := First(init, path, m);
    if f.Some? && Means(last, path, m) {
      assert rs[f.value] == init[f.value] && rs[|init|] == last;
    }
  }

  /** A verb leaves a path sound exactly if it is no wildcard behind a `**`, but for a `*` right behind it. */
  lemma {:induction false} VerbKeepsSoundIff(segments: seq<string>, verb: string)
    requires WellFormed(segments) && verb != SINGLE_PARAMETER_KEY
    ensures Sound(PathOf(segments, verb)) <==>
            (WILD_CARD_PATH_KEY in segments ==>
               && verb != WILD_CARD_PATH_KEY
               && (verb == WILD_CARD_PATH_PART_KEY ==> segments[|segments| - 1] == WILD_CARD_PATH_KEY))
    decreases |segments|
  {
    var path := PathOf(segments, verb);
    if segments == [] {
      assert verb != "" ==> path[1..] == [];
    } else {
      assert path[1..] == PathOf(segments[1..], verb);
      assert segments == [segments[0]] + segments[1..];
      if segments[0] != WILD_CARD_PATH_KEY {
        VerbKeepsSoundIff(segments[1..], verb);
      } else if segments[1..] == [] {
        assert verb != "" ==> path[1..] == [verb] && path[1..][1..] == [];
      } else {
        assert segments[1..][|segments| - 2] == segments[|segments| - 1];
        assert path[1..][1..] == PathOf(segments[2..], verb);
        assert AllLiteral(segments[1..]);
        assert forall i :: 0 <= i < |segments[2..]| ==> segments[2..][i] == segments[1..][i + 1];
        assert verb != "" ==> path[1..][1..][|segments| - 2] == verb;
      }
    }
  }

  /** A parsed verb is a word without slashes. */
  lemma ParsedVerb(s: string)
    requires Parse(s).Some?
    ensures var verb := Parse(s).value.verb; verb != SINGLE_PARAMETER_KEY
    ensures var verb := Parse(s).value.verb; Free(verb, '/') && Free(verb, ':')
  {
    PrintingUndoesParsing(s);
    var verb := Parse(s).value.verb;
    if verb != "" { assert Word(verb, LITERAL_STOPS); }
    assert SINGLE_PARAMETER_KEY[0] in LITERAL_STOPS;
  }

  lemma {:induction false} RegisteringKeepsShape(rs: seq<Registration>)
    requires SoundVerbs(rs)
    ensures Shaped(RegisterAll(rs).root, false, false)
    decreases |rs|
  {
    if rs != [] {
      var init, last := rs[..|rs| - 1], rs[|rs| - 1];
      assert SoundVerbs(init);
      RegisteringKeepsShape(init);
      var h := Parse(last.template);
      if h.Some? {
        ParsedVerb(last.template);
        assert SoundVerb(rs[|rs| - 1]);
        VerbKeepsSoundIff(h.value.segments, h.value.verb);
        InsertKeepsShape(RegisterAll(init).root, PathOf(h.value.segments, h.value.verb), last.httpMethod,
                         |RegisterAll(init).methods|, true, false, false);
      }
    }
  }

  /** The known verbs are those of the accepted registrations. */
  lemma {:induction false} VerbsOfAccepted(rs: seq<Registration>, verb: string)
    ensures verb in RegisterAll(rs).customVerbs <==>
            verb != "" && exists i :: 0 <= i < |rs| && Accepted(rs, i) && Parse(rs[i].template).value.verb == verb
    decreases |rs|
  {
    hide Register, Parse, First;
    if rs != [] {
      var init, last := rs[..|rs| - 1], rs[|rs| - 1];
      VerbsOfAccepted(init, verb);
      forall i | 0 <= i < |init| ensures Accepted(rs, i) <==> Accepted(init, i) {
        assert rs[..i] == init[..i];
      }
      assert rs[..|init|] == init;
      NewIsAccepted(init, last);
    }
  }

  lemma {:induction false} NewIsAccepted(rs: seq<Registration>, r: Registration)
    ensures var h := Parse(r.template);
            var (b, accepted) := Register(RegisterAll(rs), r);
            && (accepted <==>
                  h.Some? && First(rs, PathOf(h.value.segments, h.value.verb), r.httpMethod).None?)
            && b.customVerbs == RegisterAll(rs).customVerbs
                                + (if accepted && h.value.verb != "" then {h.value.verb} else {})
  {
    var h := Parse(r.template);
    if h.Some? {
      var path := PathOf(h.value.segments, h.value.verb);
      InsertThenFind(RegisterAll(rs).root, path, r.httpMethod, |RegisterAll(rs).methods|, true, path, r.httpMethod);
      FirstRegistrationStays(rs, path, r.httpMethod);
      NotEmptyPath(r.template);
    }
  }

  lemma NotEmptyPath(s: string)
    requires Parse(s).Some?
    ensures PathOf(Parse(s).value.segments, Parse(s).value.verb) != []
  {
    PrintingUndoesParsing(s);
  }

  /** A registration is accepted if its template is valid and nothing earlier means the same. */
  predicate Accepted(rs: seq<Registration>, i: nat)
    requires i < |rs|
  {
    var h := Parse(rs[i].template);
    h.Some? && First(rs[..i], PathOf(h.value.segments, h.value.verb), rs[i].httpMethod).None?
  }

  // ----- lookup after any registrations

  ghost predicate Fits(r: Registration, path: seq<string>, parts: seq<string>, httpMethod: string) {
    Means(r, path, r.httpMethod) && Matches(path, parts) && MethodMatches(r.httpMethod, httpMethod)
  }

  /** Registration i is the one that serves parts: it is the first of its path and method, and no
      other that fits is more specific if the parts are plain. */
  ghost predicate Serves(rs: seq<Registration>, i: nat, path: seq<string>, parts: seq<string>, httpMethod: string)
    requires i < |rs|
  {
    && Fits(rs[i], path, parts, httpMethod)
    && (forall j :: 0 <= j < i ==> !Means(rs[j], path, rs[i].httpMethod))
    && (Plain(parts) ==>
          forall j, q {:trigger Fits(rs[j], q, parts, httpMethod)} ::
            0 <= j < |rs| && Fits(rs[j], q, parts, httpMethod) ==>
            NotWorse(path, rs[i].httpMethod, q, rs[j].httpMethod, httpMethod))
  }

  /** Lookup takes r for what these parts ask for. */
  ghost predicate ReadAs(r: Registration, path: seq<string>, parts: seq<string>, httpMethod: string) {
    Means(r, path, r.httpMethod) && Reads(path, false, parts) && MethodMatches(r.httpMethod, httpMethod)
  }

  lemma {:induction false} RegisteringKeepsMarks(rs: seq<Registration>)
    ensures Marked(RegisterAll(rs).root, false)
    decreases |rs|
  {
    hide Parse;
    if rs != [] {
      var init, last := rs[..|rs| - 1], rs[|rs| - 1];
      RegisteringKeepsMarks(init);
      var h := Parse(last.template);
      if h.Some? {
        InsertKeepsMarks(RegisterAll(init).root, PathOf(h.value.segments, h.value.verb), last.httpMethod,
                         |RegisterAll(init).methods|, true, false);
      }
    }
  }

  /** After any registrations, whatever their verbs, lookup finds data if and only if it can read the path of
      some registration as the parts, and then the data of the first registration of such a path. */
  lemma {:induction false} LookupFindsTheRead(rs: seq<Registration>, parts: seq<string>, httpMethod: string)
    ensures var b := RegisterAll(rs);
            var found := Lookup(b.root, parts, httpMethod);
            && (found.Some? <==> exists j, q :: 0 <= j < |rs| && ReadAs(rs[j], q, parts, httpMethod))
            && (found.Some? ==>
                  && found.value.data < |b.methods|
                  && exists i, p :: 0 <= i < |rs| && ReadAs(rs[i], p, parts, httpMethod)
                       && (forall j :: 0 <= j < i ==> !Means(rs[j], p, rs[i].httpMethod))
                       && b.methods[found.value.data] == DataOf(rs[i], Parse(rs[i].template).value)
                       && (found.value.isMultiple <==> Repeated(rs, p, rs[i].httpMethod)))
  {
    hide Lookup, Find, RegisterAll, Reads;
    var b := RegisterAll(rs);
    RegisteringKeepsMarks(rs);
    var p, mp := LookupReads(b.root, false, parts, httpMethod);
    forall j, q | 0 <= j < |rs| && ReadAs(rs[j], q, parts, httpMethod) ensures Lookup(b.root, parts, httpMethod).Some? {
      FirstRegistrationStays(rs, q, rs[j].httpMethod);
      assert First(rs, q, rs[j].httpMethod).Some?;
      assert Find(b.root, q, rs[j].httpMethod).Some?;
    }
    if Lookup(b.root, parts, httpMethod).Some? {
      FirstRegistrationStays(rs, p, mp);
      var i := First(rs, p, mp).value;
      assert ReadAs(rs[i], p, parts, httpMethod);
    }
  }

  /** Every registration that fits is read. */
  lemma FitsIsRead(r: Registration, path: seq<string>, parts: seq<string>, httpMethod: string)
    requires Fits(r, path, parts, httpMethod)
    ensures ReadAs(r, path, parts, httpMethod)
  {
    hide Parse, Matches, Reads;
    MatchedIsRead(path, parts);
  }

  /** If some registration fits, lookup finds data.  If all verbs are sound, it finds none otherwise, and what
      it finds is the data of the first registration of the most specific path that fits. */
  lemma {:induction false} LookupServesTheBest(rs: seq<Registration>, parts: seq<string>, httpMethod: string)
    ensures var b := RegisterAll(rs);
            var found := Lookup(b.root, parts, httpMethod);
            && ((exists j, q :: 0 <= j < |rs| && Fits(rs[j], q, parts, httpMethod)) ==> found.Some?)
            && (found.Some? ==> found.value.data < |b.methods|)
            && (found.Some? && SoundVerbs(rs) ==>
                  exists i, p :: 0 <= i < |rs| && Serves(rs, i, p, parts, httpMethod)
                    && b.methods[found.value.data] == DataOf(rs[i], Parse(rs[i].template).value)
                    && (found.value.isMultiple <==> Repeated(rs, p, rs[i].httpMethod)))
  {
    hide Lookup, Find, RegisterAll, Matches, NotWorse, Reads;
    var b := RegisterAll(rs);
    LookupFindsTheRead(rs, parts, httpMethod);
    forall j, q | 0 <= j < |rs| && Fits(rs[j], q, parts, httpMethod) ensures Lookup(b.root, parts, httpMethod).Some? {
      FitsIsRead(rs[j], q, parts, httpMethod);
    }
    if Lookup(b.root, parts, httpMethod).Some? && SoundVerbs(rs) {
      TheBestServes(rs, parts, httpMethod);
    }
  }

  lemma {:induction false} TheBestServes(rs: seq<Registration>, parts: seq<string>, httpMethod: string)
    requires SoundVerbs(rs) && Lookup(RegisterAll(rs).root, parts, httpMethod).Some?
    ensures var b := RegisterAll(rs);
            var found := Lookup(b.root, parts, httpMethod).value;
            && found.data < |b.methods|
            && exists i, p :: 0 <= i < |rs| && Serves(rs, i, p, parts, httpMethod)
                 && b.methods[found.data] == DataOf(rs[i], Parse(rs[i].template).value)
                 && (found.isMultiple <==> Repeated(rs, p, rs[i].httpMethod))
  {
    hide Lookup, Find, RegisterAll, Matches, NotWorse;
    var b := RegisterAll(rs);
    RegisteringKeepsShape(rs);
    var p, mp := LookupIsBest(b.root, parts, httpMethod);
    forall j, q | 0 <= j < |rs| && Fits(rs[j], q, parts, httpMethod)
      ensures Plain(parts) ==> NotWorse(p, mp, q, rs[j].httpMethod, httpMethod)
    {
      FirstRegistrationStays(rs, q, rs[j].httpMethod);
      BestBeats(b.root, parts, httpMethod, p, mp, q, rs[j].httpMethod);
    }
    BestIsFound(b.root, parts, httpMethod, p, mp);
    FirstRegistrationStays(rs, p, mp);
    var i := First(rs, p, mp).value;
    assert Fits(rs[i], p, parts, httpMethod);
    assert Serves(rs, i, p, parts, httpMethod);
  }

  lemma {:induction false} BestIsFound(t: Trie, parts: seq<string>, m: string, p: seq<string>, mp: string)
    requires IsBest(t, parts, m, p, mp) && Lookup(t, parts, m).Some?
    ensures Find(t, p, mp) == Lookup(t, parts, m) && Matches(p, parts) && MethodMatches(mp, m)
  {
  }

  lemma {:induction false} BestBeats(t: Trie, parts: seq<string>, m: string, p: seq<string>, mp: string, q: seq<string>,
                                     mq: string)
    requires IsBest(t, parts, m, p, mp) && Find(t, q, mq).Some? && Matches(q, parts) && MethodMatches(mq, m)
    ensures Lookup(t, parts, m).Some? && (Plain(parts) ==> NotWorse(p, mp, q, mq, m))
  {
  }

  /** A request written for an accepted template is served: its parts fill the template's segments,
      its verb is the template's, and slashes and a query may follow.  Without a verb there may be no parts at
      all, and empty ones at the end do not count. */
  lemma {:induction false} RequestIsServed(rs: seq<Registration>, i: nat, parts: seq<string>, slashes: nat,
                                        query: string, httpMethod: string)
    requires i < |rs| && Accepted(rs, i) && MethodMatches(rs[i].httpMethod, httpMethod)
    requires AllFree(parts, '/') && AllFree(parts, '?') && IsQuery(query)
    requires var h := Parse(rs[i].template).value;
             if h.verb == "" then
               && Matches(h.segments, DropTrailingEmpty(parts))
               && (slashes > 0 || NoVerb(parts, RegisterAll(rs).customVerbs))
             else
               parts != [] && Matches(h.segments + [h.verb], parts + [h.verb]) && Free(h.verb, '?')
    ensures var h := Parse(rs[i].template).value;
            LookupMethod(RegisterAll(rs), httpMethod, Request(parts, h.verb, slashes, query)).Some?
  {
    hide Lookup, Find, RegisterAll, Matches, NotWorse, RequestParts, Request;
    var h := Parse(rs[i].template).value;
    VerbsOfAccepted(rs, h.verb);
    ParsedVerb(rs[i].template);
    RequestRoundTrip(parts, h.verb, slashes, query, RegisterAll(rs).customVerbs);
    var found := if h.verb == "" then DropTrailingEmpty(parts) else parts + [h.verb];
    LookupServesTheBest(rs, found, httpMethod);
    assert Fits(rs[i], PathOf(h.segments, h.verb), found, httpMethod);
  }

  /** After any registrations, what is found for a request is the method, the variables and the body of one of
      them, whose path is read as the request's parts. */
  lemma LookupMethodIsRegistered(rs: seq<Registration>, httpMethod: string, path: string)
      returns (i: nat, q: seq<string>)
    ensures var found := LookupMethod(RegisterAll(rs), httpMethod, path);
            found.Some? ==>
              && i < |rs| && ReadAs(rs[i], q, RequestParts(path, RegisterAll(rs).customVerbs), httpMethod)
              && found.value.method_ == rs[i].method_ && found.value.bodyFieldPath == rs[i].bodyFieldPath
              && found.value.variables == Parse(rs[i].template).value.variables
              && (forall j :: 0 <= j < i ==> !Means(rs[j], q, rs[i].httpMethod))
  {
    hide Lookup, RegisterAll, Parse, Reads;
    var b := RegisterAll(rs);
    var parts := RequestParts(path, b.customVerbs);
    LookupFindsTheRead(rs, parts, httpMethod);
    i, q := 0, [];
    var found := Lookup(b.root, parts, httpMethod);
    if found.Some? {
      i, q :| 0 <= i < |rs| && ReadAs(rs[i], q, parts, httpMethod)
              && (forall j :: 0 <= j < i ==> !Means(rs[j], q, rs[i].httpMethod))
              && b.methods[found.value.data] == DataOf(rs[i], Parse(rs[i].template).value);
    }
  }

  /** For a template by itself lookup finds exactly the requests that the template fits if and only
      if its verb is sound. */
  lemma SoundVerbIff(r: Registration)
    ensures SoundVerb(r) <==>
            forall parts, m :: Lookup(RegisterAll([r]).root, parts, m).Some? <==> exists q :: Fits(r, q, parts, m)
  {
    hide Lookup, RegisterAll, Matches, SoundVerb;
    if SoundVerb(r) {
      forall parts, m
        ensures Lookup(RegisterAll([r]).root, parts, m).Some? <==> exists q :: Fits(r, q, parts, m)
      {
        LookupServesTheBest([r], parts, m);
        assert forall q :: Fits([r][0], q, parts, m) <==> Fits(r, q, parts, m);
      }
    } else {
      var parts := UnsoundVerbMisleads(r);
      assert !(Lookup(RegisterAll([r]).root, parts, r.httpMethod).Some? <==>
               exists q :: Fits(r, q, parts, r.httpMethod));
    }
  }

  lemma {:induction false} UnsoundVerbMisleads(r: Registration) returns (parts: seq<string>)
    requires !SoundVerb(r)
    ensures Lookup(RegisterAll([r]).root, parts, r.httpMethod).Some?
    ensures forall q :: !Fits(r, q, parts, r.httpMethod)
  {
    hide Parse, Lookup, Matches, RegisterAll, Reads, Sound;
    var h := Parse(r.template).value;
    ParsedIsWellFormed(r.template);
    ParsedVerb(r.template);
    VerbKeepsSoundIff(h.segments, h.verb);
    parts := UnsoundIsMisread(PathOf(h.segments, h.verb));
    LookupFindsTheRead([r], parts, r.httpMethod);
    assert ReadAs([r][0], PathOf(h.segments, h.verb), parts, r.httpMethod);
  }

  lemma ParsedIsWellFormed(s: string)
    requires Parse(s).Some?
    ensures WellFormed(Parse(s).value.segments)
  {
  }
}
