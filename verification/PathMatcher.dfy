/** The builder and the matcher of api_spec/src/path_matcher.h as objects over the path trie. */
module PathMatchers {
  import opened PathTrie
  import opened Wrappers
  import opened HttpTemplates
  import opened PathMatcherNodes
  import opened PathMatcherModel
  import opened Bindings
  import opened QueryParameters
  import HttpTemplateParsers
  import RequestPaths

  method TransformHttpTemplate(ht: HttpTemplate) returns (path: seq<string>)
    ensures path == PathOf(ht.segments, ht.verb)
  {
    path := [];
    for i := 0 to |ht.segments|
      invariant path == ht.segments[..i]
    {
      path := path + [ht.segments[i]];
    }
    if ht.verb != "" {
      path := path + [ht.verb];
    }
  }

  /** Building moves the root out; a builder without a root is not used any more. */
  class PathMatcherBuilder {
    var root: PathMatcherNode?
    var customVerbs: set<string>
    var methods: seq<MethodData>
    ghost var history: seq<Registration>

    ghost predicate Valid()
      reads this, root, if root != null then root.repr else {}
    {
      root != null && root.Valid() && Builder(root.tree, customVerbs, methods) == RegisterAll(history)
    }

    constructor ()
      ensures Valid() && fresh(root) && fresh(root.repr) && history == []
    {
      root := new PathMatcherNode();
      customVerbs, methods, history := {}, [], [];
    }

    /** false if the template is invalid, or means the same as an earlier one for the method. */
    method Register(httpMethod: string, template: string, bodyFieldPath: string, method_: nat) returns (ok: bool)
      requires Valid()
      modifies this, root.repr
      ensures Valid() && root == old(root) && fresh(root.repr - old(root.repr))
      ensures history == old(history) + [Registration(httpMethod, template, bodyFieldPath, method_)]
      ensures ok == Accepted(history, |history| - 1)
    {
      hide RegisterAll, Accepted, HttpTemplates.Parse, Insert, PathMatcherNode.Valid;
      ghost var r := Registration(httpMethod, template, bodyFieldPath, method_);
      ghost var before := history;
      RegisterLast(before, r);
      history := history + [r];
      var ht := HttpTemplateParsers.ParseHttpTemplate(template);
      if ht.None? { return false; }
      var path := TransformHttpTemplate(ht.value);
      if |path| == 0 { return false; }
      assert path[0..] == path;
      ok := root.InsertTemplate(path, 0, httpMethod, |methods|, true);
      if !ok { return; }
      methods := methods + [MethodData(method_, ht.value.variables, bodyFieldPath)];
      if ht.value.verb != "" {
        customVerbs := customVerbs + {ht.value.verb};
      }
    }

    method Build() returns (matcher: PathMatcher)
      requires Valid()
      modifies this
      ensures root == null && fresh(matcher) && matcher.root == old(root) && matcher.history == old(history)
      ensures matcher.Valid()
    {
      matcher := new PathMatcher(root, customVerbs, methods, history);
      root, customVerbs, methods := null, {}, [];
    }
  }

  lemma {:induction false} RegisterLast(rs: seq<Registration>, r: Registration)
    ensures RegisterAll(rs + [r]) == Register(RegisterAll(rs), r).0
    ensures Accepted(rs + [r], |rs|) == Register(RegisterAll(rs), r).1
  {
    assert (rs + [r])[..|rs|] == rs;
    NewIsAccepted(rs, r);
  }

  class PathMatcher {
    const root: PathMatcherNode
    const customVerbs: set<string>
    const methods: seq<MethodData>
    ghost const history: seq<Registration>

    ghost predicate Valid()
      reads root, root.repr
    {
      root.Valid() && Builder(root.tree, customVerbs, methods) == RegisterAll(history)
    }

    constructor (root: PathMatcherNode, customVerbs: set<string>, methods: seq<MethodData>,
                 ghost history: seq<Registration>)
      requires root.Valid() && Builder(root.tree, customVerbs, methods) == RegisterAll(history)
      ensures Valid() && this.root == root && this.history == history
    {
      this.root, this.customVerbs, this.methods, this.history := root, customVerbs, methods, history;
    }

    /** The data registered for a request path, and the parts of the path. */
    method Find(httpMethod: string, path: string) returns (data: Option<MethodData>, parts: seq<string>)
      requires Valid()
      ensures data == LookupMethod(RegisterAll(history), httpMethod, path)
      ensures parts == RequestPaths.RequestParts(path, customVerbs)
    {
      parts := RequestPaths.ExtractRequestParts(path, customVerbs);
      assert parts[0..] == parts;
      var found := root.LookupPath(parts, 0, httpMethod);
      data := if found.Some? && found.value.data < |methods| then Some(methods[found.value.data]) else None;
    }

    method Lookup(httpMethod: string, path: string) returns (method_: Option<nat>)
      requires Valid()
      ensures var data := LookupMethod(RegisterAll(history), httpMethod, path);
              method_ == if data.Some? then Some(data.value.method_) else None
    {
      var data, parts := Find(httpMethod, path);
      return if data.Some? then Some(data.value.method_) else None;
    }

    /** Lookup that also binds the variables of the template to parts of the path, and then the
        parameters of the query; systemParams are the method's own, which are not bound. */
    method LookupBindings(httpMethod: string, path: string, queryParams: string, systemParams: nat -> set<string>)
        returns (method_: Option<nat>, bindings: seq<Binding>, bodyFieldPath: string)
      requires Valid()
      ensures var data := LookupMethod(RegisterAll(history), httpMethod, path);
              var parts := RequestPaths.RequestParts(path, customVerbs);
              if data.None? then method_ == None
              else
                && method_ == Some(data.value.method_) && bodyFieldPath == data.value.bodyFieldPath
                && exists bound ::
                     && bindings == bound + QueryBindings(RequestPaths.Split(queryParams, '&'),
                                                          systemParams(method_.value))
                     && Bound(data.value.variables, parts, bound)
                     && (SoundVerbs(history) ==> ServedByRuns(history, parts, httpMethod, method_.value, bound))
    {
      hide LookupMethod, Bind, InBounds, ServedByRuns, RequestPaths.Split, SoundVerbs;
      var data, parts := Find(httpMethod, path);
      if data.None? { return None, [], ""; }
      LookupIsFound(history, parts, httpMethod, path);
      FoundIsInBounds(history, parts, httpMethod);
      bindings := ExtractBindingsFromPath(data.value.variables, parts);
      if SoundVerbs(history) { FoundBindsRuns(history, parts, httpMethod, bindings); }
      assert Bound(data.value.variables, parts, bindings);
      bindings := ExtractBindingsFromQueryParameters(queryParams, systemParams(data.value.method_), bindings);
      return Some(data.value.method_), bindings, data.value.bodyFieldPath;
    }
  }

  /** Each variable is within bounds and bound to its slice. */
  ghost predicate Bound(variables: seq<VariableInfo>, parts: seq<string>, bindings: seq<Binding>) {
    && |bindings| == |variables|
    && forall k :: 0 <= k < |bindings| ==>
         InBounds(variables[k], |parts|) && bindings[k] == Bind(variables[k], parts)
  }

  /** The method is that of a registration that serves the parts, and each variable of its template
      is bound to what its segments took. */
  ghost predicate ServedByRuns(rs: seq<Registration>, parts: seq<string>, httpMethod: string, method_: nat,
                               bindings: seq<Binding>)
  {
    exists i, p ::
      && 0 <= i < |rs| && Serves(rs, i, p, parts, httpMethod) && rs[i].method_ == method_
      && BindRuns(rs[i].template, parts, bindings)
  }

  lemma {:induction false} LookupIsFound(rs: seq<Registration>, parts: seq<string>, httpMethod: string, path: string)
    requires LookupMethod(RegisterAll(rs), httpMethod, path).Some?
    requires parts == RequestPaths.RequestParts(path, RegisterAll(rs).customVerbs)
    ensures var b := RegisterAll(rs);
            var found := PathTrie.Lookup(b.root, parts, httpMethod);
            && found.Some? && found.value.data < |b.methods|
            && LookupMethod(b, httpMethod, path) == Some(b.methods[found.value.data])
  {
  }

  lemma {:induction false} FoundBindsRuns(rs: seq<Registration>, parts: seq<string>, httpMethod: string,
                                          bindings: seq<Binding>)
    requires SoundVerbs(rs) && PathTrie.Lookup(RegisterAll(rs).root, parts, httpMethod).Some?
    requires var b := RegisterAll(rs);
             var data := PathTrie.Lookup(b.root, parts, httpMethod).value.data;
             data < |b.methods| && Bound(b.methods[data].variables, parts, bindings)
    ensures var b := RegisterAll(rs);
            ServedByRuns(rs, parts, httpMethod,
                         b.methods[PathTrie.Lookup(b.root, parts, httpMethod).value.data].method_, bindings)
  {
    hide RegisterAll, Matches, Flatten, PathTrie.Lookup, Bind, InBounds, BindRuns;
    LookupServesTheBest(rs, parts, httpMethod);
    var b := RegisterAll(rs);
    var data := PathTrie.Lookup(b.root, parts, httpMethod).value.data;
    var i, p :| 0 <= i < |rs| && Serves(rs, i, p, parts, httpMethod)
                && b.methods[data] == DataOf(rs[i], Parse(rs[i].template).value);
    TemplateTree(rs[i], p);
    var t := ParseTemplate(rs[i].template).value;
    BoundToRuns(t, parts, bindings);
  }

  /** The tree of a registered template. */
  lemma {:induction false} TemplateTree(r: Registration, path: seq<string>)
    requires Parse(r.template).Some?
    requires path == PathOf(Parse(r.template).value.segments, Parse(r.template).value.verb)
    ensures ParseTemplate(r.template).Some?
    ensures var t := ParseTemplate(r.template).value;
            && TemplateOk(t) && Print(t) == r.template && Parse(r.template).value == Flatten(t)
            && path == PathOf(Flat(t.segments), t.verb) && (SoundVerb(r) <==> Sound(path))
  {
    PrintingUndoesParsing(r.template);
    ParsedVerb(r.template);
    var t := ParseTemplate(r.template).value;
    VerbKeepsSoundIff(Flat(t.segments), t.verb);
  }

  lemma {:induction false} ReadBindsInBounds(r: Registration, path: seq<string>, parts: seq<string>,
                                             httpMethod: string, k: nat)
    requires ReadAs(r, path, parts, httpMethod) && k < |Parse(r.template).value.variables|
    ensures InBounds(Parse(r.template).value.variables[k], |parts|)
  {
    hide Parse, ParseTemplate, Reads, Flatten, InBounds, TemplateOk, Print, SoundVerb, Sound;
    TemplateTree(r, path);
    ReadIsInBounds(ParseTemplate(r.template).value, parts, k);
  }

  /** After any registrations, the variables of whatever lookup finds lie within the request's parts. */
  lemma {:induction false} FoundIsInBounds(rs: seq<Registration>, parts: seq<string>, httpMethod: string)
    requires PathTrie.Lookup(RegisterAll(rs).root, parts, httpMethod).Some?
    ensures var b := RegisterAll(rs);
            var data := PathTrie.Lookup(b.root, parts, httpMethod).value.data;
            && data < |b.methods|
            && forall k :: 0 <= k < |b.methods[data].variables| ==> InBounds(b.methods[data].variables[k], |parts|)
  {
    hide RegisterAll, Reads, Flatten, PathTrie.Lookup, Parse, InBounds;
    LookupFindsTheRead(rs, parts, httpMethod);
    var b := RegisterAll(rs);
    var data := PathTrie.Lookup(b.root, parts, httpMethod).value.data;
    var i, p :| 0 <= i < |rs| && ReadAs(rs[i], p, parts, httpMethod)
                && b.methods[data] == DataOf(rs[i], Parse(rs[i].template).value);
    assert DataOf(rs[i], Parse(rs[i].template).value).variables == Parse(rs[i].template).value.variables;
    forall k | 0 <= k < |b.methods[data].variables| ensures InBounds(b.methods[data].variables[k], |parts|) {
      ReadBindsInBounds(rs[i], p, parts, httpMethod, k);
    }
  }
}
