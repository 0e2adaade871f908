/** The scanner and parser of api_spec/src/http_template.cc, with one character of lookahead and
    segments and variables collected on the way. */
module HttpTemplateParsers {
  import opened PathTrie
  import opened Wrappers
  import opened HttpTemplates

  /** The last variable, once the segments gs were parsed inside it. */
  function InLast(variables: seq<VariableInfo>, gs: seq<Segment>): seq<VariableInfo> {
    if variables == [] then []
    else
      var last := variables[|variables| - 1];
      variables[|variables| - 1 := last.(hasWildcardPath := last.hasWildcardPath || StarStar in gs)]
  }

  /** The variables after parsing the segments gs from position at. */
  function After(variables: seq<VariableInfo>, inVariable: bool, gs: seq<Segment>, at: nat): (after: seq<VariableInfo>)
    ensures |after| >= |variables|
  {
    if inVariable then InLast(variables, gs) else variables + Ranges(gs, at)
  }

  class Parser {
    const input: string
    var tb: nat
    var te: nat
    var inVariable: bool
    var segments: seq<string>
    var verb: string
    var variables: seq<VariableInfo>

    /** The token read but not yet consumed has at most one character. */
    ghost predicate Valid()
      reads this`tb, this`te
    {
      tb <= te <= tb + 1 && te <= |input|
    }

    function Rest(): string
      requires Valid()
      reads this`tb, this`te
    {
      input[tb..]
    }

    constructor (input: string)
      ensures Valid() && this.input == input && Rest() == input
      ensures !inVariable && segments == [] && verb == "" && variables == []
    {
      this.input := input;
      tb, te, inVariable := 0, 0, false;
      segments, verb, variables := [], "", [];
    }

    // ----- the scanner

    method NextChar() returns (ok: bool)
      requires Valid() && tb == te
      modifies this`te
      ensures Valid() && ok == (Rest() != "") && te == if ok then tb + 1 else tb
    {
      ok := te < |input|;
      if ok { te := te + 1; }
    }

    function CurrentChar(): (c: char)
      requires Valid() && tb < te
      reads this`tb, this`te
      ensures Rest() != "" && c == Rest()[0]
    {
      input[te - 1]
    }

    method EnsureCurrent() returns (ok: bool)
      requires Valid()
      modifies this`te
      ensures Valid() && ok == (Rest() != "") && (ok ==> te == tb + 1)
    {
      if tb < te { return true; }
      ok := NextChar();
    }

    method Consume(c: char) returns (ok: bool)
      requires Valid()
      modifies this`tb, this`te
      ensures Valid() && ok == StartsWith(old(Rest()), c)
      ensures Rest() == if ok then old(Rest())[1..] else old(Rest())
      ensures ok ==> tb == te && tb == old(tb) + 1
      ensures !ok ==> tb == old(tb)
    {
      if tb >= te {
        var next := NextChar();
        if !next { return false; }
      }
      if CurrentChar() != c { return false; }
      tb := tb + 1;
      return true;
    }

    predicate ConsumedAllInput()
      requires Valid()
      reads this`tb, this`te
      ensures ConsumedAllInput() <==> Rest() == ""
    {
      tb >= |input|
    }

    // ----- words

    method ParseLiteral() returns (ok: bool, lit: string)
      requires Valid()
      modifies this`tb, this`te
      ensures Valid() && ok == ParseWord(old(Rest()), LITERAL_STOPS).Done? && tb >= old(tb)
      ensures ok ==> ParseWord(old(Rest()), LITERAL_STOPS) == Done(lit, Rest())
    {
      hide ParseWord;
      lit := "";
      var current := EnsureCurrent();
      if !current { return false, lit; }
      ok := false;
      ghost var start := tb;
      while true
        invariant Valid() && tb < te && tb >= old(tb) && ok == (lit != "")
        invariant lit == input[start..tb] && forall i :: 0 <= i < |lit| ==> lit[i] !in LITERAL_STOPS
        decreases |input| - tb
      {
        var c := CurrentChar();
        if c == '/' || c == ':' || c == '}' {
          WordBeforeStop(input, start, tb, LITERAL_STOPS);
          return ok, lit;
        }
        var consumed := Consume(c);
        lit := lit + [c];
        ok := true;
        assert lit == input[start..tb];
        var more := NextChar();
        if !more { break; }
      }
      WordBeforeStop(input, start, tb, LITERAL_STOPS);
    }

    /** Adds the name to the current variable. */
    method ParseIdentifier() returns (ok: bool)
      requires Valid() && tb == te && inVariable && variables != []
      modifies this`tb, this`te, this`variables
      ensures Valid() && ok == ParseWord(old(Rest()), IDENTIFIER_STOPS).Done? && tb >= old(tb)
      ensures ok ==>
                var w := ParseWord(old(Rest()), IDENTIFIER_STOPS);
                w.rest == Rest() && variables == Named(old(variables), [w.value])
    {
      var idf := "";
      ok := false;
      ghost var start := tb;
      var more := NextChar();
      while more
        invariant Valid() && more == (Rest() != "") && (more ==> tb < te) && tb >= old(tb)
        invariant ok == (idf != "") && variables == old(variables)
        invariant idf == input[start..tb] && forall i :: 0 <= i < |idf| ==> idf[i] !in IDENTIFIER_STOPS
        decreases |input| - tb
      {
        var c := CurrentChar();
        if c == '.' || c == '}' || c == '=' {
          break;
        }
        var consumed := Consume(c);
        idf := idf + [c];
        ok := true;
        more := NextChar();
      }
      WordBeforeStop(input, start, tb, IDENTIFIER_STOPS);
      if ok { ok := AddFieldIdentifier(idf); }
    }

    // ----- the current variable

    method StartVariable() returns (ok: bool)
      modifies this`inVariable, this`variables
      ensures ok == !old(inVariable)
      ensures ok ==> inVariable && variables == old(variables) + [VariableInfo(|segments|, 0, [], false)]
    {
      if inVariable { return false; }
      variables := variables + [VariableInfo(|segments|, 0, [], false)];
      inVariable := true;
      return true;
    }

    method EndVariable() returns (ok: bool)
      requires inVariable && variables != []
      modifies this`inVariable, this`variables
      ensures !inVariable
      ensures variables == SetEnd(old(variables), |segments|)
      ensures ok == (var v := variables[|variables| - 1]; v.fieldPath != [] && v.start < v.end)
    {
      variables := SetEnd(variables, |segments|);
      inVariable := false;
      var v := variables[|variables| - 1];
      return v.fieldPath != [] && v.start < v.end && v.end <= |segments|;
    }

    method AddFieldIdentifier(id: string) returns (ok: bool)
      requires inVariable && variables != []
      modifies this`variables
      ensures ok && variables == Named(old(variables), [id])
    {
      variables := Named(variables, [id]);
      return true;
    }

    method MarkVariableHasWildCardPath() returns (ok: bool)
      requires inVariable && variables != []
      modifies this`variables
      ensures ok && variables == InLast(old(variables), [StarStar])
    {
      variables := InLast(variables, [StarStar]);
      return true;
    }

    // ----- the grammar

    method ParseFieldPath() returns (ok: bool)
      requires Valid() && tb == te && inVariable && variables != []
      modifies this`tb, this`te, this`variables
      ensures Valid() && ok == HttpTemplates.ParseFieldPath(old(Rest())).Done? && tb >= old(tb)
      ensures ok ==>
                var p := HttpTemplates.ParseFieldPath(old(Rest()));
                p.rest == Rest() && variables == Named(old(variables), p.value)
    {
      hide HttpTemplates.ParseFieldPath, ParseWord, Named, Prefixed;
      ghost var s, acc := Rest(), [];
      FieldPathUnfolds(s);
      ok := ParseIdentifier();
      if !ok { return; }
      acc := [ParseWord(s, IDENTIFIER_STOPS).value];
      var dot := Consume('.');
      while dot
        invariant Valid() && tb >= old(tb) && inVariable && variables == Named(old(variables), acc)
        invariant dot ==> tb == te
        invariant HttpTemplates.ParseFieldPath(s) ==
                  Prefixed(acc, if dot then HttpTemplates.ParseFieldPath(Rest()) else Done([], Rest()))
        decreases |input| - tb, dot
      {
        ghost var here := Rest();
        FieldPathUnfolds(here);
        FailsThrough(acc);
        ok := ParseIdentifier();
        if !ok { return; }
        ghost var id := [ParseWord(here, IDENTIFIER_STOPS).value];
        NamedTwice(old(variables), acc, id);
        PrefixedTwice(acc, id, MoreFields(Rest()));
        acc := acc + id;
        dot := Consume('.');
      }
      PrefixedLast(acc, Rest());
      ok := true;
    }

    method ParseLiteralSegment() returns (ok: bool)
      requires Valid()
      modifies this`tb, this`te, this`segments
      ensures Valid() && tb >= old(tb)
      ensures var p := ParseWord(old(Rest()), LITERAL_STOPS);
              ok == p.Done? && (ok ==> Rest() == p.rest && segments == old(segments) + [p.value])
    {
      var ls;
      ok, ls := ParseLiteral();
      if ok { segments := segments + [ls]; }
    }

    method ParseSegment() returns (ok: bool)
      requires Valid() && (inVariable ==> variables != [])
      modifies this`tb, this`te, this`inVariable, this`segments, this`variables
      ensures Valid() && tb >= old(tb)
      ensures var p := HttpTemplates.ParseSegment(old(Rest()), old(inVariable));
              && ok == p.Done?
              && (ok ==>
                    && Rest() == p.rest && inVariable == old(inVariable)
                    && segments == old(segments) + FlatSegment(p.value)
                    && variables == After(old(variables), inVariable, [p.value], |old(segments)|))
      decreases |input| - tb, 1
    {
      hide After, InLast;
      var current := EnsureCurrent();
      if !current { return false; }
      AfterPlain(variables, inVariable, |segments|);
      match CurrentChar()
      case '*' =>
        var first := Consume('*');
        var second := Consume('*');
        if second {
          segments := segments + ["**"];
          if inVariable {
            ok := MarkVariableHasWildCardPath();
            return;
          }
          return true;
        }
        segments := segments + ["*"];
        return true;
      case '{' =>
        ok := ParseVariable();
      case _ =>
        ok := ParseLiteralSegment();
    }

    method ParseVariable() returns (ok: bool)
      requires Valid() && StartsWith(Rest(), '{') && (inVariable ==> variables != [])
      modifies this`tb, this`te, this`inVariable, this`segments, this`variables
      ensures Valid() && tb >= old(tb)
      ensures var p := HttpTemplates.ParseSegment(old(Rest()), old(inVariable));
              && ok == p.Done?
              && (ok ==>
                    && Rest() == p.rest && inVariable == old(inVariable)
                    && segments == old(segments) + FlatSegment(p.value)
                    && variables == After(old(variables), inVariable, [p.value], |old(segments)|))
      decreases |input| - tb, 0
    {
      hide HttpTemplates.ParseFieldPath, HttpTemplates.ParseSegments, HttpTemplates.ParseSegment,
        HttpTemplates.ParseVariable, SubOf, Flat, FlatSegment, Named, InLast, SetEnd, After, Parser.Rest;
      VariableUnfolds(Rest());
      var brace := Consume('{');
      var started := StartVariable();
      if !started { return false; }
      ghost var afterBrace := Rest();
      VariableParses(afterBrace);
      ok := ParseFieldPath();
      if !ok { return; }
      ghost var fields := HttpTemplates.ParseFieldPath(afterBrace).value;
      ghost var sub;
      ok, sub := ParseSub();
      if !ok { return; }
      FinishedVariable(old(variables), |old(segments)|, fields, sub);
      ParsedFields(afterBrace);
      ok := EndVariable();
      ok := Consume('}');
    }

    /** The segments after an equals sign, or the `*` that stands for none. */
    method ParseSub() returns (ok: bool, ghost sub: seq<Segment>)
      requires Valid() && inVariable && variables != []
      modifies this`tb, this`te, this`inVariable, this`segments, this`variables
      ensures Valid() && tb >= old(tb)
      ensures var p := SubOf(old(Rest()));
              && ok == p.Done?
              && (ok ==>
                    && p == Done(sub, Rest()) && inVariable
                    && segments == old(segments) + (if sub == [] then ["*"] else Flat(sub))
                    && variables ==
                       if sub == [] then old(variables) else After(old(variables), true, sub, |old(segments)|))
      decreases |input| - tb, 3
    {
      hide HttpTemplates.ParseSegments, Flat, After;
      var equals := Consume('=');
      sub := [];
      if !equals {
        segments := segments + ["*"];
        return true, sub;
      }
      ghost var s := Rest();
      ok := ParseSegments();
      if ok { sub := HttpTemplates.ParseSegments(s, true).value; }
    }

    method ParseSegments() returns (ok: bool)
      requires Valid() && (inVariable ==> variables != [])
      modifies this`tb, this`te, this`inVariable, this`segments, this`variables
      ensures Valid() && tb >= old(tb)
      ensures var p := HttpTemplates.ParseSegments(old(Rest()), old(inVariable));
              && ok == p.Done?
              && (ok ==>
                    && Rest() == p.rest && inVariable == old(inVariable)
                    && p.value != [] && segments == old(segments) + Flat(p.value)
                    && variables == After(old(variables), inVariable, p.value, |old(segments)|))
      decreases |input| - tb, 2
    {
      hide HttpTemplates.ParseSegments, HttpTemplates.ParseSegment, HttpTemplates.MoreSegments;
      hide Flat, FlatSegment, After, Prefixed, Parser.Rest, StartsWith;
      ghost var s := Rest();
      SegmentsUnfold(s, inVariable);
      ok := ParseSegment();
      if !ok { return; }
      ghost var acc := [HttpTemplates.ParseSegment(s, inVariable).value];
      FlatOne(acc[0]);
      SegmentsGoOn(Rest(), inVariable);
      var slash := Consume('/');
      while slash
        invariant Valid() && tb >= old(tb) && inVariable == old(inVariable) && acc != []
        invariant slash ==> tb == te && tb > old(tb)
        invariant segments == old(segments) + Flat(acc)
        invariant variables == After(old(variables), inVariable, acc, |old(segments)|)
        invariant inVariable ==> variables != []
        invariant HttpTemplates.ParseSegments(s, inVariable) ==
                  Prefixed(acc, if slash then HttpTemplates.ParseSegments(Rest(), inVariable) else Done([], Rest()))
        decreases |input| - tb, slash
      {
        ghost var here := Rest();
        SegmentsUnfold(here, inVariable);
        FailsThrough(acc);
        ok := ParseSegment();
        if !ok { return; }
        ghost var g := [HttpTemplates.ParseSegment(here, inVariable).value];
        AfterTwice(old(variables), inVariable, acc, g, |old(segments)|);
        PrefixedTwice(acc, g, MoreSegments(Rest(), inVariable));
        SegmentsGoOn(Rest(), inVariable);
        acc := acc + g;
        slash := Consume('/');
      }
      PrefixedLast(acc, Rest());
      ok := true;
    }

    method ParseVerb() returns (ok: bool)
      requires Valid() && StartsWith(Rest(), ':') && verb == ""
      modifies this`tb, this`te, this`verb
      ensures Valid()
      ensures var p := ParseWord(old(Rest())[1..], LITERAL_STOPS);
              ok == p.Done? && (ok ==> Rest() == p.rest && verb == p.value)
    {
      var colon := Consume(':');
      ok, verb := ParseLiteral();
    }

    /** Up to the end of the template, which need not be the end of the text. */
    method ParseTemplate() returns (ok: bool)
      requires Valid() && !inVariable && segments == [] && verb == "" && variables == []
      modifies this`tb, this`te, this`inVariable, this`segments, this`verb, this`variables
      ensures Valid()
      ensures var t := HttpTemplates.ParseTemplate(old(Rest()));
              && (t.Some? <==> ok && Rest() == "")
              && (t.Some? ==>
                    && segments == Flat(t.value.segments) && verb == t.value.verb
                    && variables == Ranges(t.value.segments, 0))
    {
      hide HttpTemplates.ParseSegments, Flat, Ranges;
      var slash := Consume('/');
      if !slash { return false; }
      ok := ParseSegments();
      if !ok { return; }
      var current := EnsureCurrent();
      if current && CurrentChar() == ':' {
        ok := ParseVerb();
        if !ok { return; }
      }
      ok := true;
    }

    /** Whether no wildcard follows a `**`, itself a wildcard. */
    method ValidateParts() returns (ok: bool)
      ensures ok == WellFormed(segments)
      ensures ok <==> forall i, j :: 0 <= i < j < |segments| && segments[i] == WILD_CARD_PATH_KEY ==>
                        PathTrie.Literal(segments[j])
    {
      var foundWildCard := false;
      ok := true;
      for i := 0 to |segments|
        invariant foundWildCard <==> WILD_CARD_PATH_KEY in segments[..i]
        invariant forall k, j :: 0 <= k < j < i && segments[k] == WILD_CARD_PATH_KEY ==> PathTrie.Literal(segments[j])
      {
        if !foundWildCard {
          if segments[i] == WILD_CARD_PATH_KEY { foundWildCard := true; }
        } else if segments[i] == SINGLE_PARAMETER_KEY || segments[i] == WILD_CARD_PATH_PART_KEY
            || segments[i] == WILD_CARD_PATH_KEY {
          ok := false;
          WellFormedMeansConstantsLast(segments);
          return;
        }
      }
      WellFormedMeansConstantsLast(segments);
    }

    /** Ends of variables with a `**` become relative to the end of a request path. */
    method PostProcessVariables()
      modifies this`variables
      ensures |variables| == |old(variables)|
      ensures forall i :: 0 <= i < |variables| ==>
                variables[i] == FromTheEnd(old(variables)[i], |PathOf(segments, verb)|)
    {
      for i := 0 to |variables|
        invariant |variables| == |old(variables)|
        invariant forall j :: 0 <= j < i ==>
                    variables[j] == FromTheEnd(old(variables)[j], |PathOf(segments, verb)|)
        invariant forall j :: i <= j < |variables| ==> variables[j] == old(variables)[j]
      {
        var v := variables[i];
        if v.hasWildcardPath {
          v := v.(end := v.end - |segments| - 1);
          if verb != "" {
            v := v.(end := v.end - 1);
          }
          variables := variables[i := v];
        }
      }
    }

    method Parse() returns (ok: bool)
      requires Valid() && !inVariable && segments == [] && verb == "" && variables == []
      modifies this`tb, this`te, this`inVariable, this`segments, this`verb, this`variables
      ensures var t := HttpTemplates.ParseTemplate(old(Rest()));
              ok == t.Some? && (ok ==> HttpTemplate(segments, verb, variables) == Flatten(t.value))
    {
      ok := ParseTemplate();
      if !ok || !ConsumedAllInput() { return false; }
      PostProcessVariables();
      return true;
    }
  }

  /** Parses a template, which is rejected if a wildcard follows a `**`. */
  method ParseHttpTemplate(ht: string) returns (r: Option<HttpTemplate>)
    ensures r == HttpTemplates.Parse(ht)
  {
    var p := new Parser(ht);
    var ok := p.Parse();
    if !ok { return None; }
    ok := p.ValidateParts();
    return if ok then Some(HttpTemplate(p.segments, p.verb, p.variables)) else None;
  }

  /** The last variable, with names appended to its field path. */
  function Named(variables: seq<VariableInfo>, names: seq<string>): (named: seq<VariableInfo>)
    requires variables != []
    ensures |named| == |variables|
  {
    var last := variables[|variables| - 1];
    variables[|variables| - 1 := last.(fieldPath := last.fieldPath + names)]
  }

  function SetEnd(variables: seq<VariableInfo>, end: int): seq<VariableInfo>
    requires variables != []
  {
    variables[|variables| - 1 := variables[|variables| - 1].(end := end)]
  }

  lemma NamedTwice(variables: seq<VariableInfo>, a: seq<string>, b: seq<string>)
    requires variables != []
    ensures Named(Named(variables, a), b) == Named(variables, a + b)
  {
    var f := variables[|variables| - 1].fieldPath;
    assert f + a + b == f + (a + b);
  }

  lemma {:induction false} FieldPathUnfolds(s: string)
    ensures HttpTemplates.ParseFieldPath(s) ==
            match ParseWord(s, IDENTIFIER_STOPS)
            case Fail => Fail
            case Done(id, rest) => Prefixed([id], MoreFields(rest))
  {
  }

  lemma FailsThrough<T>(acc: seq<T>)
    ensures Prefixed(acc, Fail) == Fail
  {
  }

  lemma PrefixedLast<T>(acc: seq<T>, rest: string)
    ensures Prefixed(acc, Done([], rest)) == Done(acc, rest)
  {
    assert acc + [] == acc;
  }

  lemma PrefixedTwice<T>(a: seq<T>, b: seq<T>, more: Scan<seq<T>>)
    ensures Prefixed(a, Prefixed(b, more)) == Prefixed(a + b, more)
  {
    if more.Done? { assert a + (b + more.value) == a + b + more.value; }
  }

  lemma WordBeforeStop(input: string, start: nat, end: nat, stops: string)
    requires start <= end <= |input| && Stopped(input[end..], stops)
    requires forall i :: 0 <= i < end - start ==> input[start..end][i] !in stops
    ensures ParseWord(input[start..], stops) ==
            if start == end then Fail else Done(input[start..end], input[end..])
  {
    assert input[start..] == input[start..end] + input[end..];
    RunThenStop(input[start..end], stops, input[end..]);
  }

  lemma {:induction false} SegmentsGoOn(s: string, inVariable: bool)
    ensures MoreSegments(s, inVariable) ==
            if StartsWith(s, '/') then HttpTemplates.ParseSegments(s[1..], inVariable) else Done([], s)
  {
  }

  lemma {:induction false} SegmentsUnfold(s: string, inVariable: bool)
    ensures HttpTemplates.ParseSegments(s, inVariable) ==
            match HttpTemplates.ParseSegment(s, inVariable)
            case Fail => Fail
            case Done(g, rest) => Prefixed([g], MoreSegments(rest, inVariable))
  {
  }

  /** What parsing a single segment that is not a variable does to the variables. */
  lemma AfterPlain(variables: seq<VariableInfo>, inVariable: bool, at: nat)
    ensures forall g: Segment {:trigger After(variables, inVariable, [g], at)} :: !g.Variable? ==>
              After(variables, inVariable, [g], at) ==
              if inVariable && g.StarStar? then InLast(variables, [StarStar]) else variables
  {
    forall g: Segment | !g.Variable?
      ensures After(variables, inVariable, [g], at) ==
              if inVariable && g.StarStar? then InLast(variables, [StarStar]) else variables
    {
      assert [g][1..] == [];
      if inVariable {
        assert !g.StarStar? ==> InLast(variables, [g]) == variables;
      } else {
        assert Ranges([g], at) == [];
        assert variables + [] == variables;
      }
    }
  }

  lemma {:induction false} VariableUnfolds(s: string)
    requires StartsWith(s, '{')
    ensures HttpTemplates.ParseSegment(s, true) == Fail
    ensures HttpTemplates.ParseSegment(s, false) == HttpTemplates.ParseVariable(s[1..])
  {
  }

  /** The sub-template after a field path: nothing without an equals sign. */
  ghost function SubOf(s: string): Scan<seq<Segment>> {
    if StartsWith(s, '=') then HttpTemplates.ParseSegments(s[1..], true) else Done([], s)
  }

  lemma {:induction false} VariableParses(s: string)
    ensures var f := HttpTemplates.ParseFieldPath(s);
            HttpTemplates.ParseVariable(s) ==
            if f.Fail? then Fail
            else
              var p := SubOf(f.rest);
              if p.Done? && StartsWith(p.rest, '}') then Done(Variable(f.value, p.value), p.rest[1..]) else Fail
  {
  }

  lemma {:induction false} ParsedFields(s: string)
    requires HttpTemplates.ParseFieldPath(s).Done?
    ensures HttpTemplates.ParseFieldPath(s).value != []
  {
    FieldsPrintBack(s);
  }

  lemma {:induction false} FinishedVariable(variables: seq<VariableInfo>, at: nat, fields: seq<string>,
                                        sub: seq<Segment>)
    ensures var v := Variable(fields, sub);
            var n := |FlatSegment(v)|;
            var named := Named(variables + [VariableInfo(at, 0, [], false)], fields);
            var done := SetEnd(if sub == [] then named else After(named, true, sub, at), at + n);
            && After(variables, false, [v], at) == done
            && done[|variables|] == VariableInfo(at, at + n, fields, StarStar in sub)
            && |done| == |variables| + 1
            && FlatSegment(v) == (if sub == [] then ["*"] else Flat(sub))
  {
    var v := Variable(fields, sub);
    var end := at + |FlatSegment(v)|;
    assert Ranges([v], at) == [VariableInfo(at, end, fields, StarStar in sub)] by {
      assert [v][1..] == [];
    }
    assert [] + fields == fields;
    var named := Named(variables + [VariableInfo(at, 0, [], false)], fields);
    assert named == variables + [VariableInfo(at, 0, fields, false)];
    var marked := if sub == [] then named else After(named, true, sub, at);
    assert marked == variables + [VariableInfo(at, 0, fields, StarStar in sub)];
    assert SetEnd(marked, end) == variables + [VariableInfo(at, end, fields, StarStar in sub)];
  }

  lemma {:induction false} AfterTwice(variables: seq<VariableInfo>, inVariable: bool, gs: seq<Segment>, g: seq<Segment>,
                                      at: nat)
    requires |g| == 1 && (inVariable ==> variables != [])
    ensures Flat(gs + g) == Flat(gs) + FlatSegment(g[0])
    ensures After(After(variables, inVariable, gs, at), inVariable, g, at + |Flat(gs)|) ==
            After(variables, inVariable, gs + g, at)
    ensures inVariable ==> After(variables, inVariable, gs, at) != []
  {
    FlatConcat(gs, g);
    FlatOne(g[0]);
    assert g == [g[0]];
    RangesConcat(gs, g, at);
  }

  lemma {:induction false} WellFormedMeansConstantsLast(path: seq<string>)
    ensures WellFormed(path) <==>
            forall i, j :: 0 <= i < j < |path| && path[i] == WILD_CARD_PATH_KEY ==> PathTrie.Literal(path[j])
    decreases |path|
  {
    if path != [] {
      var rest := path[1..];
      WellFormedMeansConstantsLast(rest);
      if path[0] == WILD_CARD_PATH_KEY {
        assert forall j :: 0 < j < |path| ==> path[j] == rest[j - 1];
        assert forall j :: 0 <= j < |rest| ==> rest[j] == path[j + 1];
      } else {
        assert forall i, j :: 0 <= i < j < |rest| ==> rest[i] == path[i + 1] && rest[j] == path[j + 1];
      }
    }
  }
}
