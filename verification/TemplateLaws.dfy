/** What the text of a template means, told on the text alone: the segments and the verb of what it parses to, and
    the requests that a template without wildcards is served for. */
module TemplateLaws {
  import opened HttpTemplates
  import opened PathMatcherModel
  import opened PathTrie
  import opened RequestPaths
  import opened Wrappers

  // ----- which trees there are

  /** A word of a literal or a verb. */
  predicate PlainWord(w: string) {
    w != "" && Free(w, '/') && Free(w, ':') && Free(w, '}')
  }

  predicate Name(w: string) {
    w != "" && Free(w, '.') && Free(w, '}') && Free(w, '=')
  }

  predicate Constant(w: string) {
    PlainWord(w) && w[0] != '*' && w[0] != '{'
  }

  predicate Simple(g: Segment) {
    g == Star || g == StarStar || (g.Literal? && Constant(g.text))
  }

  lemma WordIff(w: string)
    ensures Word(w, LITERAL_STOPS) <==> PlainWord(w)
    ensures Word(w, IDENTIFIER_STOPS) <==> Name(w)
  {
  }

  /** Any row of wildcards, constants and variables is a template, with a verb or without; a variable has names and
      may have a row of wildcards and constants.  Nothing else is. */
  lemma TemplateOkIff(t: Template)
    ensures TemplateOk(t) <==>
            && t.segments != [] && (t.verb == "" || PlainWord(t.verb))
            && forall i :: 0 <= i < |t.segments| ==>
                 var g := t.segments[i];
                 Simple(g) || (g.Variable? && g.fields != []
                               && (forall j :: 0 <= j < |g.fields| ==> Name(g.fields[j]))
                               && (forall j :: 0 <= j < |g.sub| ==> Simple(g.sub[j])))
  {
    hide Word, Name, PlainWord;
    WordIff(t.verb);
    forall i | 0 <= i < |t.segments|
      ensures SegmentOk(t.segments[i], false) <==>
              var g := t.segments[i];
              Simple(g) || (g.Variable? && g.fields != []
                            && (forall j :: 0 <= j < |g.fields| ==> Name(g.fields[j]))
                            && (forall j :: 0 <= j < |g.sub| ==> Simple(g.sub[j])))
    {
      var g := t.segments[i];
      SimpleIff(g);
      if g.Variable? {
        forall j | 0 <= j < |g.fields| ensures Word(g.fields[j], IDENTIFIER_STOPS) <==> Name(g.fields[j]) {
          WordIff(g.fields[j]);
        }
        forall j | 0 <= j < |g.sub| ensures SegmentOk(g.sub[j], true) <==> Simple(g.sub[j]) { SimpleIff(g.sub[j]); }
      }
    }
  }

  lemma {:induction false} SimpleIff(g: Segment)
    ensures SegmentOk(g, true) <==> Simple(g)
    ensures !g.Variable? ==> (SegmentOk(g, false) <==> Simple(g))
  {
    if g.Literal? { WordIff(g.text); }
  }

  // ----- a template with the braces, names and equals signs taken out

  /** A brace opens a variable only at the start of a segment; one without a sub-template is a `*`. */
  function Unbraced(s: string, start: bool): string
    decreases |s|
  {
    if s == "" then ""
    else if s[0] == '{' && start then Unnamed(s[1..])
    else if s[0] == '}' then Unbraced(s[1..], false)
    else [s[0]] + Unbraced(s[1..], s[0] == '/')
  }

  function Unnamed(s: string): string
    decreases |s|
  {
    if s == "" then ""
    else if s[0] == '}' then "*" + Unbraced(s[1..], false)
    else if s[0] == '=' then Unbraced(s[1..], true)
    else Unnamed(s[1..])
  }

  lemma {:induction false} TextStays(text: string, rest: string, start: bool)
    requires text != "" && !(start && text[0] == '{') && Free(text, '/') && Free(text, '}')
    ensures Unbraced(text + rest, start) == text + Unbraced(rest, false)
    decreases |text|
  {
    assert (text + rest)[1..] == text[1..] + rest;
    if |text| > 1 {
      TextStays(text[1..], rest, false);
    } else {
      assert text[1..] + rest == rest;
    }
  }

  lemma {:induction false} NamesGo(fields: seq<string>, rest: string)
    requires fields != [] && forall i :: 0 <= i < |fields| ==> Word(fields[i], IDENTIFIER_STOPS)
    ensures Unnamed(PrintFields(fields) + rest) == Unnamed(rest)
    decreases |fields|
  {
    NameGoes(fields[0], if |fields| == 1 then rest else "." + PrintFields(fields[1..]) + rest);
    if |fields| > 1 {
      var more := PrintFields(fields[1..]) + rest;
      assert PrintFields(fields) + rest == fields[0] + ("." + PrintFields(fields[1..]) + rest);
      assert ("." + PrintFields(fields[1..]) + rest)[1..] == more;
      NamesGo(fields[1..], rest);
    }
  }

  lemma {:induction false} NameGoes(name: string, rest: string)
    requires Free(name, '}') && Free(name, '=')
    ensures Unnamed(name + rest) == Unnamed(rest)
    decreases |name|
  {
    if name == "" {
      assert name + rest == rest;
    } else {
      assert (name + rest)[1..] == name[1..] + rest;
      NameGoes(name[1..], rest);
    }
  }

  lemma {:induction false} JoinedPlus(a: seq<string>, b: seq<string>)
    ensures Joined(a + b) == Joined(a) + Joined(b)
    decreases |a|
  {
    if a == [] {
      assert a + b == b;
    } else {
      assert (a + b)[1..] == a[1..] + b;
      JoinedPlus(a[1..], b);
    }
  }

  lemma {:induction false} JoinedOne(key: string)
    ensures Joined([key]) == "/" + key
  {
    assert [key][1..] == [];
  }

  lemma {:induction false} SegmentUnbraced(g: Segment, inVariable: bool, rest: string)
    requires SegmentOk(g, inVariable)
    ensures "/" + Unbraced(PrintSegment(g, inVariable) + rest, true) == Joined(FlatSegment(g)) + Unbraced(rest, false)
    decreases g, 0
  {
    hide Unbraced, Unnamed, Joined;
    match g
    case Star => JoinedOne("*"); TextStays("*", rest, true);
    case StarStar => JoinedOne("**"); TextStays("**", rest, true);
    case Literal(text) => JoinedOne(text); TextStays(text, rest, true);
    case Variable(fields, sub) =>
      if sub == [] {
        BareVariable(fields, rest);
        JoinedOne("*");
      } else {
        SegmentsUnbraced(sub, true, "}" + rest);
        BracedVariable(fields, PrintSegments(sub, true), rest);
        assert PrintSegment(g, inVariable) == "{" + PrintFields(fields) + ("=" + PrintSegments(sub, true)) + "}";
      }
  }

  lemma {:induction false} BareVariable(fields: seq<string>, rest: string)
    requires fields != [] && forall i :: 0 <= i < |fields| ==> Word(fields[i], IDENTIFIER_STOPS)
    ensures Unbraced("{" + PrintFields(fields) + "" + "}" + rest, true) == "*" + Unbraced(rest, false)
  {
    hide PrintFields, Word;
    var text := "{" + PrintFields(fields) + "" + "}" + rest;
    assert text[1..] == PrintFields(fields) + ("}" + rest);
    NamesGo(fields, "}" + rest);
    assert ("}" + rest)[1..] == rest;
  }

  lemma {:induction false} BracedVariable(fields: seq<string>, sub: string, rest: string)
    requires fields != [] && forall i :: 0 <= i < |fields| ==> Word(fields[i], IDENTIFIER_STOPS)
    ensures Unbraced("{" + PrintFields(fields) + ("=" + sub) + "}" + rest, true) == Unbraced(sub + ("}" + rest), true)
    ensures Unbraced("}" + rest, false) == Unbraced(rest, false)
  {
    hide PrintFields, Word;
    var inner := sub + ("}" + rest);
    Regroup(PrintFields(fields), sub, rest);
    OpensVariable(PrintFields(fields) + ("=" + inner));
    NamesGo(fields, "=" + inner);
    assert ("=" + inner)[1..] == inner && ("}" + rest)[1..] == rest;
  }

  lemma Regroup(names: string, sub: string, rest: string)
    ensures "{" + names + ("=" + sub) + "}" + rest == "{" + (names + ("=" + (sub + ("}" + rest))))
  {
  }

  lemma {:induction false} OpensVariable(rest: string)
    ensures Unbraced("{" + rest, true) == Unnamed(rest)
  {
    assert ("{" + rest)[1..] == rest;
  }

  lemma {:induction false} SegmentsUnbraced(gs: seq<Segment>, inVariable: bool, rest: string)
    requires SegmentsOk(gs, inVariable)
    ensures "/" + Unbraced(PrintSegments(gs, inVariable) + rest, true) == Joined(Flat(gs)) + Unbraced(rest, false)
    decreases gs, 1
  {
    if |gs| == 1 {
      SegmentUnbraced(gs[0], inVariable, rest);
      FlatOne(gs[0]);
      assert gs == [gs[0]];
    } else {
      var more := PrintSegments(gs[1..], inVariable) + rest;
      assert PrintSegments(gs, inVariable) + rest == PrintSegment(gs[0], inVariable) + ("/" + more);
      SegmentUnbraced(gs[0], inVariable, "/" + more);
      assert ("/" + more)[1..] == more;
      SegmentsUnbraced(gs[1..], inVariable, rest);
      JoinedPlus(FlatSegment(gs[0]), Flat(gs[1..]));
    }
  }

  /** Segments as the text has them: none is empty, and none holds what separates them. */
  predicate Separate(keys: seq<string>) {
    AllFree(keys, '/') && AllFree(keys, ':') && forall i :: 0 <= i < |keys| ==> keys[i] != ""
  }

  lemma {:induction false} FlatSegmentIsSeparate(g: Segment, inVariable: bool)
    requires SegmentOk(g, inVariable)
    ensures Separate(FlatSegment(g))
    decreases g, 0
  {
    if g.Variable? && g.sub != [] { FlatIsSeparate(g.sub, true); }
  }

  lemma {:induction false} FlatIsSeparate(gs: seq<Segment>, inVariable: bool)
    requires forall i :: 0 <= i < |gs| ==> SegmentOk(gs[i], inVariable)
    ensures Separate(Flat(gs))
    decreases gs, 1
  {
    if gs != [] {
      FlatSegmentIsSeparate(gs[0], inVariable);
      FlatIsSeparate(gs[1..], inVariable);
    }
  }

  /** The segments and the verb are the text without braces, names and equals signs. */
  lemma {:induction false} SegmentsAreTheText(s: string)
    requires Parse(s).Some?
    ensures var h := Parse(s).value;
            && Unbraced(s, false) == Joined(h.segments) + (if h.verb == "" then "" else ":" + h.verb)
            && Separate(h.segments) && Free(h.verb, '/') && Free(h.verb, ':')
  {
    hide Unbraced, Flat, Ranges, ParseTemplate;
    PrintingUndoesParsing(s);
    var t := ParseTemplate(s).value;
    var verb := if t.verb == "" then "" else ":" + t.verb;
    FlatIsSeparate(t.segments, false);
    SegmentsUnbraced(t.segments, false, verb);
    VerbUnbraced(t.verb);
    assert s == "/" + (PrintSegments(t.segments, false) + verb);
    SlashStays(PrintSegments(t.segments, false) + verb);
  }

  lemma {:induction false} SlashStays(rest: string)
    ensures Unbraced("/" + rest, false) == "/" + Unbraced(rest, true)
  {
    assert ("/" + rest)[1..] == rest;
  }

  lemma {:induction false} VerbUnbraced(verb: string)
    requires verb != "" ==> Word(verb, LITERAL_STOPS)
    ensures var v := if verb == "" then "" else ":" + verb; Unbraced(v, false) == v
    ensures Free(verb, '/') && Free(verb, ':')
  {
    if verb != "" {
      var v := ":" + verb;
      TextStays(v, "", false);
      assert v + "" == v;
    }
  }

  // ----- templates without wildcards

  predicate Constants(ws: seq<string>) {
    ws != [] && forall i :: 0 <= i < |ws| ==> Constant(ws[i])
  }

  function Text(ws: seq<string>, verb: string): string {
    Joined(ws) + if verb == "" then "" else ":" + verb
  }

  function Literals(ws: seq<string>): seq<Segment> { seq(|ws|, i requires 0 <= i < |ws| => Literal(ws[i])) }

  lemma {:induction false} LiteralsFlat(ws: seq<string>)
    ensures Flat(Literals(ws)) == ws
    ensures forall at :: Ranges(Literals(ws), at) == []
  {
    if ws != [] {
      LiteralsFlat(ws[1..]);
      assert Literals(ws)[1..] == Literals(ws[1..]);
      assert ws == [ws[0]] + ws[1..];
    }
  }

  lemma {:induction false} LiteralsPrint(ws: seq<string>)
    requires Constants(ws)
    ensures SegmentsOk(Literals(ws), false) && "/" + PrintSegments(Literals(ws), false) == Joined(ws)
    decreases |ws|
  {
    if |ws| > 1 {
      LiteralsPrint(ws[1..]);
      assert Literals(ws)[1..] == Literals(ws[1..]);
    } else {
      assert ws[1..] == [];
    }
  }

  /** Words and a verb are parsed as what they are. */
  lemma ConstantsParse(ws: seq<string>, verb: string)
    requires Constants(ws) && (verb != "" ==> PlainWord(verb))
    ensures Parse(Text(ws, verb)) == Some(HttpTemplate(ws, verb, []))
  {
    hide Flat, Ranges, ParseTemplate, PlainWord, Word;
    var t := Template(Literals(ws), verb);
    WordIff(verb);
    LiteralsPrint(ws);
    LiteralsFlat(ws);
    ParsingUndoesPrinting(t);
    assert Print(t) == Text(ws, verb);
    ConstantsAreWellFormed(ws);
    assert Ranges(t.segments, 0) == [] && Flatten(t).variables == [];
  }

  lemma {:induction false} ConstantsAreWellFormed(ws: seq<string>)
    requires forall i :: 0 <= i < |ws| ==> Constant(ws[i])
    ensures WellFormed(ws) && AllLiteral(ws)
    decreases |ws|
  {
    if ws != [] { ConstantsAreWellFormed(ws[1..]); }
  }

  /** A template of words, registered alone, is served for a request if and only if the request has these words,
      and the verb behind them if there is one, as its parts. */
  lemma ConstantIsServedIff(ws: seq<string>, verb: string, r: Registration, httpMethod: string, path: string)
    requires Constants(ws) && (verb != "" ==> PlainWord(verb) && verb != "*" && verb != "**")
    requires r.template == Text(ws, verb)
    ensures LookupMethod(RegisterAll([r]), httpMethod, path).Some? <==>
            && (r.httpMethod == httpMethod || r.httpMethod == "*")
            && RequestParts(path, if verb == "" then {} else {verb}) == ws + (if verb == "" then [] else [verb])
  {
    hide Parse, Lookup, RegisterAll, Matches, RequestParts, Register;
    var words := ws + if verb == "" then [] else [verb];
    var verbs := if verb == "" then {} else {verb};
    ConstantsParse(ws, verb);
    ConstantsAreWellFormed(ws);
    assert verb != "" ==> verb[0] != '/';
    assert PathOf(ws, verb) == words && SoundVerb(r);
    OneRegistration(r);
    var b, parts := RegisterAll([r]), RequestParts(path, verbs);
    LookupServesTheBest([r], parts, httpMethod);
    SoundVerbIff(r);
    ConstantMatches(words, parts);
    assert forall q :: Fits(r, q, parts, httpMethod) ==> q == words;
    assert Fits(r, words, parts, httpMethod) <==> words == parts && MethodMatches(r.httpMethod, httpMethod);
  }

  lemma OneRegistration(r: Registration)
    requires Parse(r.template).Some?
    ensures RegisterAll([r]).customVerbs ==
            if Parse(r.template).value.verb == "" then {} else {Parse(r.template).value.verb}
  {
    assert [r][..0] == [];
    NotEmptyPath(r.template);
    hide Parse;
    NewIsAccepted([], r);
  }

  lemma {:induction false} ConstantMatches(path: seq<string>, parts: seq<string>)
    requires AllLiteral(path)
    ensures Matches(path, parts) <==> parts == path
    decreases |path|
  {
    if path != [] && parts != [] {
      ConstantMatches(path[1..], parts[1..]);
      assert path == [path[0]] + path[1..] && parts == [parts[0]] + parts[1..];
    }
  }
}
