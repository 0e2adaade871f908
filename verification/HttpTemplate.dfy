/** The grammar of api_spec/src/http_template.cc as syntax trees, printing and a recursive-descent
    parser on the rest of the text; parsing and printing undo each other. */
module HttpTemplates {
  import opened PathTrie
  import opened Wrappers

  /** A variable without a sub-template, `{x}`, has sub []. */
  datatype Segment =
    | Star
    | StarStar
    | Literal(text: string)
    | Variable(fields: seq<string>, sub: seq<Segment>)

  /** A template without a verb has the empty verb. */
  datatype Template = Template(segments: seq<Segment>, verb: string)

  const LITERAL_STOPS: string := "/:}"
  const IDENTIFIER_STOPS: string := ".}="

  // ----- which trees are well-formed, and how they print

  predicate Word(w: string, stops: string) {
    w != "" && forall i :: 0 <= i < |w| ==> w[i] !in stops
  }

  predicate SegmentOk(g: Segment, inVariable: bool)
    decreases g
  {
    match g
    case Star => true
    case StarStar => true
    case Literal(text) => Word(text, LITERAL_STOPS) && text[0] != '*' && text[0] != '{'
    case Variable(fields, sub) =>
      && !inVariable
      && fields != [] && (forall i :: 0 <= i < |fields| ==> Word(fields[i], IDENTIFIER_STOPS))
      && (sub != [] ==> SegmentsOk(sub, true))
  }

  predicate SegmentsOk(gs: seq<Segment>, inVariable: bool)
    decreases gs
  {
    gs != [] && forall i :: 0 <= i < |gs| ==> SegmentOk(gs[i], inVariable)
  }

  predicate TemplateOk(t: Template) {
    SegmentsOk(t.segments, false) && (t.verb != "" ==> Word(t.verb, LITERAL_STOPS))
  }

  function PrintFields(fields: seq<string>): string
    requires fields != []
  {
    if |fields| == 1 then fields[0] else fields[0] + "." + PrintFields(fields[1..])
  }

  function PrintSegment(g: Segment, inVariable: bool): string
    requires SegmentOk(g, inVariable)
    decreases g
  {
    match g
    case Star => "*"
    case StarStar => "**"
    case Literal(text) => text
    case Variable(fields, sub) =>
      "{" + PrintFields(fields) + (if sub == [] then "" else "=" + PrintSegments(sub, true)) + "}"
  }

  function PrintSegments(gs: seq<Segment>, inVariable: bool): string
    requires SegmentsOk(gs, inVariable)
    decreases gs
  {
    if |gs| == 1 then PrintSegment(gs[0], inVariable)
    else PrintSegment(gs[0], inVariable) + "/" + PrintSegments(gs[1..], inVariable)
  }

  function Print(t: Template): string
    requires TemplateOk(t)
  {
    "/" + PrintSegments(t.segments, false) + (if t.verb == "" then "" else ":" + t.verb)
  }

  // ----- the parser on what is left of the text

  datatype Scan<+T> = Fail | Done(value: T, rest: string)

  predicate StartsWith(s: string, c: char) {
    s != "" && s[0] == c
  }

  /** How many characters come before the first stop. */
  function RunLength(s: string, stops: string): (n: nat)
    ensures n <= |s| && (forall i :: 0 <= i < n ==> s[i] !in stops) && (n < |s| ==> s[n] in stops)
  {
    if s == "" || s[0] in stops then 0 else 1 + RunLength(s[1..], stops)
  }

  function ParseWord(s: string, stops: string): (r: Scan<string>)
    ensures r.Done? ==> |r.rest| < |s|
  {
    var n := RunLength(s, stops);
    if n == 0 then Fail else Done(s[..n], s[n..])
  }

  function ParseFieldPath(s: string): (r: Scan<seq<string>>)
    ensures r.Done? ==> |r.rest| < |s|
    decreases |s|
  {
    match ParseWord(s, IDENTIFIER_STOPS)
    case Fail => Fail
    case Done(id, rest) => Prefixed([id], MoreFields(rest))
  }

  function MoreFields(s: string): (r: Scan<seq<string>>)
    ensures r.Done? ==> |r.rest| <= |s|
    decreases |s|
  {
    if StartsWith(s, '.') then ParseFieldPath(s[1..]) else Done([], s)
  }

  function Prefixed<T>(first: seq<T>, more: Scan<seq<T>>): Scan<seq<T>> {
    match more
    case Fail => Fail
    case Done(values, rest) => Done(first + values, rest)
  }

  function ParseSegment(s: string, inVariable: bool): (r: Scan<Segment>)
    ensures r.Done? ==> |r.rest| < |s|
    decreases |s|, 1
  {
    if s == "" then Fail
    else if s[0] == '*' then
      if StartsWith(s[1..], '*') then Done(StarStar, s[2..]) else Done(Star, s[1..])
    else if s[0] == '{' then
      if inVariable then Fail else ParseVariable(s[1..])
    else
      match ParseWord(s, LITERAL_STOPS)
      case Fail => Fail
      case Done(text, rest) => Done(Literal(text), rest)
  }

  /** What follows the opening brace. */
  function ParseVariable(s: string): (r: Scan<Segment>)
    ensures r.Done? ==> |r.rest| < |s|
    decreases |s|, 0
  {
    match ParseFieldPath(s)
    case Fail => Fail
    case Done(fields, rest) =>
      if StartsWith(rest, '=') then
        match ParseSegments(rest[1..], true)
        case Fail => Fail
        case Done(sub, rest') =>
          if StartsWith(rest', '}') then Done(Variable(fields, sub), rest'[1..]) else Fail
      else if StartsWith(rest, '}') then Done(Variable(fields, []), rest[1..])
      else Fail
  }

  function ParseSegments(s: string, inVariable: bool): (r: Scan<seq<Segment>>)
    ensures r.Done? ==> |r.rest| < |s|
    decreases |s|, 2
  {
    match ParseSegment(s, inVariable)
    case Fail => Fail
    case Done(g, rest) => Prefixed([g], MoreSegments(rest, inVariable))
  }

  function MoreSegments(s: string, inVariable: bool): (r: Scan<seq<Segment>>)
    ensures r.Done? ==> |r.rest| <= |s|
    decreases |s|, 3
  {
    if StartsWith(s, '/') then ParseSegments(s[1..], inVariable) else Done([], s)
  }

  /** All of the text must be consumed. */
  function ParseTemplate(s: string): Option<Template> {
    if !StartsWith(s, '/') then None
    else
      match ParseSegments(s[1..], false)
      case Fail => None
      case Done(gs, rest) =>
        if StartsWith(rest, ':') then
          match ParseWord(rest[1..], LITERAL_STOPS)
          case Fail => None
          case Done(verb, rest') => if rest' == "" then Some(Template(gs, verb)) else None
        else if rest == "" then Some(Template(gs, ""))
        else None
  }

  // ----- parsing undoes printing

  predicate Stopped(rest: string, stops: string) {
    rest == "" || rest[0] in stops
  }

  lemma {:induction false} WordThenStop(w: string, stops: string, rest: string)
    requires Word(w, stops) && Stopped(rest, stops)
    ensures ParseWord(w + rest, stops) == Done(w, rest)
  {
    RunThenStop(w, stops, rest);
    assert (w + rest)[..|w|] == w && (w + rest)[|w|..] == rest;
  }

  lemma {:induction false} RunThenStop(w: string, stops: string, rest: string)
    requires (forall i :: 0 <= i < |w| ==> w[i] !in stops) && Stopped(rest, stops)
    ensures RunLength(w + rest, stops) == |w|
  {
    if w == "" {
      assert w + rest == rest;
    } else {
      assert (w + rest)[1..] == w[1..] + rest;
      RunThenStop(w[1..], stops, rest);
    }
  }

  lemma {:induction false} FieldsParseBack(fields: seq<string>, rest: string)
    requires fields != [] && (forall i :: 0 <= i < |fields| ==> Word(fields[i], IDENTIFIER_STOPS))
    requires StartsWith(rest, '}') || StartsWith(rest, '=')
    ensures ParseFieldPath(PrintFields(fields) + rest) == Done(fields, rest)
    decreases |fields|
  {
    hide ParseWord, Word;
    if |fields| == 1 {
      WordThenStop(fields[0], IDENTIFIER_STOPS, rest);
      assert [fields[0]] + [] == fields;
    } else {
      var tail := fields[1..];
      var more := PrintFields(tail) + rest;
      Reassociate(fields[0], ".", PrintFields(tail), rest);
      WordThenStop(fields[0], IDENTIFIER_STOPS, "." + more);
      assert ("." + more)[1..] == more;
      FieldsParseBack(tail, rest);
      assert fields == [fields[0]] + tail;
    }
  }

  lemma Reassociate(a: string, b: string, c: string, d: string)
    ensures a + b + c + d == a + (b + (c + d))
  {
  }

  lemma {:induction false} SegmentParsesBack(g: Segment, inVariable: bool, rest: string)
    requires SegmentOk(g, inVariable) && Stopped(rest, LITERAL_STOPS)
    ensures ParseSegment(PrintSegment(g, inVariable) + rest, inVariable) == Done(g, rest)
    decreases g
  {
    var s := PrintSegment(g, inVariable) + rest;
    match g
    case Star =>
      assert s[1..] == rest;
    case StarStar =>
      assert s[2..] == rest;
    case Literal(text) =>
      WordThenStop(text, LITERAL_STOPS, rest);
    case Variable(fields, sub) =>
      VariableParsesBack(g, rest);
  }

  lemma {:induction false} VariableParsesBack(g: Segment, rest: string)
    requires SegmentOk(g, false) && g.Variable?
    ensures ParseSegment(PrintSegment(g, false) + rest, false) == Done(g, rest)
    decreases g, 0
  {
    var s := PrintSegment(g, false) + rest;
    var names := PrintFields(g.fields);
    if g.sub == [] {
      assert s[1..] == names + ("}" + rest);
      FieldsParseBack(g.fields, "}" + rest);
      assert ("}" + rest)[1..] == rest;
    } else {
      var more := PrintSegments(g.sub, true) + ("}" + rest);
      assert s[1..] == names + ("=" + more);
      FieldsParseBack(g.fields, "=" + more);
      assert ("=" + more)[1..] == more;
      SegmentsParseBack(g.sub, true, "}" + rest);
      assert ("}" + rest)[1..] == rest;
    }
  }

  lemma {:induction false} SegmentsParseBack(gs: seq<Segment>, inVariable: bool, rest: string)
    requires SegmentsOk(gs, inVariable) && Stopped(rest, ":}")
    ensures ParseSegments(PrintSegments(gs, inVariable) + rest, inVariable) == Done(gs, rest)
    decreases gs
  {
    hide ParseSegment, PrintSegment, SegmentOk;
    if |gs| == 1 {
      SegmentParsesBack(gs[0], inVariable, rest);
      assert [gs[0]] + [] == gs;
    } else {
      var more := PrintSegments(gs[1..], inVariable) + rest;
      assert PrintSegments(gs, inVariable) + rest == PrintSegment(gs[0], inVariable) + ("/" + more);
      SegmentParsesBack(gs[0], inVariable, "/" + more);
      assert ("/" + more)[1..] == more;
      SegmentsParseBack(gs[1..], inVariable, rest);
      assert gs == [gs[0]] + gs[1..];
    }
  }

  /** Every well-formed tree is what its printed form parses to. */
  lemma ParsingUndoesPrinting(t: Template)
    requires TemplateOk(t)
    ensures ParseTemplate(Print(t)) == Some(t)
  {
    var end := if t.verb == "" then "" else ":" + t.verb;
    assert Print(t)[1..] == PrintSegments(t.segments, false) + end;
    SegmentsParseBack(t.segments, false, end);
    if t.verb != "" {
      assert end[1..] == t.verb + "";
      WordThenStop(t.verb, LITERAL_STOPS, "");
    }
  }

  // ----- printing undoes parsing

  lemma {:induction false} FieldsPrintBack(s: string)
    requires ParseFieldPath(s).Done?
    ensures var r := ParseFieldPath(s);
            && r.value != [] && (forall i :: 0 <= i < |r.value| ==> Word(r.value[i], IDENTIFIER_STOPS))
            && PrintFields(r.value) + r.rest == s
    decreases |s|
  {
    hide ParseWord, Word;
    var r, w := ParseFieldPath(s), ParseWord(s, IDENTIFIER_STOPS);
    WordIsPrefix(s, IDENTIFIER_STOPS);
    if StartsWith(w.rest, '.') {
      FieldsPrintBack(w.rest[1..]);
      assert r.value[1..] == ParseFieldPath(w.rest[1..]).value;
      assert w.rest == "." + w.rest[1..];
    } else {
      assert r.value == [w.value];
    }
  }

  lemma WordIsPrefix(s: string, stops: string)
    requires ParseWord(s, stops).Done?
    ensures var w := ParseWord(s, stops); Word(w.value, stops) && s == w.value + w.rest
  {
  }

  lemma {:induction false} SegmentPrintsBack(s: string, inVariable: bool)
    requires ParseSegment(s, inVariable).Done?
    ensures var r := ParseSegment(s, inVariable);
            SegmentOk(r.value, inVariable) && PrintSegment(r.value, inVariable) + r.rest == s
    decreases |s|, 1
  {
    var r := ParseSegment(s, inVariable);
    if s[0] == '*' {
      assert s == (if r.value.StarStar? then "**" else "*") + r.rest;
    } else if s[0] == '{' {
      VariablePrintsBack(s);
    } else {
      assert s == r.value.text + r.rest;
    }
  }

  lemma {:induction false} VariablePrintsBack(s: string)
    requires StartsWith(s, '{') && ParseVariable(s[1..]).Done?
    ensures var r := ParseVariable(s[1..]);
            SegmentOk(r.value, false) && PrintSegment(r.value, false) + r.rest == s
    decreases |s|, 0
  {
    hide ParseFieldPath, PrintFields, ParseSegments, PrintSegments, SegmentsOk;
    var r := ParseVariable(s[1..]);
    var f := ParseFieldPath(s[1..]);
    FieldsPrintBack(s[1..]);
    assert s == "{" + (PrintFields(f.value) + f.rest);
    if StartsWith(f.rest, '=') {
      SegmentsPrintBack(f.rest[1..], true);
      var sub := ParseSegments(f.rest[1..], true);
      SubIsNotEmpty(sub.value);
      Rejoin(PrintFields(f.value), f.rest, "=" + PrintSegments(sub.value, true), sub.rest, r.rest);
    } else {
      Rejoin(PrintFields(f.value), f.rest, "", f.rest, r.rest);
    }
  }

  lemma {:induction false} SubIsNotEmpty(gs: seq<Segment>)
    requires SegmentsOk(gs, true)
    ensures gs != []
  {
  }

  lemma Rejoin(fields: string, afterFields: string, sub: string, afterSub: string, rest: string)
    requires afterFields == sub + afterSub && StartsWith(afterSub, '}') && rest == afterSub[1..]
    ensures "{" + (fields + afterFields) == "{" + fields + sub + "}" + rest
  {
    assert afterSub == "}" + rest;
  }

  lemma {:induction false} SegmentsPrintBack(s: string, inVariable: bool)
    requires ParseSegments(s, inVariable).Done?
    ensures var r := ParseSegments(s, inVariable);
            && SegmentsOk(r.value, inVariable) && PrintSegments(r.value, inVariable) + r.rest == s
            && !StartsWith(r.rest, '/')
    decreases |s|, 2
  {
    hide ParseSegment, PrintSegment, SegmentOk;
    SegmentPrintsBack(s, inVariable);
    var r, first := ParseSegments(s, inVariable), ParseSegment(s, inVariable);
    if StartsWith(first.rest, '/') {
      SegmentsPrintBack(first.rest[1..], inVariable);
      assert r.value[1..] == ParseSegments(first.rest[1..], inVariable).value;
      assert first.rest == "/" + first.rest[1..];
    } else {
      assert r.value == [first.value];
    }
  }

  lemma WordPrintsBack(s: string, stops: string)
    requires ParseWord(s, stops).Done?
    ensures var r := ParseWord(s, stops); Word(r.value, stops) && r.value != "" && r.value + r.rest == s
  {
  }

  lemma PrintingUndoesParsing(s: string)
    requires ParseTemplate(s).Some?
    ensures TemplateOk(ParseTemplate(s).value) && Print(ParseTemplate(s).value) == s
  {
    hide ParseSegments, ParseWord, PrintSegments, SegmentsOk, Word;
    SegmentsPrintBack(s[1..], false);
    var r := ParseSegments(s[1..], false);
    var printed := PrintSegments(r.value, false);
    assert s == "/" + s[1..];
    if StartsWith(r.rest, ':') {
      WordPrintsBack(r.rest[1..], LITERAL_STOPS);
      var verb := ParseWord(r.rest[1..], LITERAL_STOPS).value;
      assert verb + "" == verb && r.rest == ":" + verb;
      assert "/" + (printed + (":" + verb)) == "/" + printed + (":" + verb);
    } else {
      assert printed + "" == printed && "/" + printed + "" == "/" + printed;
    }
  }

  /** The accepted texts are exactly the printed trees, and no two trees print alike. */
  lemma AcceptedExactlyThePrinted(s: string)
    ensures ParseTemplate(s).Some? <==> exists t :: TemplateOk(t) && Print(t) == s
    ensures forall t, u :: TemplateOk(t) && TemplateOk(u) && Print(t) == Print(u) ==> t == u
  {
    if ParseTemplate(s).Some? { PrintingUndoesParsing(s); }
    forall t | TemplateOk(t) ensures ParseTemplate(Print(t)) == Some(t) { ParsingUndoesPrinting(t); }
  }

  // ----- from trees to flat segments and variable ranges

  /** Segments from start up to end; a negative end counts from the end of a request path, -1 being
      the end itself. */
  datatype VariableInfo = VariableInfo(start: int, end: int, fieldPath: seq<string>, hasWildcardPath: bool)

  datatype HttpTemplate = HttpTemplate(segments: seq<string>, verb: string, variables: seq<VariableInfo>)

  function FlatSegment(g: Segment): (keys: seq<string>)
    ensures keys != []
    decreases g
  {
    match g
    case Star => [WILD_CARD_PATH_PART_KEY]
    case StarStar => [WILD_CARD_PATH_KEY]
    case Literal(text) => [text]
    case Variable(_, sub) => if sub == [] then [WILD_CARD_PATH_PART_KEY] else Flat(sub)
  }

  function Flat(gs: seq<Segment>): (keys: seq<string>)
    ensures gs != [] ==> keys != []
    decreases gs
  {
    if gs == [] then [] else FlatSegment(gs[0]) + Flat(gs[1..])
  }

  /** The ranges before the last step of parsing; at is where gs begins. */
  function Ranges(gs: seq<Segment>, at: nat): seq<VariableInfo> {
    if gs == [] then []
    else
      var end := at + |FlatSegment(gs[0])|;
      (if gs[0].Variable? then [VariableInfo(at, end, gs[0].fields, StarStar in gs[0].sub)] else [])
      + Ranges(gs[1..], end)
  }

  function FromTheEnd(v: VariableInfo, length: nat): VariableInfo {
    if v.hasWildcardPath then v.(end := v.end - length - 1) else v
  }

  /** The segments with the verb, if any, as the last one. */
  function PathOf(segments: seq<string>, verb: string): seq<string> {
    if verb == "" then segments else segments + [verb]
  }

  function Flatten(t: Template): HttpTemplate {
    var segments := Flat(t.segments);
    var ranges := Ranges(t.segments, 0);
    HttpTemplate(segments, t.verb,
                 seq(|ranges|, i requires 0 <= i < |ranges| => FromTheEnd(ranges[i], |PathOf(segments, t.verb)|)))
  }

  function Parse(s: string): Option<HttpTemplate> {
    var t := ParseTemplate(s);
    if t.Some? && WellFormed(Flat(t.value.segments)) then Some(Flatten(t.value)) else None
  }

  /** What is accepted, and with which result, in terms of the grammar alone. */
  lemma ParseMeansPrinted(s: string, h: HttpTemplate)
    ensures Parse(s) == Some(h) <==>
            exists t :: TemplateOk(t) && Print(t) == s && WellFormed(Flat(t.segments)) && h == Flatten(t)
  {
    if Parse(s).Some? { PrintingUndoesParsing(s); }
    forall t | TemplateOk(t) && Print(t) == s ensures ParseTemplate(s) == Some(t) { ParsingUndoesPrinting(t); }
  }

  lemma {:induction false} FlatConcat(gs: seq<Segment>, hs: seq<Segment>)
    ensures Flat(gs + hs) == Flat(gs) + Flat(hs)
  {
    if gs == [] {
      assert gs + hs == hs;
    } else {
      assert (gs + hs)[1..] == gs[1..] + hs;
      FlatConcat(gs[1..], hs);
    }
  }

  lemma {:induction false} RangesConcat(gs: seq<Segment>, hs: seq<Segment>, at: nat)
    ensures Ranges(gs + hs, at) == Ranges(gs, at) + Ranges(hs, at + |Flat(gs)|)
  {
    if gs == [] {
      assert gs + hs == hs;
    } else {
      assert (gs + hs)[1..] == gs[1..] + hs;
      RangesConcat(gs[1..], hs, at + |FlatSegment(gs[0])|);
    }
  }

  /** `{x}` means `{x=*}`, wherever it stands. */
  lemma ShortFormMeansStar(before: seq<Segment>, fields: seq<string>, after: seq<Segment>, verb: string)
    ensures Flatten(Template(before + [Variable(fields, [])] + after, verb)) ==
            Flatten(Template(before + [Variable(fields, [Star])] + after, verb))
  {
    OneStar(before, fields, [], after);
    OneStar(before, fields, [Star], after);
  }

  lemma {:induction false} OneStar(before: seq<Segment>, fields: seq<string>, sub: seq<Segment>, after: seq<Segment>)
    requires sub == [] || sub == [Star]
    ensures var gs, n := before + [Variable(fields, sub)] + after, |Flat(before)|;
            && Flat(gs) == Flat(before) + [WILD_CARD_PATH_PART_KEY] + Flat(after)
            && Ranges(gs, 0) == Ranges(before, 0) + [VariableInfo(n, n + 1, fields, false)] + Ranges(after, n + 1)
  {
    hide Flat, Ranges;
    var v := Variable(fields, sub);
    OneVariable(v, |Flat(before)|);
    FlatConcat(before, [v]);
    FlatConcat(before + [v], after);
    RangesConcat(before, [v], 0);
    RangesConcat(before + [v], after, 0);
  }

  lemma {:induction false} OneVariable(v: Segment, at: nat)
    requires v.Variable? && (v.sub == [] || v.sub == [Star])
    ensures Flat([v]) == [WILD_CARD_PATH_PART_KEY]
    ensures Ranges([v], at) == [VariableInfo(at, at + 1, v.fields, false)]
  {
    if v.sub == [Star] { FlatOne(Star); }
    FlatOne(v);
  }

  lemma {:induction false} FlatOne(g: Segment)
    ensures Flat([g]) == FlatSegment(g)
  {
    assert [g][1..] == [];
  }

  /** Ranges lie inside the segments, follow each other, and are not empty. */
  lemma {:induction false} RangesAreOrdered(gs: seq<Segment>, at: nat, i: nat)
    requires i < |Ranges(gs, at)|
    ensures var r := Ranges(gs, at); at <= r[i].start < r[i].end <= at + |Flat(gs)|
    ensures var r := Ranges(gs, at); i + 1 < |r| ==> r[i].end <= r[i + 1].start
    decreases |gs|
  {
    var end := at + |FlatSegment(gs[0])|;
    var here := if gs[0].Variable? then 1 else 0;
    if i >= here {
      RangesAreOrdered(gs[1..], end, i - here);
    } else if |Ranges(gs[1..], end)| > 0 {
      RangesAreOrdered(gs[1..], end, 0);
    }
  }
}
