/** Bindings from the query of a request, api_spec/src/path_matcher.h. */
module QueryParameters {
  import opened Wrappers
  import opened RequestPaths
  import opened UrlUnescaping
  import opened Bindings

  /** The binding of `path=value`, unless there is no name or it names a system parameter. */
  function QueryBinding(param: string, systemParams: set<string>): Option<Binding> {
    var pos := FindFirst(param, '=');
    if 0 < pos < |param| && param[..pos] !in systemParams
    then Some(Binding(Split(param[..pos], '.'), Unescape(param[pos + 1..], true)))
    else None
  }

  /** A parameter without `=` binds nothing, nor does one without a name or with that of a system parameter; any
      other binds the dotted name before the first `=` to the decoded rest. */
  lemma {:induction false} ParameterBinds(name: string, value: string, systemParams: set<string>)
    requires Free(name, '=')
    ensures QueryBinding(name, systemParams) == None
    ensures QueryBinding(name + "=" + value, systemParams) ==
            if name == "" || name in systemParams then None
            else Some(Binding(Split(name, '.'), Unescape(value, true)))
  {
    hide Split, Unescape, FindFirst;
    var param := name + "=" + value;
    FirstAt(name, '=', |name|);
    FirstAt(param, '=', |name|);
    assert param[..|name|] == name && param[|name| + 1..] == value;
  }

  function OptionSeq<T>(o: Option<T>): seq<T> {
    if o.Some? then [o.value] else []
  }

  function QueryBindings(params: seq<string>, systemParams: set<string>): seq<Binding> {
    if params == [] then []
    else OptionSeq(QueryBinding(params[0], systemParams)) + QueryBindings(params[1..], systemParams)
  }

  lemma {:induction false} OneParamMore(params: seq<string>, param: string, systemParams: set<string>)
    ensures QueryBindings(params + [param], systemParams) ==
            QueryBindings(params, systemParams) + OptionSeq(QueryBinding(param, systemParams))
    decreases |params|
  {
    hide QueryBinding, OptionSeq;
    var one := OptionSeq(QueryBinding(param, systemParams));
    if params == [] {
      assert params + [param] == [param];
      assert one + [] == [] + one;
    } else {
      var first, rest := OptionSeq(QueryBinding(params[0], systemParams)), QueryBindings(params[1..], systemParams);
      assert (params + [param])[1..] == params[1..] + [param];
      OneParamMore(params[1..], param, systemParams);
      assert first + (rest + one) == first + rest + one;
    }
  }

  method ExtractBindingsFromQueryParameters(queryParams: string, systemParams: set<string>, bindings: seq<Binding>)
      returns (r: seq<Binding>)
    ensures r == bindings + QueryBindings(Split(queryParams, '&'), systemParams)
  {
    hide QueryBinding, Split, FindFirst, Unescape;
    r := bindings;
    var params := SplitInto(queryParams, '&', []);
    NothingBefore(Split(queryParams, '&'));
    for i := 0 to |params|
      invariant r == bindings + QueryBindings(params[..i], systemParams)
    {
      OneParamMore(params[..i], params[i], systemParams);
      assert params[..i + 1] == params[..i] + [params[i]];
      var b := BindParameter(params[i], systemParams);
      if b.Some? {
        r := r + [b.value];
      }
    }
    assert params[..|params|] == params;
  }

  lemma NothingBefore(s: seq<string>)
    ensures [] + s == s
  {
  }

  method BindParameter(param: string, systemParams: set<string>) returns (b: Option<Binding>)
    ensures b == QueryBinding(param, systemParams)
  {
    hide Split, Unescape;
    var pos := FindFirst(param, '=');
    if pos == 0 || pos == |param| { return None; }
    var name := param[..pos];
    if name in systemParams { return None; }
    var fieldPath := SplitInto(name, '.', []);
    NothingBefore(Split(name, '.'));
    var value := UrlUnescapeString(param[pos + 1..], true);
    return Some(Binding(fieldPath, value));
  }

  // ----- a query has the bindings it was written from

  function JoinWith(parts: seq<string>, c: char): string
    requires parts != []
  {
    if |parts| == 1 then parts[0] else parts[0] + [c] + JoinWith(parts[1..], c)
  }

  lemma {:induction false} SplitUndoesJoinWith(parts: seq<string>, c: char)
    requires parts != [] && AllFree(parts, c) && parts[|parts| - 1] != ""
    ensures Split(JoinWith(parts, c), c) == parts
    decreases |parts|
  {
    hide Split;
    if |parts| == 1 {
      SplitOne(parts[0], c);
      assert parts == [parts[0]];
    } else {
      SplitJoined(parts[0], JoinWith(parts[1..], c), c);
      SplitUndoesJoinWith(parts[1..], c);
      assert parts == [parts[0]] + parts[1..];
    }
  }

  lemma {:induction false} SplitOne(part: string, c: char)
    requires Free(part, c) && part != ""
    ensures Split(part, c) == [part]
  {
    FirstAt(part, c, |part|);
    assert part[..|part|] == part;
  }

  lemma {:induction false} JoinIsFree(parts: seq<string>, c: char, d: char)
    requires parts != [] && AllFree(parts, d) && c != d
    ensures Free(JoinWith(parts, c), d)
    decreases |parts|
  {
    if |parts| > 1 { JoinIsFree(parts[1..], c, d); }
  }

  /** A binding as it is written into a query, with the value percent-encoded. */
  function WriteBinding(b: Binding, keep: char -> bool): string
    requires b.fieldPath != [] && Bytes(b.value)
  {
    JoinWith(b.fieldPath, '.') + "=" + Escape(b.value, keep)
  }

  /** What a binding needs to be read back: a field path whose names cannot be taken for anything else. */
  predicate Writable(b: Binding, systemParams: set<string>) {
    && b.fieldPath != [] && b.fieldPath[|b.fieldPath| - 1] != "" && Bytes(b.value)
    && AllFree(b.fieldPath, '.') && AllFree(b.fieldPath, '=') && AllFree(b.fieldPath, '&')
    && JoinWith(b.fieldPath, '.') !in systemParams
  }

  lemma WrittenIsRead(b: Binding, keep: char -> bool, systemParams: set<string>)
    requires Writable(b, systemParams) && !keep('%')
    ensures QueryBinding(WriteBinding(b, keep), systemParams) == Some(b)
  {
    hide Split, Escape, Unescape, FindFirst;
    var name, value := JoinWith(b.fieldPath, '.'), Escape(b.value, keep);
    var param := name + "=" + value;
    JoinIsFree(b.fieldPath, '.', '=');
    FirstAt(param, '=', |name|);
    assert param[..|name|] == name && param[|name| + 1..] == value;
    SplitUndoesJoinWith(b.fieldPath, '.');
    UnescapeUndoesEscape(b.value, keep, true);
    JoinIsNotEmpty(b.fieldPath, '.');
  }

  lemma {:induction false} JoinIsNotEmpty(parts: seq<string>, c: char)
    requires parts != [] && parts[|parts| - 1] != ""
    ensures JoinWith(parts, c) != ""
  {
  }

  lemma {:induction false} EscapeIsFree(s: string, keep: char -> bool, c: char)
    requires Bytes(s) && !keep(c) && c != '%' && !IsHexDigit(c)
    ensures Free(Escape(s, keep), c)
    decreases |s|
  {
    if s != "" { EscapeIsFree(s[1..], keep, c); }
  }

  lemma WrittenIsFree(b: Binding, keep: char -> bool, systemParams: set<string>)
    requires Writable(b, systemParams) && !keep('&')
    ensures Free(WriteBinding(b, keep), '&') && WriteBinding(b, keep) != ""
  {
    JoinIsFree(b.fieldPath, '.', '&');
    EscapeIsFree(b.value, keep, '&');
  }

  function WriteAll(bs: seq<Binding>, keep: char -> bool, systemParams: set<string>): seq<string>
    requires forall i :: 0 <= i < |bs| ==> Writable(bs[i], systemParams)
  {
    seq(|bs|, i requires 0 <= i < |bs| && Writable(bs[i], systemParams) => WriteBinding(bs[i], keep))
  }

  lemma {:induction false} AllAreRead(bs: seq<Binding>, keep: char -> bool, systemParams: set<string>)
    requires (forall i :: 0 <= i < |bs| ==> Writable(bs[i], systemParams)) && !keep('%')
    ensures QueryBindings(WriteAll(bs, keep, systemParams), systemParams) == bs
    decreases |bs|
  {
    hide QueryBinding, WriteBinding;
    if bs != [] {
      WrittenIsRead(bs[0], keep, systemParams);
      assert WriteAll(bs, keep, systemParams)[1..] == WriteAll(bs[1..], keep, systemParams);
      AllAreRead(bs[1..], keep, systemParams);
      assert bs == [bs[0]] + bs[1..];
    }
  }

  /** Any bindings written into a query, joined by `&`, are what is extracted from it. */
  lemma {:induction false} QueryRoundTrip(bs: seq<Binding>, keep: char -> bool, systemParams: set<string>)
    requires bs != [] && (forall i :: 0 <= i < |bs| ==> Writable(bs[i], systemParams)) && !keep('%') && !keep('&')
    ensures QueryBindings(Split(JoinWith(WriteAll(bs, keep, systemParams), '&'), '&'), systemParams) == bs
  {
    hide QueryBinding, WriteBinding, Split, QueryBindings, JoinWith;
    var params := WriteAll(bs, keep, systemParams);
    forall i | 0 <= i < |params| ensures Free(params[i], '&') && params[i] != "" {
      WrittenIsFree(bs[i], keep, systemParams);
    }
    SplitUndoesJoinWith(params, '&');
    AllAreRead(bs, keep, systemParams);
  }
}
