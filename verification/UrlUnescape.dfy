/** Percent-decoding of path parts, api_spec/src/path_matcher.h; a char stands for a byte. */
module UrlUnescaping {
  import opened Wrappers
  import opened RequestPaths

  predicate IsReserved(c: char) {
    c in "!#$&'()*+,/:;=?@[]"
  }

  predicate IsHexDigit(c: char) {
    'a' <= c <= 'f' || 'A' <= c <= 'F' || '0' <= c <= '9'
  }

  function HexDigitToInt(c: char): (n: nat)
    requires IsHexDigit(c)
    ensures n < 16
  {
    var x := c as int;
    (if x > '9' as int then x + 9 else x) % 16
  }

  /** The reserved characters of section 2.2 of RFC 3986. */
  lemma ReservedIff(c: char)
    ensures IsReserved(c) <==> c in ":/?#[]@" || c in "!$&'()*+,;="
  {
  }

  /** Digits count from 0, letters of either case from 10. */
  lemma HexDigits(n: nat)
    ensures n < 10 ==> IsHexDigit("0123456789"[n]) && HexDigitToInt("0123456789"[n]) == n
    ensures 10 <= n < 16 ==>
              && IsHexDigit("abcdef"[n - 10]) && HexDigitToInt("abcdef"[n - 10]) == n
              && IsHexDigit("ABCDEF"[n - 10]) && HexDigitToInt("ABCDEF"[n - 10]) == n
  {
  }

  lemma HexDigitIff(c: char)
    ensures IsHexDigit(c) <==> c in "0123456789abcdefABCDEF"
  {
    var digits := "0123456789abcdefABCDEF";
    if '0' <= c <= '9' {
      assert c == digits[c as int - '0' as int];
    } else if 'a' <= c <= 'f' {
      assert c == digits[10 + c as int - 'a' as int];
    } else if 'A' <= c <= 'F' {
      assert c == digits[16 + c as int - 'A' as int];
    }
  }

  /** The byte that the three characters at i escape, unless it is to stay escaped. */
  function EscapedAt(src: string, i: nat, unescapeReserved: bool): Option<char> {
    if i + 2 < |src| && src[i] == '%' && IsHexDigit(src[i + 1]) && IsHexDigit(src[i + 2]) then
      var c := (HexDigitToInt(src[i + 1]) * 16 + HexDigitToInt(src[i + 2])) as char;
      if !unescapeReserved && IsReserved(c) then None else Some(c)
    else None
  }

  function Unescape(src: string, unescapeReserved: bool): string
    decreases |src|
  {
    if src == "" then ""
    else
      var c := EscapedAt(src, 0, unescapeReserved);
      if c.Some? then [c.value] + Unescape(src[3..], unescapeReserved)
      else [src[0]] + Unescape(src[1..], unescapeReserved)
  }

  lemma EscapedAtShift(src: string, i: nat, unescapeReserved: bool)
    requires i < |src|
    ensures EscapedAt(src[i..], 0, unescapeReserved) == EscapedAt(src, i, unescapeReserved)
  {
  }

  lemma {:induction false} NothingEscaped(src: string, i: nat, unescapeReserved: bool)
    requires i <= |src|
    requires forall k :: i <= k < |src| ==> EscapedAt(src, k, unescapeReserved).None?
    ensures Unescape(src[i..], unescapeReserved) == src[i..]
    decreases |src| - i
  {
    if i < |src| {
      EscapedAtShift(src, i, unescapeReserved);
      assert src[i..][1..] == src[i + 1..];
      NothingEscaped(src, i + 1, unescapeReserved);
    }
  }

  lemma {:induction false} UnescapeStep(src: string, i: nat, unescapeReserved: bool)
    requires i < |src|
    ensures var c := EscapedAt(src, i, unescapeReserved);
            Unescape(src[i..], unescapeReserved) ==
            if c.Some? then [c.value] + Unescape(src[i + 3..], unescapeReserved)
            else [src[i]] + Unescape(src[i + 1..], unescapeReserved)
  {
    EscapedAtShift(src, i, unescapeReserved);
    assert src[i..][1..] == src[i + 1..];
    if i + 2 < |src| { assert src[i..][3..] == src[i + 3..]; }
  }

  /** Copies into a buffer of the length of part, unless there is nothing to decode. */
  method UrlUnescapeString(part: string, unescapeReserved: bool) returns (unescaped: string)
    ensures unescaped == Unescape(part, unescapeReserved)
  {
    hide Unescape, EscapedAt;
    var needsUnescaping := false;
    for i := 0 to |part|
      invariant !needsUnescaping && forall k :: 0 <= k < i ==> EscapedAt(part, k, unescapeReserved).None?
    {
      if EscapedAt(part, i, unescapeReserved).Some? {
        needsUnescaping := true;
        break;
      }
    }
    assert part[0..] == part;
    if !needsUnescaping {
      NothingEscaped(part, 0, unescapeReserved);
      return part;
    }
    var buffer := new char[|part|];
    var p, i := 0, 0;
    while i < |part|
      invariant p <= i <= |part|
      invariant buffer[..p] + Unescape(part[i..], unescapeReserved) == Unescape(part, unescapeReserved)
      decreases |part| - i
      modifies buffer
    {
      UnescapeStep(part, i, unescapeReserved);
      EscapeFits(part, i, unescapeReserved);
      var c := EscapedAt(part, i, unescapeReserved);
      ghost var before := buffer[..p];
      buffer[p] := if c.Some? then c.value else part[i];
      i := if c.Some? then i + 3 else i + 1;
      p := p + 1;
      assert buffer[..p] == before + [buffer[p - 1]];
      OneMoreCharacter(before, buffer[p - 1], Unescape(part[i..], unescapeReserved));
    }
    EmptyUnescapes(part[i..], unescapeReserved);
    return buffer[..p];
  }

  lemma OneMoreCharacter(before: string, c: char, rest: string)
    ensures (before + [c]) + rest == before + ([c] + rest)
  {
  }

  lemma EscapeFits(src: string, i: nat, unescapeReserved: bool)
    ensures EscapedAt(src, i, unescapeReserved).Some? ==> i + 2 < |src|
  {
  }

  lemma {:induction false} EmptyUnescapes(src: string, unescapeReserved: bool)
    requires src == ""
    ensures Unescape(src, unescapeReserved) == ""
  {
  }

  // ----- decoding undoes encoding

  function HexDigitOf(n: nat): (c: char)
    requires n < 16
    ensures IsHexDigit(c) && HexDigitToInt(c) == n
  {
    "0123456789ABCDEF"[n]
  }

  predicate Bytes(s: string) {
    forall i :: 0 <= i < |s| ==> s[i] as int < 256
  }

  function EscapeChar(c: char): string
    requires c as int < 256
  {
    ['%', HexDigitOf(c as int / 16), HexDigitOf(c as int % 16)]
  }

  /** Percent-encoding, section 2.1 of RFC 3986, of all but the characters to keep. */
  function Escape(s: string, keep: char -> bool): string
    requires Bytes(s)
  {
    if s == "" then ""
    else (if keep(s[0]) then [s[0]] else EscapeChar(s[0])) + Escape(s[1..], keep)
  }

  /** Decoding gives back what was encoded; if reserved characters stay, those that were encoded do. */
  lemma {:induction false} UnescapeUndoesEscape(s: string, keep: char -> bool, unescapeReserved: bool)
    requires Bytes(s) && !keep('%')
    ensures Unescape(Escape(s, keep), unescapeReserved) ==
            if unescapeReserved then s else Escape(s, c => keep(c) || !IsReserved(c))
    decreases |s|
  {
    hide Unescape, EscapeChar, IsReserved;
    EmptyUnescapes("", unescapeReserved);
    if s != "" {
      var more := Escape(s[1..], keep);
      UnescapeUndoesEscape(s[1..], keep, unescapeReserved);
      if keep(s[0]) {
        KeptIsCopied(s[0], more, unescapeReserved);
      } else if IsReserved(s[0]) && !unescapeReserved {
        EscapeStays(s[0], more);
      } else {
        EscapeIsDecoded(s[0], more, unescapeReserved);
      }
    }
  }

  lemma {:induction false} KeptIsCopied(c: char, more: string, unescapeReserved: bool)
    requires c != '%'
    ensures Unescape([c] + more, unescapeReserved) == [c] + Unescape(more, unescapeReserved)
  {
    hide Unescape;
    UnescapeStep([c] + more, 0, unescapeReserved);
    assert ([c] + more)[0..] == [c] + more && ([c] + more)[1..] == more;
  }

  lemma {:induction false} EscapeIsDecoded(c: char, more: string, unescapeReserved: bool)
    requires c as int < 256 && (IsReserved(c) ==> unescapeReserved)
    ensures Unescape(EscapeChar(c) + more, unescapeReserved) == [c] + Unescape(more, unescapeReserved)
  {
    hide Unescape;
    var s := EscapeChar(c) + more;
    UnescapeStep(s, 0, unescapeReserved);
    assert s[0..] == s && s[3..] == more;
  }

  lemma {:induction false} EscapeStays(c: char, more: string)
    requires c as int < 256 && IsReserved(c)
    ensures Unescape(EscapeChar(c) + more, false) == EscapeChar(c) + Unescape(more, false)
  {
    hide Unescape, IsReserved, EscapedAt;
    var s := EscapeChar(c) + more;
    ReservedStays(c, more);
    UnescapeStep(s, 0, false);
    UnescapeStep(s, 1, false);
    UnescapeStep(s, 2, false);
    assert s[0..] == s && s[3..] == more;
  }

  lemma ReservedStays(c: char, more: string)
    requires c as int < 256 && IsReserved(c)
    ensures forall i :: 0 <= i < 3 ==> EscapedAt(EscapeChar(c) + more, i, false).None?
  {
    hide IsReserved;
  }

  /** Decoding that leaves reserved characters brings no new ones. */
  lemma {:induction false} NoNewReserved(s: string, c: char)
    requires IsReserved(c) && Free(s, c)
    ensures Free(Unescape(s, false), c)
    decreases |s|
  {
    if s != "" {
      var e := EscapedAt(s, 0, false);
      NoNewReserved(if e.Some? then s[3..] else s[1..], c);
    }
  }
}
