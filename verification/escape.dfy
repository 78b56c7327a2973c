/** `escapeLatex` from lib/latex/template.ts: four global single-character
    replacement passes applied one after the other. Because the brace pass
    runs after the backslash pass, the braces of the inserted
    `\textbackslash{}` are escaped again, so a backslash becomes
    `\textbackslash\{\}`. */
module Escape {
  import opened Strings

  /** Replaces every character `c` of `s` by `f(c)`: one
      `s.replace(/c/g, ...)` over single-character patterns. */
  function FlatMap(s: string, f: char -> string): string
  {
    if |s| == 0 then "" else f(s[0]) + FlatMap(s[1..], f)
  }

  lemma {:induction false} FlatMapAppend(a: string, b: string, f: char -> string)
    ensures FlatMap(a + b, f) == FlatMap(a, f) + FlatMap(b, f)
  {
    if |a| > 0 {
      FlatMapAppend(a[1..], b, f);
      assert (a + b)[1..] == a[1..] + b;
    } else {
      assert a + b == b;
    }
  }

  lemma {:induction false} FlatMapPrepend(c: char, s: string, f: char -> string)
    ensures FlatMap([c] + s, f) == f(c) + FlatMap(s, f)
  {
    assert ([c] + s)[1..] == s;
  }

  /** The characters the second pass prefixes with a backslash. */
  const Specials: string := "&%$#_{}"

  function BackslashRule(c: char): string {
    if c == '\\' then "\\textbackslash{}" else [c]
  }

  function SpecialRule(c: char): string {
    if c in Specials then ['\\', c] else [c]
  }

  function TildeRule(c: char): string {
    if c == '~' then "\\textasciitilde{}" else [c]
  }

  function CaretRule(c: char): string {
    if c == '^' then "\\textasciicircum{}" else [c]
  }

  /** `escapeLatex(text)`, pass by pass as the source writes it. */
  function EscapeLatex(text: string): string
  {
    FlatMap(FlatMap(FlatMap(FlatMap(text, BackslashRule), SpecialRule), TildeRule), CaretRule)
  }

  /** What the four passes together do to a single character. */
  function EscapeChar(c: char): string
  {
    if c == '\\' then "\\textbackslash\\{\\}"
    else if c in Specials then ['\\', c]
    else if c == '~' then "\\textasciitilde{}"
    else if c == '^' then "\\textasciicircum{}"
    else [c]
  }

  /** The reserved characters of LaTeX the escaper is meant to neutralise. */
  predicate Reserved(c: char) {
    c == '\\' || c in Specials || c == '~' || c == '^'
  }

  /** Each reserved character is replaced by a sequence starting with a
      backslash; every other character is kept as it is. */
  lemma EscapeCharTable(c: char)
    ensures Reserved(c) ==> EscapeChar(c) != [c] && |EscapeChar(c)| >= 2 && EscapeChar(c)[0] == '\\'
    ensures !Reserved(c) ==> EscapeChar(c) == [c]
    ensures c in Specials ==> EscapeChar(c) == ['\\', c]
  {
  }

  /** A pass leaves text alone when it leaves each of its characters alone. */
  lemma {:induction false} FlatMapFixed(s: string, f: char -> string)
    requires forall i :: 0 <= i < |s| ==> f(s[i]) == [s[i]]
    ensures FlatMap(s, f) == s
  {
    if |s| > 0 {
      FlatMapFixed(s[1..], f);
      assert [s[0]] + s[1..] == s;
    }
  }

  lemma FlatMapSingle(c: char, f: char -> string)
    ensures FlatMap([c], f) == f(c)
  {
    FlatMapPrepend(c, "", f);
    assert [c] + "" == [c];
  }

  /** The four passes, written out for one character. */
  function Passes(c: char): string {
    FlatMap(FlatMap(FlatMap(FlatMap([c], BackslashRule), SpecialRule), TildeRule), CaretRule)
  }

  lemma BracePass(b: string)
    requires b == "{}"
    ensures FlatMap(b, SpecialRule) == "\\{\\}"
  {
    assert b == ['{'] + "}";
    FlatMapPrepend('{', "}", SpecialRule);
    FlatMapSingle('}', SpecialRule);
  }

  /** The brace pass turns the `\textbackslash{}` inserted by the backslash
      pass into `\textbackslash\{\}`. */
  lemma BracePassAfterBackslash(w: string, b: string)
    requires w == "\\textbackslash" && b == "{}"
    ensures FlatMap(w + b, SpecialRule) == w + "\\{\\}"
  {
    FlatMapAppend(w, b, SpecialRule);
    FlatMapFixed(w, SpecialRule);
    BracePass(b);
  }

  lemma LastPassesKeep(u: string)
    requires u == "\\textbackslash\\{\\}"
    ensures FlatMap(FlatMap(u, TildeRule), CaretRule) == u
  {
    FlatMapFixed(u, TildeRule);
    FlatMapFixed(u, CaretRule);
  }

  lemma PassesOnBackslash()
    ensures Passes('\\') == EscapeChar('\\')
  {
    FlatMapSingle('\\', BackslashRule);
    assert BackslashRule('\\') == "\\textbackslash" + "{}";
    BracePassAfterBackslash("\\textbackslash", "{}");
    assert "\\textbackslash" + "\\{\\}" == "\\textbackslash\\{\\}";
    LastPassesKeep("\\textbackslash\\{\\}");
  }

  lemma TildeFirstPasses()
    ensures FlatMap(FlatMap(FlatMap(['~'], BackslashRule), SpecialRule), TildeRule)
         == "\\textasciitilde{}"
  {
    FlatMapSingle('~', BackslashRule);
    FlatMapSingle('~', SpecialRule);
    FlatMapSingle('~', TildeRule);
  }

  lemma CaretPassKeeps(t: string)
    requires t == "\\textasciitilde{}"
    ensures FlatMap(t, CaretRule) == t
  {
    FlatMapFixed(t, CaretRule);
  }

  lemma EscapeCharTilde()
    ensures EscapeChar('~') == "\\textasciitilde{}"
  {
  }

  lemma PassesOnTilde()
    ensures Passes('~') == EscapeChar('~')
  {
    TildeFirstPasses();
    CaretPassKeeps("\\textasciitilde{}");
    EscapeCharTilde();
  }

  lemma PassesOnOther(c: char)
    requires c != '\\' && c != '~'
    ensures Passes(c) == EscapeChar(c)
  {
    FlatMapSingle(c, BackslashRule);
    FlatMapSingle(c, SpecialRule);
    if c in Specials {
      FlatMapFixed(['\\', c], TildeRule);
      FlatMapFixed(['\\', c], CaretRule);
    } else {
      FlatMapSingle(c, TildeRule);
      FlatMapSingle(c, CaretRule);
    }
  }

  /** The four passes applied to one character give the table entry. */
  lemma PassesOnChar(c: char)
    ensures Passes(c) == EscapeChar(c)
  {
    if c == '\\' {
      PassesOnBackslash();
    } else if c == '~' {
      PassesOnTilde();
    } else {
      PassesOnOther(c);
    }
  }

  /** The pass-by-pass escaper is the per-character table applied to every
      character, in order. */
  lemma {:induction false} EscapeIsPerChar(s: string)
    ensures EscapeLatex(s) == FlatMap(s, EscapeChar)
  {
    if |s| > 0 {
      var c, rest := s[0], s[1..];
      assert s == [c] + rest;
      EscapeIsPerChar(rest);
      var b1 := FlatMap([c], BackslashRule);
      var b2 := FlatMap(b1, SpecialRule);
      var b3 := FlatMap(b2, TildeRule);
      FlatMapAppend([c], rest, BackslashRule);
      FlatMapAppend(b1, FlatMap(rest, BackslashRule), SpecialRule);
      FlatMapAppend(b2, FlatMap(FlatMap(rest, BackslashRule), SpecialRule), TildeRule);
      FlatMapAppend(b3, FlatMap(FlatMap(FlatMap(rest, BackslashRule), SpecialRule), TildeRule), CaretRule);
      PassesOnChar(c);
    }
  }

  /** The empty string escapes to the empty string. */
  lemma EscapeEmpty()
    ensures EscapeLatex("") == ""
  {
  }

  /** A lone backslash comes out as `\textbackslash\{\}`, not `\textbackslash{}`:
      the brace pass re-escapes the braces the backslash pass inserted. */
  lemma EscapeLoneBackslash()
    ensures EscapeLatex("\\") == "\\textbackslash\\{\\}"
    ensures EscapeLatex("\\") != "\\textbackslash{}"
  {
    EscapeIsPerChar("\\");
    FlatMapPrepend('\\', "", EscapeChar);
    assert "\\" == ['\\'] + "";
  }

  /** Escaping works piecewise: the escape of a concatenation is the
      concatenation of the escapes. */
  lemma EscapeAppend(a: string, b: string)
    ensures EscapeLatex(a + b) == EscapeLatex(a) + EscapeLatex(b)
  {
    EscapeIsPerChar(a + b);
    EscapeIsPerChar(a);
    EscapeIsPerChar(b);
    FlatMapAppend(a, b, EscapeChar);
  }

  /** A single reserved character escapes to its table entry. */
  lemma EscapeOneChar(c: char)
    ensures EscapeLatex([c]) == EscapeChar(c)
  {
    EscapeIsPerChar([c]);
    FlatMapSingle(c, EscapeChar);
  }

  /** Text with no reserved character is left unchanged. */
  lemma {:induction false} EscapePlain(s: string)
    requires forall i :: 0 <= i < |s| ==> !Reserved(s[i])
    ensures EscapeLatex(s) == s
  {
    EscapeIsPerChar(s);
    PerCharPlain(s);
  }

  lemma {:induction false} PerCharPlain(s: string)
    requires forall i :: 0 <= i < |s| ==> !Reserved(s[i])
    ensures FlatMap(s, EscapeChar) == s
  {
    if |s| > 0 {
      PerCharPlain(s[1..]);
      assert [s[0]] + s[1..] == s;
    }
  }

  /* ---------------------------------------------------------------------
     Reading escaped text back
     --------------------------------------------------------------------- */

  /** Reads the escape sequences the escaper writes back into the characters
      they stand for; anything else is copied. */
  function Unescape(t: string): string
    decreases |t|
  {
    if |t| == 0 then ""
    else if t[0] != '\\' || |t| < 2 then [t[0]] + Unescape(t[1..])
    else if t[1] in Specials then [t[1]] + Unescape(t[2..])
    else if StartsWith(t, EscapeChar('\\')) then "\\" + Unescape(t[|EscapeChar('\\')|..])
    else if StartsWith(t, EscapeChar('~')) then "~" + Unescape(t[|EscapeChar('~')|..])
    else if StartsWith(t, EscapeChar('^')) then "^" + Unescape(t[|EscapeChar('^')|..])
    else [t[0]] + Unescape(t[1..])
  }

  lemma UnescapeStep(c: char, rest: string)
    ensures Unescape(EscapeChar(c) + rest) == [c] + Unescape(rest)
  {
    var e := EscapeChar(c);
    var t := e + rest;
    assert t[..|e|] == e;
    assert t[|e|..] == rest;
    assert forall k :: 0 <= k < |e| ==> t[k] == e[k];
    if c == '\\' {
      assert t[1] == 't';
    } else if c == '~' {
      assert t[1] == 't' && t[5] == 'a';
      assert !StartsWith(t, EscapeChar('\\')) by {
        assert EscapeChar('\\')[5] == 'b';
      }
    } else if c == '^' {
      assert t[1] == 't' && t[5] == 'a' && t[10] == 'c';
      assert !StartsWith(t, EscapeChar('\\')) by {
        assert EscapeChar('\\')[5] == 'b';
      }
      assert !StartsWith(t, EscapeChar('~')) by {
        assert EscapeChar('~')[10] == 't';
      }
    } else if c in Specials {
      assert t[0] == '\\' && t[1] == c;
      assert t[2..] == rest;
    } else {
      assert t[0] == c;
      assert t[1..] == rest;
    }
  }

  /** Escaping loses nothing: reading the output back recovers the input, so
      different texts never escape to the same LaTeX. */
  lemma {:induction false} EscapeRoundTrip(s: string)
    ensures Unescape(EscapeLatex(s)) == s
  {
    EscapeIsPerChar(s);
    PerCharRoundTrip(s);
  }

  lemma {:induction false} PerCharRoundTrip(s: string)
    ensures Unescape(FlatMap(s, EscapeChar)) == s
  {
    if |s| > 0 {
      PerCharRoundTrip(s[1..]);
      UnescapeStep(s[0], FlatMap(s[1..], EscapeChar));
      assert [s[0]] + s[1..] == s;
    }
  }

  /* ---------------------------------------------------------------------
     The shape of escaped text
     --------------------------------------------------------------------- */

  /** No `~` or `^`; each of `& % $ # _` right after a backslash; every
      backslash followed by a letter `t` (a text command) or by one of
      `& % $ # _ { }`; every brace not after a backslash part of an empty
      `{}` group. */
  ghost predicate LatexSafe(t: string) {
    NoTildeOrCaret(t) && SpecialsEscaped(t) && BackslashesLead(t) && RawBracesPaired(t)
  }

  ghost predicate NoTildeOrCaret(t: string) {
    forall i :: 0 <= i < |t| ==> t[i] != '~' && t[i] != '^'
  }

  ghost predicate SpecialsEscaped(t: string) {
    forall i :: 0 <= i < |t| && t[i] in "&%$#_" ==> 0 < i && t[i - 1] == '\\'
  }

  ghost predicate BackslashesLead(t: string) {
    forall i :: 0 <= i < |t| && t[i] == '\\' ==>
      i + 1 < |t| && (t[i + 1] == 't' || t[i + 1] in Specials)
  }

  /** The brace at `i` does not follow a backslash. */
  ghost predicate RawAt(t: string, i: int)
    requires 0 <= i < |t|
  {
    i == 0 || t[i - 1] != '\\'
  }

  ghost predicate RawBracesPaired(t: string) {
    && (forall i :: 0 <= i < |t| && t[i] == '{' && RawAt(t, i) ==> i + 1 < |t| && t[i + 1] == '}')
    && (forall i :: 0 <= i < |t| && t[i] == '}' && RawAt(t, i) ==> 0 < i && t[i - 1] == '{')
  }

  lemma RawBracesPairedAppend(a: string, b: string)
    requires RawBracesPaired(a) && RawBracesPaired(b)
    ensures RawBracesPaired(a + b)
  {
    var t := a + b;
    forall i | 0 <= i < |t| && t[i] == '{' && RawAt(t, i)
      ensures i + 1 < |t| && t[i + 1] == '}'
    {
      if i >= |a| {
        var j := i - |a|;
        assert b[j] == '{';
        assert j > 0 ==> b[j - 1] == t[i - 1];
        assert RawAt(b, j);
        assert t[i + 1] == b[j + 1];
      } else {
        assert a[i] == '{';
        assert i > 0 ==> a[i - 1] == t[i - 1];
        assert RawAt(a, i);
        assert t[i + 1] == a[i + 1];
      }
    }
    forall i | 0 <= i < |t| && t[i] == '}' && RawAt(t, i)
      ensures 0 < i && t[i - 1] == '{'
    {
      if i >= |a| {
        var j := i - |a|;
        assert b[j] == '}';
        assert j > 0 ==> b[j - 1] == t[i - 1];
        assert RawAt(b, j);
      } else {
        assert a[i] == '}';
        assert i > 0 ==> a[i - 1] == t[i - 1];
        assert RawAt(a, i);
      }
    }
  }

  lemma LatexSafeAppend(a: string, b: string)
    requires LatexSafe(a) && LatexSafe(b)
    ensures LatexSafe(a + b)
  {
    var t := a + b;
    assert forall i :: 0 <= i < |a| ==> t[i] == a[i];
    assert forall i :: |a| <= i < |t| ==> t[i] == b[i - |a|];
    RawBracesPairedAppend(a, b);
  }

  predicate Lower(c: char) {
    'a' <= c <= 'z'
  }

  /** A backslash followed by a lower-case command name starting with `t`. */
  lemma LatexSafeTextCommand(name: string)
    requires |name| > 0 && name[0] == 't'
    requires forall i :: 0 <= i < |name| ==> Lower(name[i])
    ensures LatexSafe("\\" + name)
  {
    var t := "\\" + name;
    assert forall i :: 1 <= i < |t| ==> t[i] == name[i - 1];
  }

  /** A text command followed by a tail: `\textbackslash` then `\{\}`, or
      `\textasciitilde` / `\textasciicircum` then `{}`. */
  lemma LatexSafeCommandThen(name: string, tail: string)
    requires |name| > 0 && name[0] == 't'
    requires forall i :: 0 <= i < |name| ==> Lower(name[i])
    requires tail == "\\{\\}" || tail == "{}"
    ensures LatexSafe("\\" + name + tail)
  {
    LatexSafeTextCommand(name);
    if tail == "{}" {
      assert LatexSafe(tail);
    } else {
      assert LatexSafe("\\{") && LatexSafe("\\}");
      LatexSafeAppend("\\{", "\\}");
      assert "\\{" + "\\}" == tail;
    }
    LatexSafeAppend("\\" + name, tail);
  }

  lemma LatexSafeBackslash()
    ensures LatexSafe(EscapeChar('\\'))
  {
    LatexSafeCommandThen("textbackslash", "\\{\\}");
    assert "\\" + "textbackslash" + "\\{\\}" == EscapeChar('\\');
  }

  lemma LatexSafeTilde()
    ensures LatexSafe(EscapeChar('~'))
  {
    LatexSafeCommandThen("textasciitilde", "{}");
    EscapeCharTilde();
    assert "\\" + "textasciitilde" + "{}" == EscapeChar('~');
  }

  lemma LatexSafeCaret()
    ensures LatexSafe(EscapeChar('^'))
  {
    LatexSafeCommandThen("textasciicircum", "{}");
    assert "\\" + "textasciicircum" + "{}" == EscapeChar('^');
  }

  /** A special character after its backslash, or any other character alone. */
  lemma LatexSafeShort(c: char)
    requires c != '\\' && c != '~' && c != '^'
    ensures LatexSafe(EscapeChar(c))
  {
    if c in Specials {
      assert EscapeChar(c) == ['\\', c];
    } else {
      assert EscapeChar(c) == [c];
    }
  }

  lemma LatexSafeChar(c: char)
    ensures LatexSafe(EscapeChar(c))
  {
    if c == '\\' {
      LatexSafeBackslash();
    } else if c == '~' {
      LatexSafeTilde();
    } else if c == '^' {
      LatexSafeCaret();
    } else {
      LatexSafeShort(c);
    }
  }

  lemma {:induction false} LatexSafePerChar(s: string)
    ensures LatexSafe(FlatMap(s, EscapeChar))
  {
    if |s| > 0 {
      LatexSafePerChar(s[1..]);
      LatexSafeChar(s[0]);
      LatexSafeAppend(EscapeChar(s[0]), FlatMap(s[1..], EscapeChar));
    } else {
      assert FlatMap(s, EscapeChar) == "";
    }
  }

  /** Every escaped string has the safe shape: no reserved character survives
      unescaped and every brace is balanced. */
  lemma EscapeIsSafe(s: string)
    ensures LatexSafe(EscapeLatex(s))
  {
    EscapeIsPerChar(s);
    LatexSafePerChar(s);
  }

  /** Escaped text cannot contain a command whose name does not start with
      `t`, such as `\href` or `\section`: user text cannot inject one. */
  lemma EscapedHasNoCommand(s: string, cmd: string)
    requires |cmd| >= 2 && cmd[0] == '\\' && cmd[1] != 't' && cmd[1] !in Specials
    ensures !Contains(EscapeLatex(s), cmd)
  {
    var t := EscapeLatex(s);
    EscapeIsSafe(s);
    forall i | 0 <= i && i + |cmd| <= |t|
      ensures !OccursAt(t, cmd, i)
    {
      assert t[i..i + |cmd|][0] == t[i] && t[i..i + |cmd|][1] == t[i + 1];
    }
  }
}
