/** Worked payloads: what the scanner does with braces inside words, newlines inside
    braces, whitespace inside bare paths, and brace-escaped paths. */
module DropScenarios {
  import opened Text
  import opened DropParser

  /** A maximal non-whitespace run is the match when the brace alternative cannot match:
      the run does not start with `{`, or no `}` follows before a newline. */
  lemma {:induction false} RunTaken(s: string, n: nat)
    requires s != [] && RunMatch(s, n)
    requires s[0] != '{' || CloseIndex(s[1..]).None?
    ensures !IsSpace(s[0]) && MatchLength(s) == n
  {
    MatchLengthIsPatternMatch(s);
    if s[0] == '{' {
      NoBraceMatch(s);
    }
  }

  /** A word, followed by whitespace or the end of the payload, is one raw match when the
      brace alternative cannot match at its start. */
  lemma {:induction false} WordTaken(w: string, rest: string)
    requires w != [] && (w[0] != '{' || CloseIndex((w + rest)[1..]).None?)
    requires forall i :: 0 <= i < |w| ==> !IsSpace(w[i])
    requires rest == [] || IsSpace(rest[0])
    ensures FindAll(w + rest) == [w] + FindAll(rest)
  {
    var s := w + rest;
    assert forall i :: 0 <= i < |w| ==> s[i] == w[i];
    assert |w| < |s| ==> s[|w|] == rest[0];
    RunTaken(s, |w|);
    FindAllUnfold(s);
    assert s[..|w|] == w && s[|w|..] == rest;
  }

  /** Braces inside a word do not escape spaces: `a{b c}` is the two raw matches `a{b` and `c}`. */
  lemma {:induction false} BraceInsideWord(s: string)
    requires s == "a{b c}"
    ensures FindAll(s) == ["a{b", "c}"]
  {
    var w, rest := "a{b", " c}";
    assert s == w + rest;
    WordTaken(w, rest);
    FindAllUnfold(rest);
    var u := rest[1..];
    assert u == "c}" && u + [] == u;
    WordTaken(u, []);
    assert FindAll([]) == [];
  }

  /** `.` does not match a newline, so a newline before the closing brace defeats the brace
      alternative: `{a<newline>b}` is the two raw matches `{a` and `b}`. */
  lemma {:induction false} NewlineInsideBraces(s: string)
    requires s == "{a\nb}"
    ensures FindAll(s) == ["{a", "b}"]
  {
    var w, rest := "{a", "\nb}";
    assert s == w + rest;
    assert s[1..] == "a\nb}" && s[1..][1..] == "\nb}";
    assert CloseIndex(s[1..]).None?;
    WordTaken(w, rest);
    FindAllUnfold(rest);
    var u := rest[1..];
    assert u == "b}" && u + [] == u;
    WordTaken(u, []);
    assert FindAll([]) == [];
  }

  /** `strip('{}')` removes every brace at either end, in any mix. */
  lemma {:induction false} StripMixedBraces(t1: string, t2: string, t3: string)
    requires t1 == "{{a}}" && t2 == "}a{" && t3 == "{}"
    ensures StripBraces(t1) == "a" && StripBraces(t2) == "a" && StripBraces(t3) == ""
  {
    assert t1 == "{{" + "a" + "}}";
    StripAround("{{", "a", "}}");
    assert t2 == "}" + "a" + "{";
    StripAround("}", "a", "{");
    assert t3 == "{" + "" + "}";
    StripAround("{", "", "}");
  }

  /** Two bare words separated by one whitespace character, of any kind, are two matches
      and two paths. */
  lemma {:induction false} SpaceSplits(a: string, c: char, b: string)
    requires a != [] && NoBraces(a) && forall i :: 0 <= i < |a| ==> !IsSpace(a[i])
    requires b != [] && NoBraces(b) && forall i :: 0 <= i < |b| ==> !IsSpace(b[i])
    requires IsSpace(c)
    ensures FindAll(a + [c] + b) == [a, b]
    ensures ParseDroppedFiles(a + [c] + b) == [a, b]
  {
    var rest := [c] + b;
    assert a + [c] + b == a + rest;
    assert rest[1..] == b + [];
    WordTaken(a, rest);
    FindAllUnfold(rest);
    WordTaken(b, []);
    assert FindAll([]) == [];
    ParseBare(a, rest);
    ParseUnfold(rest);
    ParseBare(b, []);
    assert ParseDroppedFiles([]) == [];
  }

  /** Python's `\s` includes non-ASCII whitespace such as U+3000 (ideographic space): a bare
      path holding one is split in two, and only its second part ends in `.docx`. */
  lemma IdeographicSpaceSplits(a: string, c: char, b: string)
    requires a == "a" && c == '\U{3000}' && b == "b.docx"
    ensures FindAll(a + [c] + b) == ["a", "b.docx"]
    ensures ParseDroppedFiles(a + [c] + b) == ["a", "b.docx"]
  {
    SpaceSplits(a, c, b);
  }

  /** A brace-escaped path followed by a bare path. */
  lemma {:induction false} EscapedThenBare(p: string, w: string)
    requires Escapable(p)
    requires w != [] && NoBraces(w) && forall i :: 0 <= i < |w| ==> !IsSpace(w[i])
    ensures ParseDroppedFiles("{" + p + "} " + w) == [p, w]
  {
    var rest := " " + w;
    assert "{" + p + "} " + w == "{" + p + "}" + rest;
    ParseWrapped(p, rest);
    ParseUnfold(rest);
    assert rest[1..] == w + [];
    ParseBare(w, []);
    assert ParseDroppedFiles([]) == [];
  }

  /** A brace-escaped path with a space followed by a plain path. */
  lemma {:induction false} EscapedPathThenPlainPath(data: string)
    requires data == "{My Docs/a.docx} b.docx"
    ensures ParseDroppedFiles(data) == ["My Docs/a.docx", "b.docx"]
  {
    var p, w := "My Docs/a.docx", "b.docx";
    assert data == "{" + p + "} " + w;
    EscapedThenBare(p, w);
  }
}
