/**
 * The drop-payload parser of `DocxToPdfApp.parse_dropped_files`: `re.findall` of the
 * pattern `\{.*?\}|\S+` over the payload, followed by `strip('{}')` of every match.
 * The regex is modelled as a left-to-right scanner with Python `re` semantics:
 * at each position the brace alternative is tried first (`.` does not match a newline),
 * then the maximal non-whitespace run; whitespace between matches is skipped.
 */
module DropParser {
  import opened Wrappers
  import opened Text

  /** The half-open range [start, end) of one match in the payload. */
  datatype Span = Span(start: nat, end: nat)

  /** Where the lazy `.*?\}` after an opening brace stops inside `t` (the text after the `{`),
      if it matches at all. */
  function CloseIndex(t: string): (r: Option<nat>)
    ensures r.Some? ==> r.value < |t|
    decreases |t|
  {
    if t == [] then None
    else if t[0] == '}' then Some(0)
    else if t[0] == '\n' then None
    else match CloseIndex(t[1..])
      case Some(j) => Some(j + 1)
      case None => None
  }

  /** The lazy scan stops at the first `}`, provided no newline comes before it, and fails
      exactly when every `}` has a newline before it. */
  lemma {:induction false} CloseIndexStops(t: string)
    ensures CloseIndex(t).Some? ==>
      && t[CloseIndex(t).value] == '}'
      && forall i :: 0 <= i < CloseIndex(t).value ==> t[i] != '}' && t[i] != '\n'
    ensures CloseIndex(t).None? ==>
      forall i :: 0 <= i < |t| && t[i] == '}' ==> exists j :: 0 <= j < i && t[j] == '\n'
    decreases |t|
  {
    if t != [] && t[0] != '}' && t[0] != '\n' {
      var u := t[1..];
      CloseIndexStops(u);
      if CloseIndex(u).Some? {
        var c := CloseIndex(u).value;
        assert t[c + 1] == u[c];
        forall i | 0 < i < c + 1 ensures t[i] != '}' && t[i] != '\n' {
          assert t[i] == u[i - 1];
        }
      } else {
        forall i | 0 < i < |t| && t[i] == '}' ensures exists j :: 0 <= j < i && t[j] == '\n' {
          assert u[i - 1] == '}';
          var j :| 0 <= j < i - 1 && u[j] == '\n';
          assert t[j + 1] == '\n';
        }
      }
    } else if t != [] && t[0] == '\n' {
      forall i | 0 < i < |t| && t[i] == '}' ensures exists j :: 0 <= j < i && t[j] == '\n' {
        assert t[0] == '\n';
      }
    }
  }

  /** `s` starts with a match of length `n` of the brace alternative `\{.*?\}`. */
  ghost predicate BraceMatch(s: string, n: nat) {
    && 2 <= n <= |s| && s[0] == '{' && s[n - 1] == '}'
    && forall i :: 1 <= i < n - 1 ==> s[i] != '}' && s[i] != '\n'
  }

  /** `s` starts with a match of length `n` of the alternative `\S+` (greedy, so maximal). */
  ghost predicate RunMatch(s: string, n: nat) {
    && 0 < n <= |s|
    && (forall i :: 0 <= i < n ==> !IsSpace(s[i]))
    && (n == |s| || IsSpace(s[n]))
  }

  /** Length of the longest prefix of `s` free of whitespace. */
  function RunLength(s: string): (n: nat)
    ensures n <= |s|
    ensures forall i :: 0 <= i < n ==> !IsSpace(s[i])
    ensures n == |s| || IsSpace(s[n])
    decreases |s|
  {
    if s == [] || IsSpace(s[0]) then 0 else 1 + RunLength(s[1..])
  }

  lemma NoBraceMatch(s: string)
    requires s != [] && CloseIndex(s[1..]).None?
    ensures forall m :: !BraceMatch(s, m)
  {
    var t := s[1..];
    CloseIndexStops(t);
    forall j | 1 <= j < |s| && s[j] == '}'
      ensures exists i :: 1 <= i < j && s[i] == '\n'
    {
      assert t[j - 1] == '}';
      var i :| 0 <= i < j - 1 && t[i] == '\n';
      assert s[i + 1] == '\n';
    }
  }

  /** Length of the match of `\{.*?\}|\S+` at the start of `s`, which begins with a
      non-whitespace character. */
  function MatchLength(s: string): (n: nat)
    requires s != [] && !IsSpace(s[0])
    ensures 0 < n <= |s|
  {
    if s[0] == '{' then
      match CloseIndex(s[1..])
      case Some(j) => j + 2
      case None => RunLength(s)
    else
      RunLength(s)
  }

  /** The match is the leftmost alternative that matches: the brace alternative whenever it
      matches at all, otherwise the maximal non-whitespace run. */
  lemma MatchLengthIsPatternMatch(s: string)
    requires s != [] && !IsSpace(s[0])
    ensures BraceMatch(s, MatchLength(s))
      || ((forall m :: !BraceMatch(s, m)) && RunMatch(s, MatchLength(s)))
  {
    if s[0] == '{' {
      var t := s[1..];
      CloseIndexStops(t);
      if CloseIndex(t).None? {
        NoBraceMatch(s);
      } else {
        var j := CloseIndex(t).value;
        assert s[j + 1] == t[j];
        assert forall i :: 1 <= i < j + 1 ==> s[i] == t[i - 1];
      }
    }
  }

  /** The brace alternative has at most one match at a position: `.*?` stops at the nearest `}`. */
  lemma BraceMatchUnique(s: string, n: nat, m: nat)
    requires BraceMatch(s, n) && BraceMatch(s, m)
    ensures n == m
  {
  }

  function Shift(ms: seq<Span>, d: nat): (r: seq<Span>)
    ensures |r| == |ms|
  {
    seq(|ms|, k requires 0 <= k < |ms| => Span(ms[k].start + d, ms[k].end + d))
  }

  /** The spans `re.finditer` reports for the pattern over `s`, from left to right:
      non-empty, inside `s`, non-overlapping and in increasing order. */
  function Matches(s: string): (ms: seq<Span>)
    ensures forall k :: 0 <= k < |ms| ==> ms[k].start < ms[k].end <= |s|
    ensures forall k :: 0 < k < |ms| ==> ms[k - 1].end <= ms[k].start
    decreases |s|
  {
    if s == [] then []
    else if IsSpace(s[0]) then Shift(Matches(s[1..]), 1)
    else
      var n := MatchLength(s);
      [Span(0, n)] + Shift(Matches(s[n..]), n)
  }

  /** `re.findall(r'\{.*?\}|\S+', s)`: the matched substrings. */
  function FindAll(s: string): (r: seq<string>)
    ensures |r| == |Matches(s)|
    ensures forall k :: 0 <= k < |r| ==> r[k] != []
  {
    var ms := Matches(s);
    seq(|ms|, k requires 0 <= k < |ms| => s[ms[k].start..ms[k].end])
  }

  /** Where the scan for leading braces from `i` stops: the first position at or after `i`
      that is not a brace, or the end of `t`. */
  function LeadEnd(t: string, i: nat): (n: nat)
    requires i <= |t|
    ensures i <= n <= |t|
    ensures forall j :: i <= j < n ==> IsBrace(t[j])
    ensures n == |t| || !IsBrace(t[n])
    decreases |t| - i
  {
    if i < |t| && IsBrace(t[i]) then LeadEnd(t, i + 1) else i
  }

  /** Where the scan for trailing braces down from `k` stops, never going below `lo`: just
      after the last position before `k` that is not a brace, or `lo`. */
  function TrailStart(t: string, lo: nat, k: nat): (n: nat)
    requires lo <= k <= |t|
    ensures lo <= n <= k
    ensures forall j :: n <= j < k ==> IsBrace(t[j])
    ensures n == lo || !IsBrace(t[n - 1])
    decreases k
  {
    if lo < k && IsBrace(t[k - 1]) then TrailStart(t, lo, k - 1) else k
  }

  /** `t` is `r` with only braces before it (the first `i` characters) and only braces after it. */
  ghost predicate BracesAround(t: string, r: string, i: nat) {
    && i + |r| <= |t| && t[i..i + |r|] == r
    && (forall j :: 0 <= j < i ==> IsBrace(t[j]))
    && (forall j :: i + |r| <= j < |t| ==> IsBrace(t[j]))
  }

  /** `str.strip('{}')`: removes every leading and every trailing `{` or `}`, in any mix. */
  function StripBraces(t: string): (r: string)
    ensures |r| <= |t|
    ensures r == [] || (!IsBrace(r[0]) && !IsBrace(r[|r| - 1]))
    ensures (t == [] || (!IsBrace(t[0]) && !IsBrace(t[|t| - 1]))) ==> r == t
  {
    var a := LeadEnd(t, 0);
    t[a..TrailStart(t, a, |t|)]
  }

  /** What stripping removes is braces only: the result is a slice of `t` with nothing but
      braces before and after it. */
  lemma StripRemovesOnlyBraces(t: string)
    ensures BracesAround(t, StripBraces(t), LeadEnd(t, 0))
  {
  }

  /** Every character of `s` is a brace. */
  predicate AllBraces(s: string) {
    forall j :: 0 <= j < |s| ==> IsBrace(s[j])
  }

  /** Stripping removes exactly the braces around a path that neither starts nor ends with
      a brace, however many there are and in whatever mix. */
  lemma StripAround(lead: string, p: string, trail: string)
    requires AllBraces(lead) && AllBraces(trail)
    requires p == [] || (!IsBrace(p[0]) && !IsBrace(p[|p| - 1]))
    ensures StripBraces(lead + p + trail) == p
  {
    var t := lead + p + trail;
    var a := LeadEnd(t, 0);
    assert forall j :: 0 <= j < |lead| ==> t[j] == lead[j];
    assert forall j :: |lead| + |p| <= j < |t| ==> t[j] == trail[j - |lead| - |p|];
    if p == [] {
      assert a == |t|;
    } else {
      assert t[|lead|] == p[0] && t[|lead| + |p| - 1] == p[|p| - 1];
      assert a == |lead|;
      assert TrailStart(t, a, |t|) == |lead| + |p|;
      assert t[|lead|..|lead| + |p|] == p;
    }
  }

  /** Stripping is idempotent: a stripped path is left as it is. */
  lemma StripBracesIdempotent(t: string)
    ensures StripBraces(StripBraces(t)) == StripBraces(t)
  {
  }

  /** `parse_dropped_files`: one cleaned path per match, in payload order. Every path
      neither starts nor ends with a brace. */
  function ParseDroppedFiles(data: string): (files: seq<string>)
    ensures |files| == |Matches(data)|
    ensures forall k :: 0 <= k < |files| ==>
      files[k] == [] || (!IsBrace(files[k][0]) && !IsBrace(files[k][|files[k]| - 1]))
  {
    var raw := FindAll(data);
    seq(|raw|, k requires 0 <= k < |raw| => StripBraces(raw[k]))
  }

  // ---------------------------------------------------------------------------
  // How the scan proceeds: one step at a time from the left.

  /** Matches found in a suffix `s[d..]`, moved by `d`, cut the same substrings out of `s`. */
  lemma ShiftedSlices(s: string, d: nat, ms: seq<Span>)
    requires d <= |s|
    requires forall k :: 0 <= k < |ms| ==> ms[k].start <= ms[k].end <= |s| - d
    ensures forall k :: 0 <= k < |ms| ==>
      s[Shift(ms, d)[k].start..Shift(ms, d)[k].end] == s[d..][ms[k].start..ms[k].end]
  {
    forall k | 0 <= k < |ms|
      ensures s[Shift(ms, d)[k].start..Shift(ms, d)[k].end] == s[d..][ms[k].start..ms[k].end]
    {
      assert s[ms[k].start + d..ms[k].end + d] == s[d..][ms[k].start..ms[k].end];
    }
  }

  lemma FindAllSkip(s: string)
    requires s != [] && IsSpace(s[0])
    ensures FindAll(s) == FindAll(s[1..])
  {
    ShiftedSlices(s, 1, Matches(s[1..]));
  }

  lemma FindAllTake(s: string)
    requires s != [] && !IsSpace(s[0])
    ensures FindAll(s) == [s[..MatchLength(s)]] + FindAll(s[MatchLength(s)..])
  {
    var n := MatchLength(s);
    var mt := Matches(s[n..]);
    ShiftedSlices(s, n, mt);
    assert Matches(s) == [Span(0, n)] + Shift(mt, n);
    assert |FindAll(s)| == 1 + |FindAll(s[n..])|;
  }

  lemma FindAllUnfold(s: string)
    requires s != []
    ensures IsSpace(s[0]) ==> FindAll(s) == FindAll(s[1..])
    ensures !IsSpace(s[0]) ==> FindAll(s) == [s[..MatchLength(s)]] + FindAll(s[MatchLength(s)..])
  {
    if IsSpace(s[0]) { FindAllSkip(s); } else { FindAllTake(s); }
  }

  lemma ParseUnfold(s: string)
    requires s != []
    ensures IsSpace(s[0]) ==> ParseDroppedFiles(s) == ParseDroppedFiles(s[1..])
    ensures !IsSpace(s[0]) ==>
      ParseDroppedFiles(s) == [StripBraces(s[..MatchLength(s)])] + ParseDroppedFiles(s[MatchLength(s)..])
  {
    FindAllUnfold(s);
  }

  // ---------------------------------------------------------------------------
  // What findall reports.

  /** `m` is the match of the pattern at its own start in `s`, which is not whitespace. */
  /** Every string `findall` returns is in the language of the pattern: a `{…}` group with
      no `}` or newline inside, or a run of non-whitespace characters. */
  lemma FindAllInPattern(s: string)
    ensures forall k :: 0 <= k < |FindAll(s)| ==>
      BraceMatch(FindAll(s)[k], |FindAll(s)[k]|) || RunMatch(FindAll(s)[k], |FindAll(s)[k]|)
  {
    var ms, r := Matches(s), FindAll(s);
    MatchesAreRegexMatches(s);
    forall k | 0 <= k < |r| ensures BraceMatch(r[k], |r[k]|) || RunMatch(r[k], |r[k]|) {
      var t, n := s[ms[k].start..], ms[k].end - ms[k].start;
      MatchLengthIsPatternMatch(t);
      assert r[k] == t[..n];
    }
  }

  ghost predicate IsRegexMatch(s: string, m: Span) {
    m.start < |s| && !IsSpace(s[m.start]) && MatchLength(s[m.start..]) == m.end - m.start
  }

  lemma {:induction false} RegexMatchShift(s: string, d: nat, m: Span)
    requires d <= |s| && IsRegexMatch(s[d..], m)
    ensures IsRegexMatch(s, Span(m.start + d, m.end + d))
  {
    var a, b := s[m.start + d..], s[d..][m.start..];
    assert a == b;
    assert s[m.start + d] == s[d..][m.start];
  }

  lemma RegexMatchesShift(s: string, d: nat, ms: seq<Span>)
    requires d <= |s|
    requires forall k :: 0 <= k < |ms| ==> IsRegexMatch(s[d..], ms[k])
    ensures forall k :: 0 <= k < |ms| ==> IsRegexMatch(s, Shift(ms, d)[k])
  {
    forall k | 0 <= k < |ms| ensures IsRegexMatch(s, Shift(ms, d)[k]) {
      var m := ms[k];
      RegexMatchShift(s, d, m);
      assert Shift(ms, d)[k] == Span(m.start + d, m.end + d);
    }
  }

  /** Every reported span is exactly the match of the pattern at its own start, and
      it starts on a non-whitespace character. */
  lemma {:induction false} MatchesAreRegexMatches(s: string)
    ensures forall k :: 0 <= k < |Matches(s)| ==> IsRegexMatch(s, Matches(s)[k])
    decreases |s|
  {
    if s == [] {
    } else if IsSpace(s[0]) {
      MatchesAreRegexMatches(s[1..]);
      RegexMatchesShift(s, 1, Matches(s[1..]));
    } else {
      var d := MatchLength(s);
      MatchesAreRegexMatches(s[d..]);
      RegexMatchesShift(s, d, Matches(s[d..]));
      assert s[0..] == s;
      assert IsRegexMatch(s, Span(0, d));
      var ms := Matches(s);
      assert ms == [Span(0, d)] + Shift(Matches(s[d..]), d);
      forall k | 0 <= k < |ms| ensures IsRegexMatch(s, ms[k]) {
        if k > 0 { assert ms[k] == Shift(Matches(s[d..]), d)[k - 1]; }
      }
    }
  }

  /** The position `p` lies inside one of the spans. */
  ghost predicate Covered(ms: seq<Span>, p: nat) {
    exists k :: 0 <= k < |ms| && ms[k].start <= p < ms[k].end
  }

  lemma CoveredShift(ms: seq<Span>, d: nat, p: nat)
    requires Covered(ms, p)
    ensures Covered(Shift(ms, d), p + d)
  {
    var k :| 0 <= k < |ms| && ms[k].start <= p < ms[k].end;
    assert Shift(ms, d)[k] == Span(ms[k].start + d, ms[k].end + d);
  }

  lemma CoveredPrepend(m: Span, ms: seq<Span>, p: nat)
    requires Covered(ms, p)
    ensures Covered([m] + ms, p)
  {
    var k :| 0 <= k < |ms| && ms[k].start <= p < ms[k].end;
    assert ([m] + ms)[k + 1] == ms[k];
  }

  /** The gaps of a payload that starts with whitespace are that character and the gaps of
      the rest. */
  lemma {:induction false} GapsSkip(s: string)
    requires s != [] && IsSpace(s[0])
    requires forall p :: 0 <= p < |s| - 1 && !Covered(Matches(s[1..]), p) ==> IsSpace(s[1..][p])
    ensures forall p :: 0 <= p < |s| && !Covered(Matches(s), p) ==> IsSpace(s[p])
  {
    var mt := Matches(s[1..]);
    assert Matches(s) == Shift(mt, 1);
    forall p | 0 < p < |s| && !IsSpace(s[p]) ensures Covered(Matches(s), p) {
      assert s[1..][p - 1] == s[p];
      CoveredShift(mt, 1, p - 1);
    }
  }

  /** The gaps of a payload that starts with a match are the gaps of the rest after it. */
  lemma {:induction false} GapsTake(s: string)
    requires s != [] && !IsSpace(s[0])
    requires var t := s[MatchLength(s)..];
      forall p :: 0 <= p < |t| && !Covered(Matches(t), p) ==> IsSpace(t[p])
    ensures forall p :: 0 <= p < |s| && !Covered(Matches(s), p) ==> IsSpace(s[p])
  {
    var d := MatchLength(s);
    var t := s[d..];
    var mt := Matches(t);
    assert Matches(s) == [Span(0, d)] + Shift(mt, d);
    forall p | 0 <= p < d ensures Covered(Matches(s), p) {
      assert Matches(s)[0] == Span(0, d);
    }
    forall p | d <= p < |s| && !IsSpace(s[p]) ensures Covered(Matches(s), p) {
      assert t[p - d] == s[p];
      CoveredShift(mt, d, p - d);
      CoveredPrepend(Span(0, d), Shift(mt, d), p);
    }
  }

  /** findall skips nothing but whitespace: every character outside the matches is whitespace. */
  lemma {:induction false} GapsAreWhitespace(s: string)
    ensures forall p :: 0 <= p < |s| && !Covered(Matches(s), p) ==> IsSpace(s[p])
    decreases |s|
  {
    if s != [] {
      if IsSpace(s[0]) {
        GapsAreWhitespace(s[1..]);
        GapsSkip(s);
      } else {
        GapsAreWhitespace(s[MatchLength(s)..]);
        GapsTake(s);
      }
    }
  }

  // ---------------------------------------------------------------------------
  // Payloads without braces, blank payloads and the brace-escaping convention.

  /** An empty or all-whitespace payload holds no path. */
  lemma {:induction false} BlankPayload(data: string)
    requires forall i :: 0 <= i < |data| ==> IsSpace(data[i])
    ensures ParseDroppedFiles(data) == []
    decreases |data|
  {
    if data != [] {
      ParseUnfold(data);
      BlankPayload(data[1..]);
    }
  }

  /** A payload that is one word without whitespace or braces is that one path. */
  lemma ParseWord(w: string)
    requires w != [] && NoBraces(w)
    requires forall i :: 0 <= i < |w| ==> !IsSpace(w[i])
    ensures ParseDroppedFiles(w) == [w]
  {
    assert RunMatch(w, |w|);
    ParseUnfold(w);
    assert w[..|w|] == w && w[|w|..] == [];
    assert ParseDroppedFiles([]) == [];
  }

  /** Python's `str.split()` with no argument: the maximal runs of non-whitespace, in order. */
  function Split(s: string): (words: seq<string>)
    ensures forall k :: 0 <= k < |words| ==>
      words[k] != [] && forall i :: 0 <= i < |words[k]| ==> !IsSpace(words[k][i])
    decreases |s|
  {
    if s == [] then []
    else if IsSpace(s[0]) then Split(s[1..])
    else
      var n := RunLength(s);
      [s[..n]] + Split(s[n..])
  }

  /** A payload without braces parses to its whitespace-separated words, in order,
      duplicates kept: the brace alternative never fires and stripping changes nothing. */
  lemma {:induction false} BraceFreePayload(data: string)
    requires NoBraces(data)
    ensures ParseDroppedFiles(data) == Split(data)
    decreases |data|
  {
    if data != [] {
      ParseUnfold(data);
      if IsSpace(data[0]) {
        BraceFreePayload(data[1..]);
      } else {
        var n := MatchLength(data);
        assert n == RunLength(data);
        var w := data[..n];
        assert StripBraces(w) == w by {
          assert !IsBrace(w[0]) && !IsBrace(w[|w| - 1]);
        }
        BraceFreePayload(data[n..]);
      }
    }
  }

  /** The words joined by single spaces. */
  function JoinSpaced(words: seq<string>): string
    decreases |words|
  {
    if words == [] then []
    else if |words| == 1 then words[0]
    else words[0] + " " + JoinSpaced(words[1..])
  }

  /** Splitting undoes joining by single spaces, for non-empty words free of whitespace. */
  lemma {:induction false} SplitJoinSpaced(words: seq<string>)
    requires forall k :: 0 <= k < |words| ==> words[k] != []
    requires forall k, i :: 0 <= k < |words| && 0 <= i < |words[k]| ==> !IsSpace(words[k][i])
    ensures Split(JoinSpaced(words)) == words
    decreases |words|
  {
    if words != [] {
      var w := words[0];
      var rest := if |words| == 1 then [] else " " + JoinSpaced(words[1..]);
      var s := JoinSpaced(words);
      assert s == w + rest;
      assert s[0] == w[0];
      var n := RunLength(s);
      assert forall i :: 0 <= i < |w| ==> s[i] == w[i];
      assert |w| < |s| ==> s[|w|] == ' ';
      assert n == |w|;
      assert s[..n] == w;
      assert s[n..] == rest;
      if |words| > 1 {
        assert rest[1..] == JoinSpaced(words[1..]);
        SplitJoinSpaced(words[1..]);
      }
    }
  }

  /** Whether a path must be wrapped in braces to survive the split at whitespace: when it
      is empty or holds whitespace. */
  predicate NeedsBraces(path: string) {
    path == [] || exists i :: 0 <= i < |path| && IsSpace(path[i])
  }

  /** One path in the brace-escaping convention, wrapped in braces or bare. */
  function Quote(path: string, wrap: bool): string {
    if wrap then "{" + path + "}" else path
  }

  /** A payload in the brace-escaping convention: each path quoted as its flag says, the
      quoted paths separated by single spaces. */
  function Serialize(paths: seq<string>, wrap: seq<bool>): string
    requires |wrap| == |paths|
    decreases |paths|
  {
    if paths == [] then []
    else if |paths| == 1 then Quote(paths[0], wrap[0])
    else Quote(paths[0], wrap[0]) + " " + Serialize(paths[1..], wrap[1..])
  }

  /** One flag per path, and every path that needs braces gets them; any other path may be
      wrapped too. */
  predicate WrapsWhereNeeded(paths: seq<string>, wrap: seq<bool>) {
    |wrap| == |paths| && forall k :: 0 <= k < |paths| && NeedsBraces(paths[k]) ==> wrap[k]
  }

  /** A path the brace-escaping convention can carry: no brace and no newline. */
  predicate Escapable(path: string) {
    forall i :: 0 <= i < |path| ==> path[i] != '{' && path[i] != '}' && path[i] != '\n'
  }

  lemma {:induction false} CloseAfter(p: string, rest: string)
    requires Escapable(p)
    ensures CloseIndex(p + "}" + rest) == Some(|p|)
    decreases |p|
  {
    if p != [] {
      assert (p + "}" + rest)[1..] == p[1..] + "}" + rest;
      CloseAfter(p[1..], rest);
    }
  }

  lemma StripWrapped(p: string)
    requires Escapable(p)
    ensures StripBraces("{" + p + "}") == p
  {
    StripAround("{", p, "}");
  }

  /** A brace-wrapped path at the front of the payload is taken whole, then the scan goes on. */
  lemma ParseWrapped(p: string, rest: string)
    requires Escapable(p)
    ensures ParseDroppedFiles("{" + p + "}" + rest) == [p] + ParseDroppedFiles(rest)
  {
    var s := "{" + p + "}" + rest;
    assert s[1..] == p + "}" + rest;
    CloseAfter(p, rest);
    assert MatchLength(s) == |p| + 2;
    assert s[..|p| + 2] == "{" + p + "}";
    StripWrapped(p);
    assert s[|p| + 2..] == rest;
    ParseUnfold(s);
  }

  /** A bare path at the front of the payload, ended by whitespace or by the end of the
      payload, is taken whole, then the scan goes on. */
  lemma ParseBare(p: string, rest: string)
    requires p != [] && NoBraces(p)
    requires forall i :: 0 <= i < |p| ==> !IsSpace(p[i])
    requires rest == [] || IsSpace(rest[0])
    ensures ParseDroppedFiles(p + rest) == [p] + ParseDroppedFiles(rest)
  {
    var s := p + rest;
    assert s[0] == p[0];
    assert forall i :: 0 <= i < |p| ==> s[i] == p[i];
    assert |p| < |s| ==> s[|p|] == rest[0];
    assert MatchLength(s) == |p|;
    assert s[..|p|] == p && s[|p|..] == rest;
    assert !IsBrace(p[0]) && !IsBrace(p[|p| - 1]);
    ParseUnfold(s);
  }

  /** Round trip of the brace-escaping convention: parsing the serialised payload gives back
      the paths, whichever of them were written bare and whichever wrapped in braces. */
  lemma {:induction false} ParseSerialized(paths: seq<string>, wrap: seq<bool>)
    requires forall k :: 0 <= k < |paths| ==> Escapable(paths[k])
    requires WrapsWhereNeeded(paths, wrap)
    ensures ParseDroppedFiles(Serialize(paths, wrap)) == paths
    decreases |paths|
  {
    if paths != [] {
      var p := paths[0];
      var rest := if |paths| == 1 then [] else " " + Serialize(paths[1..], wrap[1..]);
      assert Serialize(paths, wrap) == Quote(p, wrap[0]) + rest;
      if wrap[0] {
        assert Quote(p, wrap[0]) + rest == "{" + p + "}" + rest;
        ParseWrapped(p, rest);
      } else {
        assert forall i :: 0 <= i < |p| ==> !IsBrace(p[i]);
        ParseBare(p, rest);
      }
      if |paths| > 1 {
        ParseUnfold(rest);
        assert rest[1..] == Serialize(paths[1..], wrap[1..]);
        assert forall k :: 0 <= k < |paths| - 1 ==> paths[1..][k] == paths[k + 1];
        ParseSerialized(paths[1..], wrap[1..]);
      }
    }
  }

  /** The flags that wrap every path. */
  function WrapAll(paths: seq<string>): (r: seq<bool>)
    ensures WrapsWhereNeeded(paths, r)
    ensures forall k :: 0 <= k < |r| ==> r[k]
  {
    if paths == [] then [] else [true] + WrapAll(paths[1..])
  }

  /** The flags that wrap exactly the paths needing braces. */
  function WrapNeeded(paths: seq<string>): (r: seq<bool>)
    ensures WrapsWhereNeeded(paths, r)
    ensures forall k :: 0 <= k < |r| ==> r[k] == NeedsBraces(paths[k])
  {
    if paths == [] then [] else [NeedsBraces(paths[0])] + WrapNeeded(paths[1..])
  }

  /** The payload with every path wrapped in braces parses back to the paths. */
  lemma ParseAllBraced(paths: seq<string>)
    requires forall k :: 0 <= k < |paths| ==> Escapable(paths[k])
    ensures ParseDroppedFiles(Serialize(paths, WrapAll(paths))) == paths
  {
    ParseSerialized(paths, WrapAll(paths));
  }

  /** The payload with only the paths that need braces wrapped parses back to the paths. */
  lemma ParseMinimallyBraced(paths: seq<string>)
    requires forall k :: 0 <= k < |paths| ==> Escapable(paths[k])
    ensures ParseDroppedFiles(Serialize(paths, WrapNeeded(paths))) == paths
  {
    ParseSerialized(paths, WrapNeeded(paths));
  }
}
