/** What the parser makes of any text, and how long the printed text is, with every character written out. */
module ShellTokens {
  import opened ShellText
  import opened ShellRoundTrip

  // ----- runs of a text, by position

  /** `t` stands in `s` at `p`, holds no delimiter, and is bounded by delimiters or the ends of `s`. */
  ghost predicate IsRun(s: string, delims: set<char>, t: string, p: nat) {
    && t != "" && p + |t| <= |s| && s[p..p + |t|] == t && Free(t, delims)
    && (p == 0 || s[p - 1] in delims) && (p + |t| == |s| || s[p + |t|] in delims)
  }

  ghost predicate Covered(ts: seq<string>, at: seq<nat>, i: nat)
    requires |at| == |ts|
  {
    exists k :: 0 <= k < |ts| && at[k] <= i < at[k] + |ts[k]|
  }

  /** The strings `ts` stand in `s` at the positions `at`, in order, each a whole run between delimiters, and
      together they cover every other character. */
  ghost predicate AreRuns(s: string, delims: set<char>, ts: seq<string>, at: seq<nat>) {
    && |at| == |ts|
    && (forall k :: 0 <= k < |ts| ==> IsRun(s, delims, ts[k], at[k]))
    && (forall k, l :: 0 <= k < l < |ts| ==> at[k] + |ts[k]| < at[l])
    && forall i :: 0 <= i < |s| && s[i] !in delims ==> Covered(ts, at, i)
  }

  lemma RunShift(s: string, n: nat, delims: set<char>, t: string, p: nat)
    requires n <= |s| && IsRun(s[n..], delims, t, p) && (p > 0 || n == 0 || s[n - 1] in delims)
    ensures IsRun(s, delims, t, p + n)
  {
    assert s[p + n..p + n + |t|] == s[n..][p..p + |t|];
  }

  function Shifted(at: seq<nat>, n: nat): (r: seq<nat>)
    ensures |r| == |at| && forall k :: 0 <= k < |at| ==> r[k] == at[k] + n
  {
    seq(|at|, k requires 0 <= k < |at| => at[k] + n)
  }

  /** A delimiter in front moves the runs by one place. */
  lemma RunsAfterDelimiter(s: string, delims: set<char>, ts: seq<string>, at: seq<nat>)
    requires s != "" && s[0] in delims && AreRuns(s[1..], delims, ts, at)
    ensures AreRuns(s, delims, ts, Shifted(at, 1))
  {
    var r := Shifted(at, 1);
    forall k | 0 <= k < |ts| ensures IsRun(s, delims, ts[k], r[k]) { RunShift(s, 1, delims, ts[k], at[k]); }
    forall i | 0 <= i < |s| && s[i] !in delims ensures Covered(ts, r, i) {
      assert s[1..][i - 1] == s[i] && Covered(ts, at, i - 1);
      var k :| 0 <= k < |ts| && at[k] <= i - 1 < at[k] + |ts[k]|;
      assert r[k] <= i < r[k] + |ts[k]|;
    }
  }

  lemma RunBehind(s: string, delims: set<char>, n: nat, t: string, p: nat)
    requires 0 < n <= |s| && (n < |s| ==> s[n] in delims) && IsRun(s[n..], delims, t, p)
    ensures p > 0 && IsRun(s, delims, t, p + n)
  {
    assert t[0] == s[n..][p..p + |t|][0] == s[n + p];
    RunShift(s, n, delims, t, p);
  }

  lemma CoveredBehind(t: string, ts: seq<string>, at: seq<nat>, n: nat, i: nat)
    requires |at| == |ts| && i >= n && Covered(ts, at, i - n)
    ensures Covered([t] + ts, [0] + Shifted(at, n), i)
  {
    var k :| 0 <= k < |ts| && at[k] <= i - n < at[k] + |ts[k]|;
    var us, r := [t] + ts, [0] + Shifted(at, n);
    assert us[k + 1] == ts[k] && r[k + 1] == at[k] + n;
  }

  lemma RunsCover(s: string, delims: set<char>, n: nat, ts: seq<string>, at: seq<nat>, i: nat)
    requires 0 < n <= |s| && AreRuns(s[n..], delims, ts, at) && i < |s| && s[i] !in delims
    ensures Covered([s[..n]] + ts, [0] + Shifted(at, n), i)
  {
    if i < n {
      var us, r := [s[..n]] + ts, [0] + Shifted(at, n);
      assert us[0] == s[..n] && r[0] == 0;
    } else {
      assert s[n..][i - n] == s[i];
      CoveredBehind(s[..n], ts, at, n, i);
    }
  }

  lemma RunsOrdered(t: string, ts: seq<string>, at: seq<nat>, k: nat, l: nat)
    requires |at| == |ts| && (forall k :: 0 <= k < |ts| ==> at[k] > 0)
    requires forall k, l :: 0 <= k < l < |ts| ==> at[k] + |ts[k]| < at[l]
    requires k < l <= |ts|
    ensures ([0] + Shifted(at, |t|))[k] + |([t] + ts)[k]| < ([0] + Shifted(at, |t|))[l]
  {
    assert at[l - 1] > 0;
    if k > 0 { assert at[k - 1] + |ts[k - 1]| < at[l - 1]; }
  }

  lemma RunInFront(s: string, delims: set<char>, n: nat)
    requires 0 < n <= |s| && Free(s[..n], delims) && (n < |s| ==> s[n] in delims)
    ensures IsRun(s, delims, s[..n], 0)
  {
  }

  /** A run in front comes first. */
  lemma RunsAfterRun(s: string, delims: set<char>, n: nat, ts: seq<string>, at: seq<nat>)
    requires 0 < n <= |s| && Free(s[..n], delims) && (n < |s| ==> s[n] in delims) && AreRuns(s[n..], delims, ts, at)
    ensures AreRuns(s, delims, [s[..n]] + ts, [0] + Shifted(at, n))
  {
    hide IsRun, Covered, Free;
    var us, r := [s[..n]] + ts, [0] + Shifted(at, n);
    RunInFront(s, delims, n);
    forall k: nat | k < |ts| ensures at[k] > 0 && IsRun(s, delims, ts[k], at[k] + n) {
      RunBehind(s, delims, n, ts[k], at[k]);
    }
    forall k: nat | k < |us| ensures IsRun(s, delims, us[k], r[k]) {
      if k > 0 { assert us[k] == ts[k - 1] && r[k] == at[k - 1] + n; }
    }
    forall i: nat | i < |s| && s[i] !in delims ensures Covered(us, r, i) { RunsCover(s, delims, n, ts, at, i); }
    forall k: nat, l: nat | k < l < |us| ensures r[k] + |us[k]| < r[l] { RunsOrdered(s[..n], ts, at, k, l); }
  }

  /** Splitting gives exactly the runs between delimiters. */
  lemma {:induction false} SplitIsRuns(s: string, delims: set<char>) returns (at: seq<nat>)
    ensures AreRuns(s, delims, Split(s, delims), at)
    decreases |s|
  {
    hide AreRuns;
    if s == "" {
      at := [];
      NoRuns(delims);
    } else if s[0] in delims {
      var at' := SplitIsRuns(s[1..], delims);
      RunsAfterDelimiter(s, delims, Split(s[1..], delims), at');
      at := Shifted(at', 1);
    } else {
      var n := Span(s, delims);
      var at' := SplitIsRuns(s[n..], delims);
      RunsAfterRun(s, delims, n, Split(s[n..], delims), at');
      at := [0] + Shifted(at', n);
    }
  }

  lemma NoRuns(delims: set<char>)
    ensures AreRuns("", delims, [], [])
  {
  }

  // ----- three levels of splitting make one

  function SplitAll(ss: seq<string>, delims: set<char>): seq<string> {
    if ss == [] then [] else Split(ss[0], delims) + SplitAll(ss[1..], delims)
  }

  lemma SplitHead(x: string, delims: set<char>) returns (n: nat)
    requires x != "" && x[0] !in delims
    ensures 0 < n <= |x| && Free(x[..n], delims) && (x[n..] == "" || x[n..][0] in delims)
    ensures x == x[..n] + x[n..] && Split(x, delims) == [x[..n]] + Split(x[n..], delims)
  {
    n := Span(x, delims);
  }

  lemma {:induction false} SplitSkip(x: string, delims: set<char>)
    requires x != "" && x[0] in delims
    ensures Split(x, delims) == Split(x[1..], delims)
  {
  }

  lemma {:induction false} SplitEmpty(delims: set<char>)
    ensures Split("", delims) == []
  {
  }

  lemma Concats(u: string, v: string, y: string)
    ensures u + v + y == u + (v + y) && "" + y == y
  {
  }

  lemma {:induction false} SplitAppend(x: string, y: string, delims: set<char>)
    requires y == "" || y[0] in delims
    ensures Split(x + y, delims) == Split(x, delims) + Split(y, delims)
    decreases |x|
  {
    hide Split, Span, Free;
    if x == "" {
      Concats("", "", y);
      SplitEmpty(delims);
    } else if x[0] in delims {
      assert (x + y)[1..] == x[1..] + y;
      SplitSkip(x, delims);
      SplitSkip(x + y, delims);
      SplitAppend(x[1..], y, delims);
    } else {
      var n := SplitHead(x, delims);
      SplitAppend(x[n..], y, delims);
      Concats(x[..n], x[n..], y);
      SplitFront(x[..n], x[n..] + y, delims);
    }
  }

  lemma {:induction false} SpanWider(x: string, d: set<char>, e: set<char>)
    requires Free(x, d)
    ensures Span(x, d + e) == Span(x, e)
  {
    if x != "" { SpanWider(x[1..], d, e); }
  }

  /** Delimiters that do not occur do not matter. */
  lemma {:induction false} SplitWider(x: string, d: set<char>, e: set<char>)
    requires Free(x, d)
    ensures Split(x, d + e) == Split(x, e)
    decreases |x|
  {
    if x != "" {
      SpanWider(x, d, e);
      if x[0] in e { SplitWider(x[1..], d, e); } else { SplitWider(x[Span(x, e)..], d, e); }
    }
  }

  /** Splitting at some delimiters and every piece at others is splitting at all of them. */
  lemma {:induction false} SplitTwice(s: string, d: set<char>, e: set<char>)
    ensures SplitAll(Split(s, d), e) == Split(s, d + e)
    decreases |s|
  {
    if s != "" {
      if s[0] in d {
        SplitTwice(s[1..], d, e);
      } else {
        var n := Span(s, d);
        var x, y := s[..n], s[n..];
        SplitTwice(y, d, e);
        assert s == x + y;
        SplitAppend(x, y, d + e);
        SplitWider(x, d, e);
        assert ([x] + Split(y, d))[1..] == Split(y, d);
      }
    }
  }

  // ----- the tokens of a line

  function Flat(c: Command): seq<string> {
    if c == [] then [] else c[0] + Flat(c[1..])
  }

  /** All tokens in order. */
  function Tokens(cl: CommandLine): seq<string> {
    if cl == [] then [] else Flat(cl[0]) + Tokens(cl[1..])
  }

  lemma {:induction false} PartsFlat(ss: seq<string>)
    ensures Flat(Parts(ss)) == SplitAll(ss, {' ', '\t', '\n'})
  {
    if ss != [] { PartsFlat(ss[1..]); }
  }

  lemma {:induction false} CommandFlat(s: string)
    ensures Flat(ParseCommand(s)) == Split(s, {'>'} + {' ', '\t', '\n'})
  {
    PartsFlat(Split(s, {'>'}));
    SplitTwice(s, {'>'}, {' ', '\t', '\n'});
  }

  lemma {:induction false} CommandsFlat(ss: seq<string>)
    ensures Tokens(Commands(ss)) == SplitAll(ss, {'>'} + {' ', '\t', '\n'})
  {
    if ss != [] {
      CommandFlat(ss[0]);
      CommandsFlat(ss[1..]);
    }
  }

  /** For every text the tokens of the parsed line are exactly the runs of characters other than space, tab,
      newline, '>' and ';': each is such a run, none is cut, none is missing, and they keep their order. */
  lemma TokensAreRuns(s: string) returns (at: seq<nat>)
    ensures AreRuns(s, {' ', '\t', '\n', '>', ';'}, Tokens(ParseLine(s)), at)
  {
    CommandsFlat(Split(s, {';'}));
    SplitTwice(s, {';'}, {'>'} + {' ', '\t', '\n'});
    assert {';'} + ({'>'} + {' ', '\t', '\n'}) == {' ', '\t', '\n', '>', ';'};
    at := SplitIsRuns(s, {' ', '\t', '\n', '>', ';'});
  }

  lemma {:induction false} PartsAre(ss: seq<string>)
    ensures |Parts(ss)| == |ss| && forall j :: 0 <= j < |ss| ==> Parts(ss)[j] == Split(ss[j], {' ', '\t', '\n'})
  {
    if ss != [] { PartsAre(ss[1..]); }
  }

  lemma {:induction false} CommandsAre(ss: seq<string>)
    ensures |Commands(ss)| == |ss| && forall i :: 0 <= i < |ss| ==> Commands(ss)[i] == ParseCommand(ss[i])
  {
    if ss != [] { CommandsAre(ss[1..]); }
  }

  /** The commands come from the runs between ';', their parts from the runs between '>', and the tokens of a
      part are its runs between blanks. */
  lemma LevelsAreRuns(s: string, i: nat, j: nat)
    returns (pieces: seq<string>, at: seq<nat>, parts: seq<string>, pt: seq<nat>, qt: seq<nat>)
    requires i < |ParseLine(s)| && j < |ParseLine(s)[i]|
    ensures |pieces| == |ParseLine(s)| && AreRuns(s, {';'}, pieces, at)
    ensures |parts| == |ParseLine(s)[i]| && AreRuns(pieces[i], {'>'}, parts, pt)
    ensures AreRuns(parts[j], {' ', '\t', '\n'}, ParseLine(s)[i][j], qt)
  {
    hide AreRuns;
    pieces := Split(s, {';'});
    CommandsAre(pieces);
    parts := Split(pieces[i], {'>'});
    PartsAre(parts);
    at := SplitIsRuns(s, {';'});
    pt := SplitIsRuns(pieces[i], {'>'});
    qt := SplitIsRuns(parts[j], {' ', '\t', '\n'});
  }

  // ----- the printed text

  lemma {:induction false} LengthsKept(c: Command, cl: CommandLine)
    ensures |PrintedParts(c)| == |c| && |PrintedCommands(cl)| == |cl|
    decreases |c| + |cl|
  {
    if c != [] { LengthsKept(c[1..], cl); } else if cl != [] { LengthsKept(c, cl[1..]); }
  }

  /** How parts, commands and lines are printed, with every separator written out. */
  lemma PrintsLiterally(p: Part, c: Command, cl: CommandLine)
    ensures PrintPart(p) == if p == [] then "" else if |p| == 1 then p[0] else p[0] + " " + PrintPart(p[1..])
    ensures PrintCommand(c) ==
            if c == [] then "" else if |c| == 1 then PrintPart(c[0]) else PrintPart(c[0]) + " > " + PrintCommand(c[1..])
    ensures PrintLine(cl) ==
            if cl == [] then "\n" else if |cl| == 1 then PrintCommand(cl[0]) + "\n"
            else PrintCommand(cl[0]) + " ; " + PrintLine(cl[1..])
  {
    if c != [] { assert PrintedParts(c)[1..] == PrintedParts(c[1..]); }
    if cl != [] { assert PrintedCommands(cl)[1..] == PrintedCommands(cl[1..]); }
    LengthsKept(c, cl);
  }
}
