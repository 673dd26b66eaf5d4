/** Command lines as text: three nested levels of splitting, and the printer. */
module ShellText {
  type Part = seq<string>        // the tokens between two '>'
  type Command = seq<Part>       // the parts between two ';'
  type CommandLine = seq<Command>

  const BLANKS := {' ', '\t', '\n'}

  // ----- splitting

  /** How many characters come before the first one in `delims`. */
  function Span(s: string, delims: set<char>): (k: nat)
    ensures k <= |s|
    ensures forall i :: 0 <= i < k ==> s[i] !in delims
    ensures k < |s| ==> s[k] in delims
  {
    if s == "" || s[0] in delims then 0 else 1 + Span(s[1..], delims)
  }

  /** The maximal non-empty runs of characters outside `delims`. */
  function Split(s: string, delims: set<char>): (ts: seq<string>)
    decreases |s|
  {
    if s == "" then []
    else if s[0] in delims then Split(s[1..], delims)
    else var k := Span(s, delims); [s[..k]] + Split(s[k..], delims)
  }

  predicate Free(s: string, delims: set<char>) {
    forall i :: 0 <= i < |s| ==> s[i] !in delims
  }

  lemma {:induction false} SpanOf(x: string, t: string, delims: set<char>)
    requires Free(x, delims) && (t == "" || t[0] in delims)
    ensures Span(x + t, delims) == |x|
  {
    if x == "" {
      assert x + t == t;
    } else {
      assert (x + t)[1..] == x[1..] + t;
      SpanOf(x[1..], t, delims);
    }
  }

  /** A run at the front is the first piece. */
  lemma {:induction false} SplitFront(x: string, t: string, delims: set<char>)
    requires x != "" && Free(x, delims) && (t == "" || t[0] in delims)
    ensures Split(x + t, delims) == [x] + Split(t, delims)
  {
    SpanOf(x, t, delims);
    assert (x + t)[..|x|] == x && (x + t)[|x|..] == t;
    assert (x + t)[0] == x[0];
  }

  /** Delimiters at the front are skipped. */
  lemma {:induction false} SplitSkips(b: string, t: string, delims: set<char>)
    requires forall i :: 0 <= i < |b| ==> b[i] in delims
    ensures Split(b + t, delims) == Split(t, delims)
  {
    if b == "" {
      assert b + t == t;
    } else {
      assert (b + t)[1..] == b[1..] + t;
      assert (b + t)[0] == b[0];
      SplitSkips(b[1..], t, delims);
    }
  }

  function Parts(ss: seq<string>): seq<Part> {
    if ss == [] then [] else [Split(ss[0], BLANKS)] + Parts(ss[1..])
  }

  function ParseCommand(s: string): Command {
    Parts(Split(s, {'>'}))
  }

  function Commands(ss: seq<string>): seq<Command> {
    if ss == [] then [] else [ParseCommand(ss[0])] + Commands(ss[1..])
  }

  function ParseLine(s: string): CommandLine {
    Commands(Split(s, {';'}))
  }

  // ----- printing

  function Join(ss: seq<string>, sep: string): string {
    if ss == [] then "" else if |ss| == 1 then ss[0] else ss[0] + sep + Join(ss[1..], sep)
  }

  function PrintPart(p: Part): string { Join(p, " ") }

  function PrintedParts(ps: seq<Part>): seq<string> {
    if ps == [] then [] else [PrintPart(ps[0])] + PrintedParts(ps[1..])
  }

  function PrintCommand(c: Command): string { Join(PrintedParts(c), " > ") }

  function PrintedCommands(cs: seq<Command>): seq<string> {
    if cs == [] then [] else [PrintCommand(cs[0])] + PrintedCommands(cs[1..])
  }

  function PrintLine(cl: CommandLine): string { Join(PrintedCommands(cl), " ; ") + "\n" }
}
