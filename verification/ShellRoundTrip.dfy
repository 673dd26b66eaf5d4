/** The parser undoes the printer. */
module ShellRoundTrip {
  import opened ShellText

  predicate Blank(s: string) {
    forall i :: 0 <= i < |s| ==> s[i] in BLANKS
  }

  const SPECIAL := {' ', '\t', '\n', '>', ';'}

  /** A token the printer and the parser agree on. */
  predicate CleanToken(t: string) { t != "" && Free(t, SPECIAL) }

  predicate CleanPart(p: Part) { forall i :: 0 <= i < |p| ==> CleanToken(p[i]) }

  predicate CleanCommand(c: Command) { forall i :: 0 <= i < |c| ==> CleanPart(c[i]) }

  predicate CleanLine(cl: CommandLine) { forall i :: 0 <= i < |cl| ==> CleanCommand(cl[i]) }

  // ----- splitting concatenations

  lemma {:induction false} SplitWhole(x: string, delims: set<char>)
    requires x != "" && Free(x, delims)
    ensures Split(x, delims) == [x]
  {
    SplitFront(x, "", delims);
    assert x + "" == x;
  }

  lemma {:induction false} SplitAt(x: string, d: char, t: string)
    requires x != "" && Free(x, {d})
    ensures Split(x + [d] + t, {d}) == [x] + Split(t, {d})
  {
    SplitFront(x, [d] + t, {d});
    assert x + [d] + t == x + ([d] + t);
    SplitSkips([d], t, {d});
  }

  // ----- tokens

  lemma {:induction false} BlankSplits(b: string)
    requires Blank(b)
    ensures Split(b, BLANKS) == []
  {
    SplitSkips(b, "", BLANKS);
    assert b + "" == b;
  }

  /** The first token of a printed part, and what is printed after it. */
  lemma FirstToken(p: Part, post: string) returns (rest: string)
    requires CleanPart(p) && p != []
    ensures PrintPart(p) + post == p[0] + rest && CleanToken(p[0]) && Free(p[0], BLANKS)
    ensures rest == if |p| == 1 then post else " " + PrintPart(p[1..]) + post
  {
    rest := if |p| == 1 then post else " " + PrintPart(p[1..]) + post;
    assert PrintPart(p) + post == p[0] + rest;
  }

  lemma Around(pre: string, s: string, post: string)
    ensures pre + s + post == pre + (s + post) && "" + post == post
  {
  }

  /** Splitting at blanks gives back the tokens of a printed part, whatever blanks surround it. */
  lemma {:induction false} PartParses(p: Part, pre: string, post: string)
    requires CleanPart(p) && Blank(pre) && Blank(post)
    ensures Split(pre + PrintPart(p) + post, BLANKS) == p
  {
    Around(pre, PrintPart(p), post);
    SplitSkips(pre, PrintPart(p) + post, BLANKS);
    if p == [] {
      Around("", "", post);
      BlankSplits(post);
    } else {
      var rest := FirstToken(p, post);
      hide Split, PrintPart, Join;
      SplitFront(p[0], rest, BLANKS);
      if |p| == 1 {
        BlankSplits(post);
      } else {
        PartParses(p[1..], " ", post);
      }
    }
  }

  // ----- pieces between separators

  /** The pieces that splitting at the middle of " d " separators gives: each piece keeps the blanks
      around it. */
  function Padded(ss: seq<string>, pre: string, post: string): seq<string> {
    if ss == [] then [pre + post]
    else if |ss| == 1 then [pre + ss[0] + post]
    else [pre + ss[0] + " "] + Padded(ss[1..], " ", post)
  }

  ghost predicate FreePieces(ss: seq<string>, d: char) {
    forall i :: 0 <= i < |ss| ==> Free(ss[i], {d})
  }

  lemma {:induction false} JoinedSplits(ss: seq<string>, d: char, pre: string, post: string)
    requires FreePieces(ss, d) && Free(pre, {d}) && Free(post, {d}) && post != "" && d != ' '
    ensures Split(pre + Join(ss, [' ', d, ' ']) + post, {d}) == Padded(ss, pre, post)
  {
    var sep := [' ', d, ' '];
    if |ss| <= 1 {
      var x := if ss == [] then "" else ss[0];
      assert Join(ss, sep) == x;
      assert Free(pre + x + post, {d});
      SplitWhole(pre + x + post, {d});
      assert pre + "" + post == pre + post;
    } else {
      var x := pre + ss[0] + " ";
      var t := " " + Join(ss[1..], sep) + post;
      assert Free(x, {d});
      assert pre + Join(ss, sep) + post == x + [d] + t;
      SplitAt(x, d, t);
      JoinedSplits(ss[1..], d, " ", post);
    }
  }

  // ----- commands

  /** A command without parts prints as nothing, and nothing parses as one part without tokens. */
  function NormalCommand(c: Command): Command {
    if c == [] then [[]] else c
  }

  lemma {:induction false} PartsNext(x: string, rest: seq<string>)
    ensures Parts([x] + rest) == [Split(x, BLANKS)] + Parts(rest) && Parts([x]) == [Split(x, BLANKS)]
  {
    assert ([x] + rest)[1..] == rest;
    assert [Split(x, BLANKS)] + Parts([]) == [Split(x, BLANKS)];
  }

  lemma {:induction false} PaddedPart(c: Command, pre: string, post: string)
    requires c != []
    ensures Padded(PrintedParts(c), pre, post) ==
            if |c| == 1 then [pre + PrintPart(c[0]) + post]
            else [pre + PrintPart(c[0]) + " "] + Padded(PrintedParts(c[1..]), " ", post)
  {
    assert PrintedParts(c)[1..] == PrintedParts(c[1..]);
  }

  lemma {:induction false} PaddedNothing(pre: string, post: string)
    ensures Padded(PrintedParts([]), pre, post) == [pre + PrintPart([]) + post]
  {
    assert pre + PrintPart([]) + post == pre + post;
  }

  lemma {:induction false} PartsOfPadded(c: Command, pre: string, post: string)
    requires CleanCommand(c) && Blank(pre) && Blank(post)
    ensures Parts(Padded(PrintedParts(c), pre, post)) == NormalCommand(c)
  {
    hide Parts, Padded, PrintedParts, PrintPart, Split;
    if c == [] {
      PartParses([], pre, post);
      PaddedNothing(pre, post);
      PartsNext(pre + PrintPart([]) + post, []);
    } else if |c| == 1 {
      PartParses(c[0], pre, post);
      PaddedPart(c, pre, post);
      PartsNext(pre + PrintPart(c[0]) + post, []);
      assert c == [c[0]];
    } else {
      PartParses(c[0], pre, " ");
      PartsOfPadded(c[1..], " ", post);
      PaddedPart(c, pre, post);
      PartsNext(pre + PrintPart(c[0]) + " ", Padded(PrintedParts(c[1..]), " ", post));
      assert c == [c[0]] + c[1..];
    }
  }

  lemma FreeConcat(a: string, b: string, delims: set<char>)
    requires Free(a, delims) && Free(b, delims)
    ensures Free(a + b, delims)
  {
  }

  lemma {:induction false} JoinFree(ss: seq<string>, sep: string, d: char)
    requires FreePieces(ss, d) && Free(sep, {d})
    ensures Free(Join(ss, sep), {d})
  {
    if |ss| > 1 {
      JoinFree(ss[1..], sep, d);
      FreeConcat(ss[0], sep, {d});
      FreeConcat(ss[0] + sep, Join(ss[1..], sep), {d});
    }
  }

  lemma {:induction false} PrintedPartsFree(c: Command, d: char)
    requires CleanCommand(c) && d in {'>', ';'}
    ensures FreePieces(PrintedParts(c), d)
  {
    if c != [] {
      PrintedPartsFree(c[1..], d);
      assert forall i :: 0 <= i < |c[0]| ==> CleanToken(c[0][i]) && Free(c[0][i], {d});
      JoinFree(c[0], " ", d);
    }
  }

  /** A printed command parses back, whatever blanks surround it. */
  lemma CommandParses(c: Command, pre: string, post: string)
    requires CleanCommand(c) && Blank(pre) && Blank(post) && post != ""
    ensures ParseCommand(pre + PrintCommand(c) + post) == NormalCommand(c)
  {
    PrintedPartsFree(c, '>');
    assert Free(pre, {'>'}) && Free(post, {'>'});
    assert " > " == [' ', '>', ' '];
    JoinedSplits(PrintedParts(c), '>', pre, post);
    PartsOfPadded(c, pre, post);
  }

  lemma {:induction false} CommandsOfPadded(cl: CommandLine, pre: string, post: string)
    requires CleanLine(cl) && cl != [] && Blank(pre) && Blank(post) && post != ""
    ensures Commands(Padded(PrintedCommands(cl), pre, post)) == Normal(cl)
  {
    if |cl| == 1 {
      CommandParses(cl[0], pre, post);
      assert PrintedCommands(cl) == [PrintCommand(cl[0])];
      assert Commands([pre + PrintCommand(cl[0]) + post]) == [NormalCommand(cl[0])] + Commands([]);
    } else {
      CommandParses(cl[0], pre, " ");
      CommandsOfPadded(cl[1..], " ", post);
      var x, rest := pre + PrintCommand(cl[0]) + " ", Padded(PrintedCommands(cl[1..]), " ", post);
      assert PrintedCommands(cl)[1..] == PrintedCommands(cl[1..]);
      assert Padded(PrintedCommands(cl), pre, post) == [x] + rest;
      assert ([x] + rest)[1..] == rest;
    }
  }

  lemma {:induction false} PrintedCommandsFree(cl: CommandLine)
    requires CleanLine(cl)
    ensures FreePieces(PrintedCommands(cl), ';')
  {
    if cl != [] {
      PrintedCommandsFree(cl[1..]);
      PrintedPartsFree(cl[0], ';');
      JoinFree(PrintedParts(cl[0]), " > ", ';');
    }
  }

  // ----- command lines

  function Normal(cl: CommandLine): CommandLine {
    if cl == [] then [[[]]]
    else if |cl| == 1 then [NormalCommand(cl[0])]
    else [NormalCommand(cl[0])] + Normal(cl[1..])
  }

  /** Parsing a printed line gives the line back, up to commands and lines that print as nothing. */
  lemma {:induction false} PrintedLineParses(cl: CommandLine)
    requires CleanLine(cl)
    ensures ParseLine(PrintLine(cl)) == Normal(cl)
  {
    PrintedCommandsFree(cl);
    assert " ; " == [' ', ';', ' '];
    JoinedSplits(PrintedCommands(cl), ';', "", "\n");
    assert "" + Join(PrintedCommands(cl), " ; ") + "\n" == PrintLine(cl);
    if cl == [] {
      assert "" + "\n" == "\n";
      assert Padded([], "", "\n") == ["\n"];
      CommandParses([], "", "\n");
      assert "" + PrintCommand([]) + "\n" == "\n";
      assert Commands(["\n"]) == [ParseCommand("\n")] + Commands([]);
    } else {
      CommandsOfPadded(cl, "", "\n");
    }
  }

  // ----- exactly when

  /** What the parser gives back as it was. */
  predicate RoundTrips(cl: CommandLine) {
    CleanLine(cl) && cl != [] && forall i :: 0 <= i < |cl| ==> cl[i] != []
  }

  /** Pieces are not empty and free of the delimiters, and of whatever the text is free of. */
  lemma {:induction false} SplitPieces(s: string, delims: set<char>, also: set<char>)
    requires Free(s, also)
    ensures forall i :: 0 <= i < |Split(s, delims)| ==>
              Split(s, delims)[i] != "" && Free(Split(s, delims)[i], delims + also)
    decreases |s|
  {
    if s != "" {
      if s[0] in delims {
        SplitPieces(s[1..], delims, also);
      } else {
        var k := Span(s, delims);
        SplitPieces(s[k..], delims, also);
      }
    }
  }

  lemma {:induction false} PartClean(s: string)
    requires Free(s, {'>', ';'})
    ensures CleanPart(Split(s, BLANKS))
  {
    SplitPieces(s, BLANKS, {'>', ';'});
  }

  lemma {:induction false} PartsClean(ss: seq<string>)
    requires forall i :: 0 <= i < |ss| ==> Free(ss[i], {'>', ';'})
    ensures CleanCommand(Parts(ss))
  {
    if ss != [] {
      PartClean(ss[0]);
      PartsClean(ss[1..]);
    }
  }

  lemma CommandClean(s: string)
    requires Free(s, {';'})
    ensures CleanCommand(ParseCommand(s))
  {
    SplitPieces(s, {'>'}, {';'});
    PartsClean(Split(s, {'>'}));
  }

  lemma {:induction false} CommandsClean(ss: seq<string>)
    requires forall i :: 0 <= i < |ss| ==> Free(ss[i], {';'})
    ensures CleanLine(Commands(ss))
  {
    if ss != [] {
      CommandClean(ss[0]);
      CommandsClean(ss[1..]);
    }
  }

  /** Whatever the text, the parser yields clean tokens only. */
  lemma ParsedIsClean(s: string)
    ensures CleanLine(ParseLine(s))
  {
    SplitPieces(s, {';'}, {});
    CommandsClean(Split(s, {';'}));
  }

  lemma {:induction false} NormalIsSame(cl: CommandLine)
    ensures Normal(cl) == cl <==> cl != [] && forall i :: 0 <= i < |cl| ==> cl[i] != []
  {
    if |cl| > 1 {
      NormalIsSame(cl[1..]);
      assert cl == [cl[0]] + cl[1..];
    }
  }

  /** The parser undoes the printer exactly for non-empty lines of non-empty commands with clean
      tokens; a part may have no tokens. */
  lemma ParserUndoesPrinterIff(cl: CommandLine)
    ensures ParseLine(PrintLine(cl)) == cl <==> RoundTrips(cl)
  {
    if CleanLine(cl) {
      PrintedLineParses(cl);
      NormalIsSame(cl);
    } else {
      ParsedIsClean(PrintLine(cl));
    }
  }

  /** Printing what was parsed and parsing it again settles at once. */
  lemma ReparsingSettles(s: string)
    ensures ParseLine(PrintLine(ParseLine(s))) == Normal(ParseLine(s))
    ensures ParseLine(PrintLine(Normal(ParseLine(s)))) == Normal(ParseLine(s))
  {
    ParsedIsClean(s);
    PrintedLineParses(ParseLine(s));
    NormalClean(ParseLine(s));
    PrintedLineParses(Normal(ParseLine(s)));
    NormalIsSame(Normal(ParseLine(s)));
  }

  lemma {:induction false} NormalClean(cl: CommandLine)
    requires CleanLine(cl)
    ensures RoundTrips(Normal(cl))
  {
    if |cl| > 1 { NormalClean(cl[1..]); }
  }
}
