/** The reader on every file: what a file must look like to be read at all, and what one that does is read as. */
module DbFiles {
  import opened ImAccounts
  import opened DbText
  import opened DbRoundTrip
  import opened DbLines
  import opened Options

  /** A user's name and the lines up to the next ".". */
  datatype Block = Block(name: string, lines: seq<string>)

  predicate GoodLines(lines: seq<string>) {
    forall i :: 0 <= i < |lines| ==> LineName(lines[i]) && lines[i] != "."
  }

  predicate GoodBlocks(bs: seq<Block>) {
    forall i :: 0 <= i < |bs| ==> LineName(bs[i].name) && GoodLines(bs[i].lines)
  }

  function LinesText(lines: seq<string>): string {
    if lines == [] then "" else lines[0] + "\n" + LinesText(lines[1..])
  }

  function BlocksText(bs: seq<Block>): string {
    if bs == [] then "" else bs[0].name + "\n" + (LinesText(bs[0].lines) + (".\n" + BlocksText(bs[1..])))
  }

  /** The text is a header line, these blocks, and something that is not looked at. */
  predicate Consists(text: string, header: string, bs: seq<Block>, t: string) {
    text == header + "\n" + (BlocksText(bs) + t) && LineName(header) && |header| >= 8 && GoodBlocks(bs)
  }

  // ----- what the lines mean

  /** The entry of one line after a line that named `before`; None for words above their limits and for a line
      without a word at the start. */
  function LineMeans(line: string, before: Option<string>): Option<Entry> {
    var ws := FriendWords(line);
    if |ws| >= 1 && |ws[0]| > 19 then None
    else if |ws| == 2 && |ws[1]| > 9 then None
    else if ws == [] then if before.Some? then Some(Entry(before.value, Friends)) else None
    else Some(Entry(ws[0], if |ws| == 1 then Friends else if ws[1] == "requested" then Requested else ToAnswer))
  }

  function LinesMean(lines: seq<string>, before: Option<string>): Option<seq<Entry>> {
    if lines == [] then Some([])
    else
      match LineMeans(lines[0], before)
      case None => None
      case Some(e) =>
        match LinesMean(lines[1..], Some(e.who))
        case None => None
        case Some(fs) => Some([e] + fs)
  }

  function BlocksMean(bs: seq<Block>): Option<Accounts> {
    if bs == [] then Some([])
    else
      match LinesMean(bs[0].lines, None)
      case None => None
      case Some(fs) =>
        match BlocksMean(bs[1..])
        case None => None
        case Some(db) => Some([Account(bs[0].name, false, -1, fs)] + db)
  }

  // ----- one user's lines

  lemma {:induction false} LineStep(line: string, rest: string, before: Option<string>)
    requires LineName(line) && line != "."
    ensures SkipEntries(line + "\n" + rest) == SkipEntries(rest)
    ensures ReadEntries(line + "\n" + rest, before) ==
            match LineMeans(line, before)
            case None => UndefinedEntries
            case Some(e) => Prepended(e, ReadEntries(rest, Some(e.who)))
  {
    WordsHeld(line);
    EntryRead(line, rest, FriendWords(line), before);
    GetLineOf(line, rest, 1);
  }

  lemma {:induction false} EndStep(rest: string, before: Option<string>)
    ensures SkipEntries(".\n" + rest) == Some(rest) && ReadEntries(".\n" + rest, before) == Entries([], rest)
  {
    DotLine(rest);
  }

  lemma {:induction false} LinesSplit(lines: seq<string>, t: string)
    requires lines != []
    ensures LinesText(lines) + t == lines[0] + "\n" + (LinesText(lines[1..]) + t)
  {
  }

  lemma {:induction false} ReadsLines(lines: seq<string>, rest: string, before: Option<string>)
    requires GoodLines(lines)
    ensures SkipEntries(LinesText(lines) + (".\n" + rest)) == Some(rest)
    ensures ReadEntries(LinesText(lines) + (".\n" + rest), before) ==
            match LinesMean(lines, before) case None => UndefinedEntries case Some(fs) => Entries(fs, rest)
  {
    hide SkipEntries, ReadEntries, LineMeans, LineName;
    if lines == [] {
      assert LinesText(lines) + (".\n" + rest) == ".\n" + rest;
      EndStep(rest, before);
    } else {
      LinesSplit(lines, ".\n" + rest);
      LineStep(lines[0], LinesText(lines[1..]) + (".\n" + rest), before);
      var e := LineMeans(lines[0], before);
      ReadsLines(lines[1..], rest, if e.Some? then Some(e.value.who) else None);
    }
  }

  lemma LinesCons(line: string, ls: seq<string>, t: string) returns (lines: seq<string>)
    requires LineName(line) && line != "." && GoodLines(ls)
    ensures GoodLines(lines) && LinesText(lines) + t == line + "\n" + (LinesText(ls) + t)
  {
    lines := [line] + ls;
    assert lines[1..] == ls;
    LinesSplit(lines, t);
  }

  /** A text that is skipped up to the next "." has good lines before it. */
  lemma {:induction false} SkippedLines(s: string) returns (lines: seq<string>)
    requires SkipEntries(s).Some?
    ensures GoodLines(lines) && s == LinesText(lines) + (".\n" + SkipEntries(s).value)
    decreases |s|
  {
    var line, rest := GetLine(s, 1).value.0, GetLine(s, 1).value.1;
    GetLineIff(s, 1, line, rest);
    if line == "." {
      lines := [];
    } else {
      var ls := SkippedLines(rest);
      lines := LinesCons(line, ls, ".\n" + SkipEntries(s).value);
    }
  }

  // ----- all users

  function BlockNames(bs: seq<Block>): seq<string> {
    if bs == [] then [] else [bs[0].name] + BlockNames(bs[1..])
  }

  lemma {:induction false} BlocksSplit(bs: seq<Block>, t: string)
    requires bs != []
    ensures BlocksText(bs) + t ==
            bs[0].name + "\n" + (LinesText(bs[0].lines) + (".\n" + (BlocksText(bs[1..]) + t)))
  {
  }

  lemma {:induction false} FirstBlock(b: Block, rest: string, n: nat)
    requires LineName(b.name) && GoodLines(b.lines) && n > 0
    ensures var s := b.name + "\n" + (LinesText(b.lines) + (".\n" + rest));
            && (ReadNames(rest, n - 1).Some? ==> ReadNames(s, n) == Some([b.name] + ReadNames(rest, n - 1).value))
            && (LinesMean(b.lines, None) == None ==> ReadLists(s, n) == UndefinedLists)
            && (LinesMean(b.lines, None).Some? && ReadLists(rest, n - 1) == UndefinedLists ==>
                  ReadLists(s, n) == UndefinedLists)
            && (LinesMean(b.lines, None).Some? && ReadLists(rest, n - 1).Lists? ==>
                  ReadLists(s, n) == Lists([LinesMean(b.lines, None).value] + ReadLists(rest, n - 1).lists))
  {
    NameLine(b.name, LinesText(b.lines) + (".\n" + rest));
    ReadsLines(b.lines, rest, None);
  }

  function FriendsOf(db: Accounts): (r: seq<seq<Entry>>)
    ensures |r| == |db|
  {
    if db == [] then [] else [db[0].friends] + FriendsOf(db[1..])
  }

  lemma {:induction false} ReadsBlockNames(bs: seq<Block>, t: string)
    requires GoodBlocks(bs)
    ensures ReadNames(BlocksText(bs) + t, |bs|) == Some(BlockNames(bs))
  {
    if bs != [] {
      hide LineName, GoodLines;
      BlocksSplit(bs, t);
      ReadsBlockNames(bs[1..], t);
      FirstBlock(bs[0], BlocksText(bs[1..]) + t, |bs|);
    }
  }

  lemma {:induction false} ReadsBlockLists(bs: seq<Block>, t: string)
    requires GoodBlocks(bs)
    ensures ReadLists(BlocksText(bs) + t, |bs|) ==
            match BlocksMean(bs) case None => UndefinedLists case Some(db) => Lists(FriendsOf(db))
  {
    if bs != [] {
      hide LineName, GoodLines, LinesMean;
      BlocksSplit(bs, t);
      ReadsBlockLists(bs[1..], t);
      FirstBlock(bs[0], BlocksText(bs[1..]) + t, |bs|);
    }
  }

  lemma {:induction false} BlocksAssembled(bs: seq<Block>)
    requires BlocksMean(bs).Some?
    ensures |BlockNames(bs)| == |BlocksMean(bs).value| == |bs|
    ensures Assembled(BlockNames(bs), FriendsOf(BlocksMean(bs).value)) == BlocksMean(bs).value
  {
    if bs != [] { BlocksAssembled(bs[1..]); }
  }

  /** A file with a header of eight characters or more that states a count, and that many blocks, loads as what
      the blocks mean; it is undefined when one of them means nothing. */
  lemma {:induction false} ReadsBlocks(text: string, header: string, bs: seq<Block>, t: string)
    requires Consists(text, header, bs, t) && ScanUnsigned(header) == Some(|bs|)
    ensures ReadDb(text) ==
            match BlocksMean(bs) case None => Undefined case Some(db) => Loaded(|bs|, db)
  {
    GetLineOf(header, BlocksText(bs) + t, 8);
    ReadsBlockNames(bs, t);
    ReadsBlockLists(bs, t);
    if BlocksMean(bs).Some? { BlocksAssembled(bs); }
  }

  lemma BlocksCons(b: Block, cs: seq<Block>, t: string) returns (bs: seq<Block>)
    requires LineName(b.name) && GoodLines(b.lines) && GoodBlocks(cs)
    ensures GoodBlocks(bs) && |bs| == 1 + |cs|
    ensures BlocksText(bs) + t == b.name + "\n" + (LinesText(b.lines) + (".\n" + (BlocksText(cs) + t)))
  {
    bs := [b] + cs;
    assert bs[1..] == cs;
    BlocksSplit(bs, t);
  }

  lemma {:induction false} NamedBlocks(s: string, n: nat) returns (bs: seq<Block>, t: string)
    requires ReadNames(s, n).Some?
    ensures GoodBlocks(bs) && |bs| == n && s == BlocksText(bs) + t
    decreases n
  {
    if n == 0 {
      bs, t := [], s;
    } else {
      var name, s1 := GetLine(s, 1).value.0, GetLine(s, 1).value.1;
      GetLineIff(s, 1, name, s1);
      var lines := SkippedLines(s1);
      var cs;
      cs, t := NamedBlocks(SkipEntries(s1).value, n - 1);
      bs := BlocksCons(Block(name, lines), cs, t);
    }
  }

  /** A file that is not rejected has such a header and such blocks, or a header that states no count. */
  lemma ReadAsBlocks(text: string) returns (header: string, bs: seq<Block>, t: string)
    requires ReadDb(text) != Rejected
    ensures Consists(text, header, bs, t)
    ensures ScanUnsigned(header) == None || ScanUnsigned(header) == Some(|bs|)
  {
    var body := GetLine(text, 8).value.1;
    header := GetLine(text, 8).value.0;
    GetLineIff(text, 8, header, body);
    match ScanUnsigned(header)
    case None => bs, t := [], body;
    case Some(n) => bs, t := NamedBlocks(body, n);
  }

  /** Which files are rejected, whatever they hold. */
  lemma RejectedIff(text: string)
    ensures ReadDb(text) == Rejected <==>
            !exists header, bs, t :: Consists(text, header, bs, t)
                                     && (ScanUnsigned(header) == None || ScanUnsigned(header) == Some(|bs|))
  {
    if ReadDb(text) != Rejected { var header, bs, t := ReadAsBlocks(text); }
    forall header, bs, t | Consists(text, header, bs, t)
                           && (ScanUnsigned(header) == None || ScanUnsigned(header) == Some(|bs|))
      ensures ReadDb(text) != Rejected
    {
      if ScanUnsigned(header).Some? { ReadsBlocks(text, header, bs, t); }
      else { GetLineOf(header, BlocksText(bs) + t, 8); }
    }
  }
}
