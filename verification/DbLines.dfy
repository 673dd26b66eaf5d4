/** The reader line by line, on every text and in literal characters and limits: what a line is, what an unsigned
    conversion takes, which words a friend line holds and which entry they make. */
module DbLines {
  import opened ImAccounts
  import opened DbText
  import opened DbRoundTrip
  import opened Options

  predicate Blank(c: char) { c as int in {9, 10, 11, 12, 13, 32} }

  predicate Blanks(s: string) { forall i :: 0 <= i < |s| ==> Blank(s[i]) }

  /** One word: some characters and no blank. */
  predicate Word(s: string) { |s| >= 1 && forall i :: 0 <= i < |s| ==> !Blank(s[i]) }

  /** After a word comes a blank or nothing. */
  predicate Ends(s: string) { s == "" || Blank(s[0]) }

  predicate Digits(s: string) { |s| >= 1 && forall i :: 0 <= i < |s| ==> 48 <= s[i] as int <= 57 }

  // ----- lines

  /** A line is read exactly when the text starts with it and a newline, it is not empty, and it is long enough. */
  lemma GetLineIff(s: string, want: nat, line: string, rest: string)
    ensures GetLine(s, want) == Some((line, rest)) <==>
            s == line + "\n" + rest && |line| >= 1 && |line| >= want
            && forall i :: 0 <= i < |line| ==> line[i] != '\n'
  {
    var k := LineEnd(s);
    LineEndFirst(s);
    if k < |s| { assert s == s[..k] + "\n" + s[k + 1..]; }
    if s == line + "\n" + rest && OneLine(line) && line != "" && |line| >= want { GetLineOf(line, rest, want); }
  }

  // ----- runs of characters

  lemma {:induction false} SkipsAll(b: string, t: string)
    requires Blanks(b) && (t == "" || !Blank(t[0]))
    ensures SkipSpaces(b + t) == t
  {
    if b == "" {
      assert b + t == t;
    } else {
      assert (b + t)[1..] == b[1..] + t;
      SkipsAll(b[1..], t);
    }
  }

  /** What is skipped is blank, and what is left does not start with a blank. */
  lemma {:induction false} Skipped(s: string) returns (b: string)
    ensures s == b + SkipSpaces(s) && Blanks(b)
    ensures SkipSpaces(s) == "" || !Blank(SkipSpaces(s)[0])
  {
    if s != "" && IsSpace(s[0]) {
      var c := Skipped(s[1..]);
      b := [s[0]] + c;
      assert s == b + SkipSpaces(s);
    } else {
      b := "";
    }
  }

  lemma {:induction false} TakesWord(w: string, t: string)
    requires Word(w) && Ends(t)
    ensures WordLength(w + t) == |w| && (w + t)[..|w|] == w && (w + t)[|w|..] == t
  {
    WordLengthOf(w, t);
  }

  lemma {:induction false} WordTaken(s: string)
    ensures forall i :: 0 <= i < WordLength(s) ==> !Blank(s[i])
    ensures Ends(s[WordLength(s)..])
  {
    if s != "" && !IsSpace(s[0]) { WordTaken(s[1..]); }
  }

  lemma {:induction false} DigitsTaken(s: string)
    ensures forall i :: 0 <= i < DigitRun(s) ==> 48 <= s[i] as int <= 57
    ensures DigitRun(s) == |s| || !(48 <= s[DigitRun(s)] as int <= 57)
  {
    if s != "" && IsDigit(s[0]) { DigitsTaken(s[1..]); }
  }

  // ----- unsigned conversions

  /** The text starts with blanks, a sign or none, and a number of all the digits that follow. */
  predicate StartsWithNumber(s: string, b: string, sign: string, d: string, rest: string) {
    && s == b + sign + d + rest && Blanks(b) && Digits(d)
    && (sign == "" || sign == "-" || sign == "+")
    && (rest == "" || !(48 <= rest[0] as int <= 57))
  }

  lemma SignFirst(sign: string, u: string)
    requires u != "" && 48 <= u[0] as int <= 57 && (sign == "" || sign == "-" || sign == "+")
    ensures var t := sign + u;
            && t != "" && !Blank(t[0]) && (t[0] == '-' <==> sign == "-") && (t[0] == '+' <==> sign == "+")
            && t[|sign|..] == u
  {
    if sign == "" { assert sign + u == u; } else { assert (sign + u)[0] == sign[0]; }
  }

  lemma {:induction false} DigitsFirst(d: string, rest: string)
    requires Digits(d) && (rest == "" || !(48 <= rest[0] as int <= 57))
    ensures DigitRun(d + rest) == |d| && (d + rest)[..|d|] == d && (d + rest)[0] == d[0]
  {
    DigitRunOf(d, rest);
  }

  lemma Reassociated(a: string, b: string, c: string, d: string)
    ensures a + b + c + d == a + (b + (c + d))
  {
  }

  /** The number itself, modulo 2^32 when negated; undefined from 2^32 on. */
  lemma {:induction false} ScansNumber(s: string, b: string, sign: string, d: string, rest: string)
    requires StartsWithNumber(s, b, sign, d, rest)
    ensures ScanUnsigned(s) ==
            if ValueOf(d) >= 4294967296 then None
            else if sign == "-" && ValueOf(d) > 0 then Some(4294967296 - ValueOf(d))
            else Some(ValueOf(d))
  {
    hide DigitRun, ValueOf, SkipSpaces, Blanks, Blank;
    Reassociated(b, sign, d, rest);
    DigitsFirst(d, rest);
    SignFirst(sign, d + rest);
    SkipsAll(b, sign + (d + rest));
  }

  /** Cut into a sign and the rest. */
  lemma SignCut(t: string) returns (sign: string)
    requires t != ""
    ensures |sign| == if t[0] == '-' || t[0] == '+' then 1 else 0
    ensures t == sign + t[|sign|..] && (sign == "" || sign == "-" || sign == "+")
  {
    sign := if t[0] == '-' then "-" else if t[0] == '+' then "+" else "";
    assert t == sign + t[|sign|..];
  }

  lemma DigitsCut(u: string) returns (d: string, rest: string)
    requires DigitRun(u) > 0
    ensures u == d + rest && Digits(d) && (rest == "" || !(48 <= rest[0] as int <= 57))
  {
    DigitsTaken(u);
    d, rest := u[..DigitRun(u)], u[DigitRun(u)..];
  }

  /** Whatever scans starts with a number. */
  lemma ScannedNumber(s: string) returns (b: string, sign: string, d: string, rest: string)
    requires ScanUnsigned(s).Some?
    ensures StartsWithNumber(s, b, sign, d, rest)
  {
    hide DigitRun, ValueOf, SkipSpaces, Blanks, Blank, Digits;
    b := Skipped(s);
    var t := SkipSpaces(s);
    sign := SignCut(t);
    d, rest := DigitsCut(t[|sign|..]);
    Reassociated(b, sign, d, rest);
  }

  // ----- friend lines

  /** These are the words of the line: none without a leading dash or without a word after it, otherwise the
      first one or two. */
  ghost predicate HoldsWords(line: string, ws: seq<string>) {
    if |ws| == 0 then line == "" || line[0] != '-' || Blanks(line[1..])
    else if |ws| == 1 then
      exists b, c :: line == "-" + b + ws[0] + c && Blanks(b) && Word(ws[0]) && Blanks(c)
    else
      |ws| == 2 &&
      exists b, c, rest :: HoldsTwo(line, ws[0], ws[1], b, c, rest)
  }

  predicate HoldsTwo(line: string, w: string, v: string, b: string, c: string, rest: string) {
    && line == "-" + b + w + c + v + rest
    && Blanks(b) && Word(w) && Blanks(c) && c != "" && Word(v) && Ends(rest)
  }

  lemma {:induction false} AllSkipped(b: string)
    requires Blanks(b)
    ensures SkipSpaces(b) == ""
  {
    SkipsAll(b, "");
    assert b + "" == b;
  }

  lemma OneWord(line: string, w: string, b: string, c: string)
    requires line == "-" + b + w + c && Blanks(b) && Word(w) && Blanks(c)
    ensures FriendWords(line) == [w]
  {
    assert line[1..] == b + (w + c);
    assert (w + c)[0] == w[0];
    SkipsAll(b, w + c);
    TakesWord(w, c);
    AllSkipped(c);
  }

  lemma TwoWords(line: string, w: string, v: string, b: string, c: string, rest: string)
    requires HoldsTwo(line, w, v, b, c, rest)
    ensures FriendWords(line) == [w, v]
  {
    var t := c + (v + rest);
    assert line[1..] == b + (w + t);
    assert (w + t)[0] == w[0] && (v + rest)[0] == v[0] && t[0] == c[0];
    SkipsAll(b, w + t);
    TakesWord(w, t);
    SkipsAll(c, v + rest);
    TakesWord(v, rest);
  }

  /** Cut into blanks, a word or nothing, and the rest. */
  lemma WordCut(s: string) returns (b: string, w: string, rest: string)
    ensures s == b + w + rest && Blanks(b) && Ends(rest) && (w == "" || Word(w)) && (w == "" ==> rest == "")
    ensures w == SkipSpaces(s)[..WordLength(SkipSpaces(s))] && rest == SkipSpaces(s)[|w|..]
  {
    b := Skipped(s);
    var t := SkipSpaces(s);
    WordTaken(t);
    w, rest := t[..WordLength(t)], t[WordLength(t)..];
    assert t == w + rest;
  }

  lemma CutJoined(b: string, w: string, c: string, v: string, rest: string)
    ensures "-" + (b + w + (c + v + rest)) == "-" + b + w + c + v + rest
    ensures v == "" && rest == "" ==> "-" + b + w + c + v + rest == "-" + b + w + c
    ensures w == "" ==> b + w == b
  {
  }

  lemma NoBlankWord(t: string, c: string, v: string)
    requires t != "" && Ends(t) && Word(v) && |c + v| <= |t| && t[0] == (c + v)[0]
    ensures c != ""
  {
    assert c == "" ==> c + v == v;
  }

  lemma WordsHeld(line: string)
    ensures HoldsWords(line, FriendWords(line))
  {
    if line != "" && line[0] == '-' {
      hide SkipSpaces, WordLength, Blanks, Word;
      var b, w, t := WordCut(line[1..]);
      assert line == "-" + line[1..];
      if w == "" {
        assert line[1..] == b + "" + "" == b;
      } else {
        var c, v, rest := WordCut(t);
        CutJoined(b, w, c, v, rest);
        if v == "" {
          assert line == "-" + b + w + c && FriendWords(line) == [w];
        } else {
          assert t[0] == (c + v)[0];
          assert c != "" by { NoBlankWord(t, c, v); }
          assert HoldsTwo(line, w, v, b, c, rest);
          var ws := FriendWords(line);
          assert ws == [w, v] && HoldsTwo(line, ws[0], ws[1], b, c, rest);
        }
      }
    }
  }

  /** A line has exactly the words it holds. */
  lemma FriendWordsIff(line: string, ws: seq<string>)
    ensures FriendWords(line) == ws <==> HoldsWords(line, ws)
  {
    WordsHeld(line);
    if HoldsWords(line, ws) {
      if |ws| == 0 {
        if line != "" && line[0] == '-' { AllSkipped(line[1..]); }
      } else if |ws| == 1 {
        var b, c :| line == "-" + b + ws[0] + c && Blanks(b) && Word(ws[0]) && Blanks(c);
        OneWord(line, ws[0], b, c);
      } else {
        var b, c, rest :| HoldsTwo(line, ws[0], ws[1], b, c, rest);
        TwoWords(line, ws[0], ws[1], b, c, rest);
      }
    }
  }

  /** Prepends what one line means to what follows. */
  function Prepended(e: Entry, r: EntriesResult): EntriesResult {
    match r case Entries(fs, rest) => Entries([e] + fs, rest) case _ => r
  }

  /** One friend line, whatever it holds: a word above its limit overruns a buffer, a line without a word repeats
      the name before it, and one at the start of a list has none to repeat. */
  lemma {:induction false} EntryRead(line: string, rest: string, ws: seq<string>, before: Option<string>)
    requires LineName(line) && line != "." && HoldsWords(line, ws)
    ensures ReadEntries(line + "\n" + rest, before) ==
            if (|ws| >= 1 && |ws[0]| > 19) || (|ws| == 2 && |ws[1]| > 9) then UndefinedEntries
            else if ws == [] && before == None then UndefinedEntries
            else
              var who := if ws == [] then before.value else ws[0];
              var status := if |ws| < 2 then Friends else if ws[1] == "requested" then Requested else ToAnswer;
              Prepended(Entry(who, status), ReadEntries(rest, Some(who)))
  {
    FriendWordsIff(line, ws);
    GetLineOf(line, rest, 1);
  }

  // ----- numbers

  /** A written number has no leading zero. */
  lemma {:induction false} NoLeadingZero(n: nat)
    ensures Decimal(n)[0] == '0' ==> n == 0
    ensures n == 0 ==> Decimal(n) == "0"
  {
    if n >= 10 {
      NoLeadingZero(n / 10);
      assert Decimal(n)[0] == Decimal(n / 10)[0];
    }
  }

  // ----- a file, character by character

  lemma ExampleHeader()
    ensures Decimal(120) == "120" && ValueOf("120") == 120
  {
    assert Decimal(120) == Decimal(12) + "0" && Decimal(12) == Decimal(1) + "2";
    assert "120"[..2] == "12" && "12"[..1] == "1" && "1"[..0] == "";
  }

  lemma ExampleLines()
    ensures EntryLine(Entry("b", Requested)) == "- b requested"
    ensures EntryLine(Entry("b", ToAnswer)) == "- b toanswer"
    ensures EntryLine(Entry("b", Friends)) == "- b"
  {
  }

  lemma {:induction false} UserText(a: Account, rest: Accounts)
    ensures RenderUsers([a] + rest) == a.name + "\n" + RenderEntries(a.friends) + ".\n" + RenderUsers(rest)
  {
    assert ([a] + rest)[1..] == rest;
  }

  lemma OneEntryText(e: Entry)
    ensures RenderEntries([e]) == EntryLine(e) + "\n"
  {
    assert [e][1..] == [];
  }

  lemma EmptyTexts(e: Entry)
    ensures RenderUsers([]) == "" && RenderEntries([]) == ""
    ensures e == Entry("a", Friends) ==> EntryLine(e) == "- a"
  {
  }

  /** A stored count and two users, one of whom lists the other. */
  lemma ExampleFile()
    ensures Render(120, [Fresh("a"), Account("b", true, 5, [Entry("a", Friends)])]) ==
            "120 users:\na\n.\nb\n- a\n.\n"
  {
    hide Decimal, RenderEntries, RenderUsers, EntryLine;
    ExampleHeader();
    var a, b, e := Fresh("a"), Account("b", true, 5, [Entry("a", Friends)]), Entry("a", Friends);
    UserText(a, [b]);
    UserText(b, []);
    OneEntryText(e);
    EmptyTexts(e);
    assert [b] + [] == [b] && [a] + [b] == [a, b];
  }
}
