/** Reading back what was written. */
module DbRoundTrip {
  import opened ImAccounts
  import opened DbText
  import opened Options

  /** A name the reader takes back as one word on one line. */
  predicate CleanName(s: string) {
    s != "" && forall i :: 0 <= i < |s| ==> !IsSpace(s[i])
  }

  predicate OneLine(s: string) {
    forall i :: 0 <= i < |s| ==> s[i] != '\n'
  }

  /** A name the reader takes back as one line; it may hold blanks. */
  predicate LineName(s: string) { s != "" && OneLine(s) }

  ghost predicate CleanEntries(fs: seq<Entry>) {
    forall i :: 0 <= i < |fs| ==> CleanName(fs[i].who) && fs[i].status != NotFriends
  }

  ghost predicate CleanDb(db: Accounts) {
    forall i :: 0 <= i < |db| ==> LineName(db[i].name) && CleanEntries(db[i].friends)
  }

  /** Every friend name leaves room for its terminator in the reader's buffer. */
  predicate FitsEntries(fs: seq<Entry>) {
    forall i :: 0 <= i < |fs| ==> |fs[i].who| <= 19
  }

  predicate Fits(db: Accounts) {
    forall i :: 0 <= i < |db| ==> FitsEntries(db[i].friends)
  }

  /** The database after a restart: the same users and lists, nobody logged in. */
  function Restarted(db: Accounts): Accounts {
    if db == [] then [] else [db[0].(active := false, connfd := -1)] + Restarted(db[1..])
  }

  // ----- numbers

  lemma {:induction false} DecimalValue(n: nat)
    ensures ValueOf(Decimal(n)) == n && |Decimal(n)| > 0
    ensures forall i :: 0 <= i < |Decimal(n)| ==> IsDigit(Decimal(n)[i])
  {
    if n >= 10 {
      DecimalValue(n / 10);
      assert Decimal(n)[..|Decimal(n)|-1] == Decimal(n / 10);
    } else {
      assert Decimal(n)[..0] == "";
    }
  }

  lemma {:induction false} DigitRunOf(s: string, t: string)
    requires forall i :: 0 <= i < |s| ==> IsDigit(s[i])
    requires t == "" || !IsDigit(t[0])
    ensures DigitRun(s + t) == |s|
  {
    if s == "" {
      assert s + t == t;
    } else {
      assert (s + t)[1..] == s[1..] + t;
      DigitRunOf(s[1..], t);
    }
  }

  lemma {:induction false} HeaderScans(n: nat)
    requires n < UNSIGNED_RANGE
    ensures ScanUnsigned(Decimal(n) + " users:") == Some(n)
  {
    DecimalValue(n);
    DigitRunOf(Decimal(n), " users:");
    assert (Decimal(n) + " users:")[..|Decimal(n)|] == Decimal(n);
  }

  // ----- lines and words

  lemma {:induction false} LineEndOf(s: string, t: string)
    requires OneLine(s)
    ensures LineEnd(s + "\n" + t) == |s|
  {
    if s != "" {
      assert (s + "\n" + t)[1..] == s[1..] + "\n" + t;
      LineEndOf(s[1..], t);
    }
  }

  lemma GetLineOf(s: string, t: string, want: nat)
    requires OneLine(s) && |s| >= want && s != ""
    ensures GetLine(s + "\n" + t, want) == Some((s, t))
  {
    LineEndOf(s, t);
    var x := s + "\n" + t;
    assert x[..|s|] == s && x[|s| + 1..] == t;
  }

  lemma {:induction false} WordLengthOf(s: string, t: string)
    requires forall i :: 0 <= i < |s| ==> !IsSpace(s[i])
    requires t == "" || IsSpace(t[0])
    ensures WordLength(s + t) == |s|
  {
    if s == "" {
      assert s + t == t;
    } else {
      assert (s + t)[1..] == s[1..] + t;
      WordLengthOf(s[1..], t);
    }
  }

  lemma {:induction false} SkipOneSpace(s: string)
    requires CleanName(s)
    ensures SkipSpaces(" " + s) == s && SkipSpaces(s) == s
  {
    assert (" " + s)[1..] == s;
  }

  /** The words of a written friend line. */
  function EntryWords(e: Entry): seq<string> {
    match e.status
    case Requested => [e.who, "requested"]
    case ToAnswer => [e.who, "toanswer"]
    case _ => [e.who]
  }

  lemma WordsOfLine(who: string, tail: string, word: string)
    requires CleanName(who) && (tail == "" || (tail == " " + word && CleanName(word)))
    ensures FriendWords("- " + who + tail) == if tail == "" then [who] else [who, word]
  {
    var line := "- " + who + tail;
    var s := who + tail;
    assert line[1..] == " " + s;
    assert (" " + s)[1..] == s;
    assert s[0] == who[0];
    assert SkipSpaces(" " + s) == s;
    WordLengthOf(who, tail);
    assert s[..|who|] == who && s[|who|..] == tail;
    if tail != "" {
      SkipOneSpace(word);
      WordLengthOf(word, "");
      assert word + "" == word;
    }
  }

  lemma EntryLineWords(e: Entry)
    requires CleanName(e.who)
    ensures FriendWords(EntryLine(e)) == EntryWords(e)
  {
    match e.status
    case Requested => WordsOfLine(e.who, " requested", "requested");
    case ToAnswer => WordsOfLine(e.who, " toanswer", "toanswer");
    case _ => WordsOfLine(e.who, "", "");
  }

  lemma EntryLineIsLine(e: Entry)
    requires CleanName(e.who)
    ensures OneLine(EntryLine(e)) && EntryLine(e) != "." && |EntryLine(e)| > 2
  {
    assert EntryLine(e)[0] == '-';
    var t := "- " + e.who;
    assert EntryLine(e) == t + Suffix(e.status);
    assert OneLine(t);
  }

  // ----- entries

  lemma {:induction false} EntriesSplit(fs: seq<Entry>, t: string)
    requires fs != []
    ensures RenderEntries(fs) + ".\n" + t == EntryLine(fs[0]) + "\n" + (RenderEntries(fs[1..]) + ".\n" + t)
  {
  }

  lemma DotLine(t: string)
    ensures GetLine(".\n" + t, 1) == Some((".", t))
  {
    GetLineOf(".", t, 1);
    assert ".\n" + t == "." + "\n" + t;
  }

  lemma {:induction false} SkipWritten(fs: seq<Entry>, t: string)
    requires CleanEntries(fs)
    ensures SkipEntries(RenderEntries(fs) + ".\n" + t) == Some(t)
  {
    if fs == [] {
      DotLine(t);
      assert RenderEntries(fs) + ".\n" + t == ".\n" + t;
    } else {
      SkipWritten(fs[1..], t);
      EntriesSplit(fs, t);
      EntryLineIsLine(fs[0]);
      GetLineOf(EntryLine(fs[0]), RenderEntries(fs[1..]) + ".\n" + t, 1);
    }
  }

  lemma WordsBuffered(e: Entry, fname: Option<string>)
    requires CleanName(e.who) && e.status != NotFriends
    ensures Buffered(EntryWords(e), fname) == if |e.who| < FNAME_SIZE then Some(Some(e.who)) else None
    ensures StatusOf(EntryWords(e)) == e.status
  {
  }

  /** One written entry in front of what the second pass reads on with. */
  lemma {:induction false} ReadFirstEntry(fs: seq<Entry>, t: string, fname: Option<string>)
    requires CleanEntries(fs) && fs != []
    ensures var text, rest := RenderEntries(fs) + ".\n" + t, RenderEntries(fs[1..]) + ".\n" + t;
            GetLine(text, 1) == Some((EntryLine(fs[0]), rest)) && EntryLine(fs[0]) != "."
    ensures Buffered(FriendWords(EntryLine(fs[0])), fname) ==
            if |fs[0].who| < FNAME_SIZE then Some(Some(fs[0].who)) else None
    ensures StatusOf(FriendWords(EntryLine(fs[0]))) == fs[0].status
  {
    EntriesSplit(fs, t);
    EntryLineIsLine(fs[0]);
    EntryLineWords(fs[0]);
    GetLineOf(EntryLine(fs[0]), RenderEntries(fs[1..]) + ".\n" + t, 1);
    WordsBuffered(fs[0], fname);
  }

  lemma {:induction false} ReadOneEntry(s: string, fname: Option<string>, e: Entry, rest: string)
    requires GetLine(s, 1) == Some((EntryLine(e), rest)) && EntryLine(e) != "."
    requires Buffered(FriendWords(EntryLine(e)), fname) == Some(Some(e.who))
    requires StatusOf(FriendWords(EntryLine(e))) == e.status
    ensures ReadEntries(rest, Some(e.who)).UndefinedEntries? ==> ReadEntries(s, fname) == UndefinedEntries
    ensures ReadEntries(rest, Some(e.who)).Entries? ==>
              var r := ReadEntries(rest, Some(e.who)); ReadEntries(s, fname) == Entries([e] + r.fs, r.rest)
  {
  }

  lemma {:induction false} ReadLongEntry(s: string, fname: Option<string>, e: Entry, rest: string)
    requires GetLine(s, 1) == Some((EntryLine(e), rest)) && EntryLine(e) != "."
    requires Buffered(FriendWords(EntryLine(e)), fname) == None
    ensures ReadEntries(s, fname) == UndefinedEntries
  {
  }

  lemma {:induction false} ReadNoEntries(fs: seq<Entry>, t: string, fname: Option<string>)
    requires fs == []
    ensures ReadEntries(RenderEntries(fs) + ".\n" + t, fname) == Entries(fs, t)
  {
    DotLine(t);
    assert RenderEntries(fs) + ".\n" + t == ".\n" + t;
  }

  lemma FitsEntriesSplit(fs: seq<Entry>)
    requires fs != []
    ensures FitsEntries(fs) <==> |fs[0].who| < FNAME_SIZE && FitsEntries(fs[1..])
  {
    assert fs == [fs[0]] + fs[1..];
  }

  /** The second pass takes back every entry, in order, when every friend name fits. */
  lemma {:induction false} ReadWrittenEntries(fs: seq<Entry>, t: string, fname: Option<string>)
    requires CleanEntries(fs) && FitsEntries(fs)
    ensures ReadEntries(RenderEntries(fs) + ".\n" + t, fname) == Entries(fs, t)
  {
    hide ReadEntries, RenderEntries;
    if fs == [] {
      ReadNoEntries(fs, t, fname);
    } else {
      FitsEntriesSplit(fs);
      ReadWrittenEntries(fs[1..], t, Some(fs[0].who));
      ReadFirstEntry(fs, t, fname);
      ReadOneEntry(RenderEntries(fs) + ".\n" + t, fname, fs[0], RenderEntries(fs[1..]) + ".\n" + t);
      assert [fs[0]] + fs[1..] == fs;
    }
  }

  /** It overruns its buffer when one does not. */
  lemma {:induction false} ReadOverrunEntries(fs: seq<Entry>, t: string, fname: Option<string>)
    requires CleanEntries(fs) && !FitsEntries(fs)
    ensures ReadEntries(RenderEntries(fs) + ".\n" + t, fname) == UndefinedEntries
  {
    hide ReadEntries, RenderEntries;
    FitsEntriesSplit(fs);
    ReadFirstEntry(fs, t, fname);
    if |fs[0].who| < FNAME_SIZE {
      ReadOverrunEntries(fs[1..], t, Some(fs[0].who));
      ReadOneEntry(RenderEntries(fs) + ".\n" + t, fname, fs[0], RenderEntries(fs[1..]) + ".\n" + t);
    } else {
      ReadLongEntry(RenderEntries(fs) + ".\n" + t, fname, fs[0], RenderEntries(fs[1..]) + ".\n" + t);
    }
  }

  // ----- users

  function FriendLists(db: Accounts): seq<seq<Entry>> {
    if db == [] then [] else [db[0].friends] + FriendLists(db[1..])
  }

  lemma {:induction false} UsersSplit(db: Accounts)
    requires db != []
    ensures RenderUsers(db) ==
            db[0].name + "\n" + (RenderEntries(db[0].friends) + ".\n" + RenderUsers(db[1..]))
  {
  }

  lemma NameLine(name: string, t: string)
    requires LineName(name)
    ensures GetLine(name + "\n" + t, 1) == Some((name, t))
  {
    GetLineOf(name, t, 1);
  }

  lemma ReadNamesStep(db: Accounts, n: nat)
    requires CleanDb(db) && db != [] && n > 0
    ensures var r, rest := ReadNames(RenderUsers(db), n), ReadNames(RenderUsers(db[1..]), n - 1);
            && (rest.None? ==> r.None?)
            && (rest.Some? ==> r == Some([db[0].name] + rest.value))
  {
    var t := RenderUsers(db[1..]);
    UsersSplit(db);
    NameLine(db[0].name, RenderEntries(db[0].friends) + ".\n" + t);
    SkipWritten(db[0].friends, t);
  }

  lemma NamesPrefix(db: Accounts, n: nat)
    requires 0 < n <= |db|
    ensures UserNames(db[..n]) == [db[0].name] + UserNames(db[1..][..n - 1])
    ensures FriendLists(db[..n]) == [db[0].friends] + FriendLists(db[1..][..n - 1])
  {
    assert db[..n][1..] == db[1..][..n - 1];
  }

  lemma CleanTail(db: Accounts)
    requires CleanDb(db) && db != []
    ensures CleanDb(db[1..])
  {
  }

  lemma {:induction false} NoNames(db: Accounts, n: nat)
    requires db == [] && n > 0
    ensures ReadNames(RenderUsers(db), n) == None
  {
    assert GetLine("", 1) == None;
  }

  lemma {:induction false} NoNamesWanted(db: Accounts)
    ensures ReadNames(RenderUsers(db), 0) == Some(UserNames(db[..0]))
    ensures ReadLists(RenderUsers(db), 0) == Lists(FriendLists(db[..0]))
  {
    assert db[..0] == [];
  }

  lemma FirstName(db: Accounts, n: nat)
    requires CleanDb(db) && 0 < n <= |db|
    requires ReadNames(RenderUsers(db[1..]), n - 1) == Some(UserNames(db[1..][..n - 1]))
    ensures ReadNames(RenderUsers(db), n) == Some(UserNames(db[..n]))
  {
    ReadNamesStep(db, n);
    NamesPrefix(db, n);
  }

  lemma NoFirstName(db: Accounts, n: nat)
    requires CleanDb(db) && db != [] && n > 0
    requires ReadNames(RenderUsers(db[1..]), n - 1) == None
    ensures ReadNames(RenderUsers(db), n) == None
  {
    ReadNamesStep(db, n);
  }

  /** The first pass finds the first n names. */
  lemma {:induction false} ReadWrittenNames(db: Accounts, n: nat)
    requires CleanDb(db) && n <= |db|
    ensures ReadNames(RenderUsers(db), n) == Some(UserNames(db[..n]))
    decreases n
  {
    hide CleanDb, ReadNames, RenderUsers;
    if n == 0 {
      NoNamesWanted(db);
    } else {
      CleanTail(db);
      ReadWrittenNames(db[1..], n - 1);
      FirstName(db, n);
    }
  }

  /** It runs out of lines when more users are announced than written. */
  lemma {:induction false} ReadTooManyNames(db: Accounts, n: nat)
    requires CleanDb(db) && n > |db|
    ensures ReadNames(RenderUsers(db), n) == None
    decreases n
  {
    hide CleanDb, ReadNames, RenderUsers;
    if db == [] {
      NoNames(db, n);
    } else {
      CleanTail(db);
      ReadTooManyNames(db[1..], n - 1);
      NoFirstName(db, n);
    }
  }

  lemma FitsSplit(db: Accounts)
    requires db != []
    ensures Fits(db) <==> FitsEntries(db[0].friends) && Fits(db[1..])
  {
    assert db == [db[0]] + db[1..];
  }

  lemma ReadListsStep(db: Accounts, n: nat)
    requires CleanDb(db) && db != [] && n > 0
    ensures var r, rest := ReadLists(RenderUsers(db), n), ReadLists(RenderUsers(db[1..]), n - 1);
            && (rest.UndefinedLists? ==> r.UndefinedLists?)
            && (FitsEntries(db[0].friends) && rest.Lists? ==> r == Lists([db[0].friends] + rest.lists))
            && (!FitsEntries(db[0].friends) ==> r.UndefinedLists?)
  {
    var t := RenderUsers(db[1..]);
    UsersSplit(db);
    NameLine(db[0].name, RenderEntries(db[0].friends) + ".\n" + t);
    if FitsEntries(db[0].friends) { ReadWrittenEntries(db[0].friends, t, None); }
    else { ReadOverrunEntries(db[0].friends, t, None); }
  }

  lemma FitsPrefix(db: Accounts, n: nat)
    requires 0 < n <= |db|
    ensures Fits(db[..n]) <==> FitsEntries(db[0].friends) && Fits(db[1..][..n - 1])
  {
    FitsSplit(db[..n]);
    assert db[..n][1..] == db[1..][..n - 1];
  }

  lemma FirstList(db: Accounts, n: nat)
    requires CleanDb(db) && 0 < n <= |db| && FitsEntries(db[0].friends)
    requires ReadLists(RenderUsers(db[1..]), n - 1) == Lists(FriendLists(db[1..][..n - 1]))
    ensures ReadLists(RenderUsers(db), n) == Lists(FriendLists(db[..n]))
  {
    ReadListsStep(db, n);
    NamesPrefix(db, n);
  }

  lemma {:induction false} OverrunHere(db: Accounts, n: nat)
    requires CleanDb(db) && db != [] && n > 0 && !FitsEntries(db[0].friends)
    ensures ReadLists(RenderUsers(db), n) == UndefinedLists
  {
    ReadListsStep(db, n);
  }

  lemma OverrunLater(db: Accounts, n: nat)
    requires CleanDb(db) && db != [] && n > 0 && ReadLists(RenderUsers(db[1..]), n - 1) == UndefinedLists
    ensures ReadLists(RenderUsers(db), n) == UndefinedLists
  {
    ReadListsStep(db, n);
  }

  /** The second pass takes back the first n lists when every friend name in them fits. */
  lemma {:induction false} ReadWrittenLists(db: Accounts, n: nat)
    requires CleanDb(db) && n <= |db| && Fits(db[..n])
    ensures ReadLists(RenderUsers(db), n) == Lists(FriendLists(db[..n]))
    decreases n
  {
    hide CleanDb, ReadLists, RenderUsers;
    if n == 0 {
      NoNamesWanted(db);
    } else {
      CleanTail(db);
      FitsPrefix(db, n);
      ReadWrittenLists(db[1..], n - 1);
      FirstList(db, n);
    }
  }

  /** It overruns its buffer when one does not. */
  lemma {:induction false} ReadOverrunLists(db: Accounts, n: nat)
    requires CleanDb(db) && n <= |db| && !Fits(db[..n])
    ensures ReadLists(RenderUsers(db), n) == UndefinedLists
    decreases n
  {
    if n > 0 {
      hide CleanDb, ReadLists, RenderUsers;
      CleanTail(db);
      FitsPrefix(db, n);
      if FitsEntries(db[0].friends) {
        ReadOverrunLists(db[1..], n - 1);
        OverrunLater(db, n);
      } else {
        OverrunHere(db, n);
      }
    }
  }

  lemma {:induction false} AssembledParts(db: Accounts)
    ensures |UserNames(db)| == |FriendLists(db)| == |db|
    ensures Assembled(UserNames(db), FriendLists(db)) == Restarted(db)
  {
    if db != [] {
      AssembledParts(db[1..]);
      assert UserNames(db)[1..] == UserNames(db[1..]) && FriendLists(db)[1..] == FriendLists(db[1..]);
    }
  }

  lemma {:induction false} WrittenHeader(unum: nat, db: Accounts)
    requires unum < UNSIGNED_RANGE
    ensures GetLine(Render(unum, db), 8) == Some((Decimal(unum) + " users:", RenderUsers(db)))
    ensures ScanUnsigned(Decimal(unum) + " users:") == Some(unum)
  {
    var header := Decimal(unum) + " users:";
    DecimalValue(unum);
    assert OneLine(header) by {
      assert OneLine(Decimal(unum)) && OneLine(" users:");
    }
    assert Render(unum, db) == header + "\n" + RenderUsers(db);
    GetLineOf(header, RenderUsers(db), 8);
    HeaderScans(unum);
  }

  // ----- the theorems

  /** What reading makes of a written database, for every stored count: the first `unum` users with
      their lists when there are that many and every friend name among them fits the buffer, an
      overrun when one does not, a rejected file when the count is too large. */
  lemma ReadWritten(unum: nat, db: Accounts)
    requires CleanDb(db) && unum < UNSIGNED_RANGE
    ensures ReadDb(Render(unum, db)) ==
            if unum > |db| then Rejected
            else if Fits(db[..unum]) then Loaded(unum, Restarted(db[..unum]))
            else Undefined
  {
    WrittenHeader(unum, db);
    if unum > |db| {
      ReadTooManyNames(db, unum);
    } else {
      ReadWrittenNames(db, unum);
      if Fits(db[..unum]) {
        ReadWrittenLists(db, unum);
        AssembledParts(db[..unum]);
      } else {
        ReadOverrunLists(db, unum);
      }
    }
  }

  lemma {:induction false} RestartedLength(db: Accounts)
    ensures |Restarted(db)| == |db|
    ensures forall i :: 0 <= i < |db| ==> Restarted(db)[i] == db[i].(active := false, connfd := -1)
  {
    if db != [] { RestartedLength(db[1..]); }
  }

  // ----- whatever the file

  lemma {:induction false} LineEndFirst(s: string)
    ensures forall i :: 0 <= i < LineEnd(s) ==> s[i] != '\n'
  {
    if s != "" && s[0] != '\n' { LineEndFirst(s[1..]); }
  }

  lemma GotLine(s: string, want: nat)
    ensures var r := GetLine(s, want); r.Some? ==> LineName(r.value.0)
  {
    LineEndFirst(s);
  }

  lemma {:induction false} WordFree(s: string)
    ensures forall i :: 0 <= i < WordLength(s) ==> !IsSpace(s[i])
  {
    if s != "" && !IsSpace(s[0]) { WordFree(s[1..]); }
  }

  lemma GotWords(line: string)
    ensures forall i :: 0 <= i < |FriendWords(line)| ==> CleanName(FriendWords(line)[i])
  {
    if line != "" && line[0] == '-' {
      var s := SkipSpaces(line[1..]);
      WordFree(s);
      WordFree(SkipSpaces(s[WordLength(s)..]));
    }
  }

  predicate LineNames(ns: seq<string>) {
    forall i :: 0 <= i < |ns| ==> LineName(ns[i])
  }

  lemma LineNamesCons(name: string, ns: seq<string>)
    requires LineName(name) && LineNames(ns)
    ensures LineNames([name] + ns) && LineNames([])
  {
  }

  lemma {:induction false} GotNames(s: string, n: nat)
    ensures ReadNames(s, n).Some? ==> LineNames(ReadNames(s, n).value)
    decreases n
  {
    if n > 0 {
      hide LineNames, LineName, GetLine, SkipEntries;
      GotLine(s, 1);
      var line := GetLine(s, 1);
      if line.Some? && SkipEntries(line.value.1).Some? {
        var s2 := SkipEntries(line.value.1).value;
        GotNames(s2, n - 1);
        if ReadNames(s2, n - 1).Some? { LineNamesCons(line.value.0, ReadNames(s2, n - 1).value); }
      }
    }
  }

  predicate GoodBuffer(fname: Option<string>) {
    fname.Some? ==> CleanName(fname.value) && |fname.value| < FNAME_SIZE
  }

  lemma GotBuffer(line: string, fname: Option<string>)
    requires GoodBuffer(fname)
    ensures var b := Buffered(FriendWords(line), fname); b.Some? ==> GoodBuffer(b.value)
    ensures StatusOf(FriendWords(line)) != NotFriends
  {
    GotWords(line);
  }

  lemma {:induction false} GotEntries(s: string, fname: Option<string>)
    requires GoodBuffer(fname)
    ensures var r := ReadEntries(s, fname); r.Entries? ==> CleanEntries(r.fs) && FitsEntries(r.fs)
    decreases |s|
  {
    var line := GetLine(s, 1);
    if line.Some? && line.value.0 != "." {
      GotBuffer(line.value.0, fname);
      var b := Buffered(FriendWords(line.value.0), fname);
      if b.Some? { GotEntries(line.value.1, b.value); }
    }
  }

  ghost predicate GoodLists(ls: seq<seq<Entry>>) {
    forall i :: 0 <= i < |ls| ==> CleanEntries(ls[i]) && FitsEntries(ls[i])
  }

  lemma GoodListsCons(fs: seq<Entry>, ls: seq<seq<Entry>>)
    requires CleanEntries(fs) && FitsEntries(fs) && GoodLists(ls)
    ensures GoodLists([fs] + ls)
  {
  }

  lemma {:induction false} NoLists(s: string)
    ensures ReadLists(s, 0) == Lists([]) && GoodLists([])
  {
  }

  /** What a second pass that succeeds took from the first user. */
  lemma FirstOfLists(s: string, n: nat) returns (fs: seq<Entry>, from: string, rest: string)
    requires n > 0 && ReadLists(s, n).Lists?
    ensures ReadEntries(from, None) == Entries(fs, rest) && ReadLists(rest, n - 1).Lists?
    ensures ReadLists(s, n).lists == [fs] + ReadLists(rest, n - 1).lists
  {
    from := GetLine(s, 1).value.1;
    var e := ReadEntries(from, None);
    fs, rest := e.fs, e.rest;
  }

  lemma {:induction false} GotLists(s: string, n: nat)
    ensures ReadLists(s, n).Lists? ==> GoodLists(ReadLists(s, n).lists)
    decreases n
  {
    hide GoodLists, CleanEntries, FitsEntries, ReadEntries, ReadLists;
    if n == 0 {
      NoLists(s);
    } else if ReadLists(s, n).Lists? {
      var fs, from, rest := FirstOfLists(s, n);
      GotEntries(from, None);
      GotLists(rest, n - 1);
      GoodListsCons(fs, ReadLists(rest, n - 1).lists);
    }
  }

  lemma {:induction false} AssembledClean(names: seq<string>, lists: seq<seq<Entry>>)
    requires |names| == |lists| && LineNames(names) && GoodLists(lists)
    ensures var db := Assembled(names, lists); |db| == |names| && CleanDb(db) && Fits(db)
  {
    if names != [] {
      AssembledClean(names[1..], lists[1..]);
      var db := Assembled(names[1..], lists[1..]);
      var x := Account(names[0], false, -1, lists[0]);
      assert Assembled(names, lists) == [x] + db;
      assert forall i :: 1 <= i < |db| + 1 ==> ([x] + db)[i] == db[i - 1];
    }
  }

  /** Whatever the text, what is loaded has the stated number of users, names of one line, friend names of
      one word that fit the buffer, and real statuses. */
  lemma LoadedIsClean(text: string)
    requires ReadDb(text).Loaded?
    ensures var r := ReadDb(text); |r.db| == r.unum && CleanDb(r.db) && Fits(r.db)
  {
    var body, n := GetLine(text, 8).value.1, ReadDb(text).unum;
    GotNames(body, n);
    GotLists(body, n);
    hide LineNames, GoodLists, CleanDb, Fits, GetLine, ReadNames, ReadLists, Assembled;
    AssembledClean(ReadNames(body, n).value, ReadLists(body, n).lists);
  }

  lemma {:induction false} RestartedClean(db: Accounts)
    ensures CleanDb(Restarted(db)) <==> CleanDb(db)
    ensures Fits(Restarted(db)) <==> Fits(db)
  {
    RestartedLength(db);
  }

  /** Reading gives a database back exactly when the stored count is the number of users, user names are
      non-empty lines, friend names single words that fit the reader's buffer, and statuses real. */
  lemma {:induction false} RoundTripIff(unum: nat, db: Accounts)
    requires unum < UNSIGNED_RANGE
    ensures ReadDb(Render(unum, db)) == Loaded(|db|, Restarted(db)) <==> unum == |db| && CleanDb(db) && Fits(db)
  {
    WrittenHeader(unum, db);
    if ReadDb(Render(unum, db)) == Loaded(|db|, Restarted(db)) {
      LoadedIsClean(Render(unum, db));
      RestartedClean(db);
    } else if unum == |db| && CleanDb(db) {
      ReadWritten(unum, db);
      assert db[..|db|] == db;
    }
  }
}
