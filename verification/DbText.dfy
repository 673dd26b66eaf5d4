/** The database file: what the writer writes and what the two-pass reader makes of a text. */
module DbText {
  import opened ImAccounts
  import opened Options

  // ----- numbers

  function Digit(d: nat): char
    requires d < 10
  {
    '0' + d as char
  }

  function Decimal(n: nat): string {
    if n < 10 then [Digit(n)] else Decimal(n / 10) + [Digit(n % 10)]
  }

  predicate IsDigit(c: char) { '0' <= c <= '9' }

  function DigitRun(s: string): (k: nat)
    ensures k <= |s|
  {
    if s == "" || !IsDigit(s[0]) then 0 else 1 + DigitRun(s[1..])
  }

  function ValueOf(s: string): nat {
    if s == "" then 0
    else 10 * ValueOf(s[..|s|-1]) + if IsDigit(s[|s|-1]) then s[|s|-1] as int - '0' as int else 0
  }

  // ----- lines and words

  function LineEnd(s: string): (k: nat)
    ensures k <= |s|
    ensures k < |s| ==> s[k] == '\n'
  {
    if s == "" || s[0] == '\n' then 0 else 1 + LineEnd(s[1..])
  }

  /** One line and what follows it; None at the end of the file, for a line without a newline, for an
      empty line and for one shorter than wanted. */
  function GetLine(s: string, want: nat): (r: Option<(string, string)>)
    ensures r.Some? ==> |r.value.1| < |s|
  {
    var k := LineEnd(s);
    if k == |s| || k == 0 || k < want then None else Some((s[..k], s[k + 1..]))
  }

  predicate IsSpace(c: char) {
    c == ' ' || '\t' <= c <= '\r'
  }

  function SkipSpaces(s: string): (r: string)
    ensures |r| <= |s|
  {
    if s != "" && IsSpace(s[0]) then SkipSpaces(s[1..]) else s
  }

  function WordLength(s: string): (k: nat)
    ensures k <= |s|
  {
    if s == "" || IsSpace(s[0]) then 0 else 1 + WordLength(s[1..])
  }

  const UNSIGNED_RANGE := 0x1_0000_0000

  /** An unsigned conversion: blanks, a sign and digits; a minus sign negates in 32 bits.  None when there
      are no digits, so that the variable stays unassigned, and when the number does not fit, for which
      C leaves the outcome open. */
  function ScanUnsigned(s: string): Option<nat> {
    var t := SkipSpaces(s);
    var signed := t != "" && (t[0] == '-' || t[0] == '+');
    var u := if signed then t[1..] else t;
    var k := DigitRun(u);
    var v := ValueOf(u[..k]);
    if k == 0 || v >= UNSIGNED_RANGE then None
    else if signed && t[0] == '-' then Some((UNSIGNED_RANGE - v) % UNSIGNED_RANGE)
    else Some(v)
  }

  /** The words a friend line yields: a dash, then up to two words. */
  function FriendWords(line: string): (ws: seq<string>)
    ensures |ws| <= 2
  {
    if line == "" || line[0] != '-' then []
    else
      var s := SkipSpaces(line[1..]);
      var k := WordLength(s);
      if k == 0 then []
      else
        var t := SkipSpaces(s[k..]);
        var m := WordLength(t);
        if m == 0 then [s[..k]] else [s[..k], t[..m]]
  }

  // ----- the writer

  function Suffix(s: Status): string {
    match s case Requested => " requested" case ToAnswer => " toanswer" case _ => ""
  }

  function EntryLine(e: Entry): string {
    "- " + e.who + Suffix(e.status)
  }

  function RenderEntries(fs: seq<Entry>): string {
    if fs == [] then "" else EntryLine(fs[0]) + "\n" + RenderEntries(fs[1..])
  }

  function RenderUsers(db: Accounts): string {
    if db == [] then ""
    else db[0].name + "\n" + RenderEntries(db[0].friends) + ".\n" + RenderUsers(db[1..])
  }

  /** The header states the stored user count, which need not be the number of users written. */
  function Render(unum: nat, db: Accounts): string {
    Decimal(unum) + " users:\n" + RenderUsers(db)
  }

  // ----- the reader

  /** Undefined: the source reads an unassigned variable or overruns a buffer. */
  datatype ReadResult = Loaded(unum: nat, db: Accounts) | Rejected | Undefined

  datatype EntriesResult = Entries(fs: seq<Entry>, rest: string) | BadEntries | UndefinedEntries

  /** Skips to the line after the next ".". */
  function SkipEntries(s: string): (r: Option<string>)
    ensures r.Some? ==> |r.value| < |s|
    decreases |s|
  {
    match GetLine(s, 1)
    case None => None
    case Some((line, rest)) => if line == "." then Some(rest) else SkipEntries(rest)
  }

  /** First pass: the user names. */
  function ReadNames(s: string, n: nat): (r: Option<seq<string>>)
    ensures r.Some? ==> |r.value| == n
    decreases n
  {
    if n == 0 then Some([])
    else
      match GetLine(s, 1)
      case None => None
      case Some((name, s1)) =>
        match SkipEntries(s1)
        case None => None
        case Some(s2) =>
          match ReadNames(s2, n - 1)
          case None => None
          case Some(ns) => Some([name] + ns)
  }

  const FNAME_SIZE := 20
  const FSTATUS_SIZE := 10

  /** What one friend line does to the name buffer, which keeps its old content when the line yields
      no word; None when a buffer is overrun. */
  function Buffered(ws: seq<string>, fname: Option<string>): Option<Option<string>>
    requires |ws| <= 2
  {
    if |ws| == 0 then Some(fname)
    else if |ws[0]| >= FNAME_SIZE || (|ws| == 2 && |ws[1]| >= FSTATUS_SIZE) then None
    else Some(Some(ws[0]))
  }

  function StatusOf(ws: seq<string>): Status {
    if |ws| == 2 then (if ws[1] == "requested" then Requested else ToAnswer) else Friends
  }

  /** Second pass, one user: the entries up to the next ".". */
  function ReadEntries(s: string, fname: Option<string>): (r: EntriesResult)
    ensures r.Entries? ==> |r.rest| < |s|
    decreases |s|
  {
    match GetLine(s, 1)
    case None => BadEntries
    case Some((line, rest)) =>
      if line == "." then Entries([], rest)
      else
        var ws := FriendWords(line);
        match Buffered(ws, fname)
        case Some(Some(who)) =>
          (match ReadEntries(rest, Some(who))
           case Entries(fs, end) => Entries([Entry(who, StatusOf(ws))] + fs, end)
           case r => r)
        case _ => UndefinedEntries
  }

  datatype ListsResult = Lists(lists: seq<seq<Entry>>) | BadLists | UndefinedLists

  /** Second pass: every user's entries; the buffer is unassigned at each user's first line. */
  function ReadLists(s: string, n: nat): (r: ListsResult)
    ensures r.Lists? ==> |r.lists| == n
    decreases n
  {
    if n == 0 then Lists([])
    else
      match GetLine(s, 1)
      case None => BadLists
      case Some((_, s1)) =>
        match ReadEntries(s1, None)
        case BadEntries => BadLists
        case UndefinedEntries => UndefinedLists
        case Entries(fs, s2) =>
          match ReadLists(s2, n - 1)
          case Lists(ls) => Lists([fs] + ls)
          case r => r
  }

  function Assembled(names: seq<string>, lists: seq<seq<Entry>>): Accounts
    requires |names| == |lists|
  {
    if names == [] then [] else [Account(names[0], false, -1, lists[0])] + Assembled(names[1..], lists[1..])
  }

  function ReadDb(text: string): ReadResult {
    match GetLine(text, 8)
    case None => Rejected
    case Some((header, body)) =>
      match ScanUnsigned(header)
      case None => Undefined
      case Some(n) =>
        match ReadNames(body, n)
        case None => Rejected
        case Some(names) =>
          match ReadLists(body, n)
          case BadLists => Rejected
          case UndefinedLists => Undefined
          case Lists(ls) => Loaded(n, Assembled(names, ls))
  }
}
