/** The user database as a value: accounts in list order, each with its friend list in list order. */
module ImAccounts {
  /** How one user sees another: what the friend list entry says, or no entry at all. */
  datatype Status = NotFriends | Requested | ToAnswer | Friends

  datatype Entry = Entry(who: string, status: Status)

  datatype Account = Account(name: string, active: bool, connfd: int, friends: seq<Entry>)

  type Accounts = seq<Account>

  function UserNames(db: Accounts): (r: seq<string>)
    ensures |r| == |db| && forall i :: 0 <= i < |db| ==> r[i] == db[i].name
  {
    if db == [] then [] else [db[0].name] + UserNames(db[1..])
  }

  /** A user as registration leaves it. */
  function Fresh(name: string): Account { Account(name, false, -1, []) }

  // ----- list searches: the index of the first match, or the length

  function Find(fs: seq<Entry>, who: string): (k: nat)
    ensures k <= |fs|
    ensures k < |fs| ==> fs[k].who == who
  {
    if fs == [] || fs[0].who == who then 0 else 1 + Find(fs[1..], who)
  }

  function ByName(db: Accounts, name: string): (k: nat)
    ensures k <= |db|
    ensures k < |db| ==> db[k].name == name
  {
    if db == [] || db[0].name == name then 0 else 1 + ByName(db[1..], name)
  }

  function ByFd(db: Accounts, fd: int): (k: nat)
    ensures k <= |db|
    ensures k < |db| ==> db[k].connfd == fd
  {
    if db == [] || db[0].connfd == fd then 0 else 1 + ByFd(db[1..], fd)
  }

  function StatusFor(fs: seq<Entry>, who: string): Status {
    var k := Find(fs, who);
    if k < |fs| then fs[k].status else NotFriends
  }

  /** What user `a` has recorded about user `b`. */
  function Rel(db: Accounts, a: string, b: string): Status {
    var i := ByName(db, a);
    if i < |db| then StatusFor(db[i].friends, b) else NotFriends
  }

  predicate ActiveNamed(db: Accounts, name: string) {
    var i := ByName(db, name);
    i < |db| && db[i].active
  }

  function FdOf(db: Accounts, name: string): int {
    var i := ByName(db, name);
    if i < |db| then db[i].connfd else -1
  }

  // ----- list edits

  function SetStatus(fs: seq<Entry>, who: string, st: Status): seq<Entry> {
    var k := Find(fs, who);
    if k < |fs| then fs[k := Entry(who, st)] else fs
  }

  function Drop(fs: seq<Entry>, who: string): seq<Entry> {
    var k := Find(fs, who);
    if k < |fs| then fs[..k] + fs[k + 1..] else fs
  }

  function WithFriends(db: Accounts, i: nat, fs: seq<Entry>): Accounts
    requires i < |db|
  {
    db[i := db[i].(friends := fs)]
  }

  function WithSession(db: Accounts, i: nat, active: bool, fd: int): Accounts
    requires i < |db|
  {
    db[i := db[i].(active := active, connfd := fd)]
  }

  // ----- well-formed databases

  ghost predicate UniqueNames(db: Accounts) {
    forall i, j :: 0 <= i < j < |db| ==> db[i].name != db[j].name
  }

  /** Active users have a connection, the others have -1. */
  ghost predicate Sessions(db: Accounts) {
    forall i :: 0 <= i < |db| ==> if db[i].active then db[i].connfd >= 0 else db[i].connfd == -1
  }

  /** A friend list names nobody twice and records a real status for everybody it names. */
  ghost predicate ProperList(fs: seq<Entry>) {
    && (forall i, j :: 0 <= i < j < |fs| ==> fs[i].who != fs[j].who)
    && forall i :: 0 <= i < |fs| ==> fs[i].status != NotFriends
  }

  function Dual(s: Status): Status {
    match s case Requested => ToAnswer case ToAnswer => Requested case _ => s
  }

  /** The two halves of every edge agree. */
  ghost predicate Symmetric(db: Accounts) {
    forall a, b :: Rel(db, a, b) == Dual(Rel(db, b, a))
  }

  ghost predicate NoSelf(db: Accounts) {
    forall a :: Rel(db, a, a) == NotFriends
  }

  ghost predicate WellFormed(db: Accounts) {
    && UniqueNames(db) && Sessions(db) && Symmetric(db) && NoSelf(db)
    && forall i :: 0 <= i < |db| ==> ProperList(db[i].friends)
  }

  // ----- how edits change what a list says

  lemma {:induction false} FindFirst(fs: seq<Entry>, who: string)
    ensures forall i :: 0 <= i < Find(fs, who) ==> fs[i].who != who
  {
    if fs != [] && fs[0].who != who { FindFirst(fs[1..], who); }
  }

  lemma {:induction false} ByNameFirst(db: Accounts, name: string)
    ensures forall i :: 0 <= i < ByName(db, name) ==> db[i].name != name
  {
    if db != [] && db[0].name != name { ByNameFirst(db[1..], name); }
  }

  lemma {:induction false} ByFdFirst(db: Accounts, fd: int)
    ensures forall i :: 0 <= i < ByFd(db, fd) ==> db[i].connfd != fd
  {
    if db != [] && db[0].connfd != fd { ByFdFirst(db[1..], fd); }
  }

  /** The first match is the only index that the search can return. */
  lemma {:induction false} FindIs(fs: seq<Entry>, who: string, k: nat)
    requires k <= |fs| && (k < |fs| ==> fs[k].who == who)
    requires forall i :: 0 <= i < k ==> fs[i].who != who
    ensures Find(fs, who) == k
  {
    FindFirst(fs, who);
  }

  lemma {:induction false} ByNameIs(db: Accounts, name: string, k: nat)
    requires k <= |db| && (k < |db| ==> db[k].name == name)
    requires forall i :: 0 <= i < k ==> db[i].name != name
    ensures ByName(db, name) == k
  {
    ByNameFirst(db, name);
  }

  /** A user added at the end does not hide those before it. */
  lemma {:induction false} AddKeepsName(db: Accounts, name: string, who: string)
    requires ByName(db, who) < |db|
    ensures ByName(db + [Fresh(name)], who) == ByName(db, who)
  {
    ByNameFirst(db, who);
    ByNameIs(db + [Fresh(name)], who, ByName(db, who));
  }

  lemma {:induction false} ByFdIs(db: Accounts, fd: int, k: nat)
    requires k <= |db| && (k < |db| ==> db[k].connfd == fd)
    requires forall i :: 0 <= i < k ==> db[i].connfd != fd
    ensures ByFd(db, fd) == k
  {
    ByFdFirst(db, fd);
  }

  lemma {:induction false} SetStatusFinds(fs: seq<Entry>, who: string, st: Status, x: string)
    requires Find(fs, who) < |fs|
    ensures Find(SetStatus(fs, who, st), x) == Find(fs, x)
  {
    FindFirst(fs, x);
    FindIs(SetStatus(fs, who, st), x, Find(fs, x));
  }

  lemma {:induction false} AfterSetStatus(fs: seq<Entry>, who: string, st: Status, x: string)
    requires ProperList(fs) && st != NotFriends && Find(fs, who) < |fs|
    ensures ProperList(SetStatus(fs, who, st))
    ensures StatusFor(SetStatus(fs, who, st), x) == if x == who then st else StatusFor(fs, x)
  {
    SetStatusFinds(fs, who, st, x);
  }

  lemma {:induction false} AfterAdd(fs: seq<Entry>, who: string, st: Status, x: string)
    requires ProperList(fs) && st != NotFriends && Find(fs, who) == |fs|
    ensures ProperList(fs + [Entry(who, st)])
    ensures StatusFor(fs + [Entry(who, st)], x) == if x == who then st else StatusFor(fs, x)
  {
    FindFirst(fs, who);
    FindFirst(fs, x);
    var k := Find(fs, x);
    FindIs(fs + [Entry(who, st)], x, if k == |fs| && x != who then |fs| + 1 else k);
  }

  lemma DropAt<T>(s: seq<T>, k: nat, i: nat)
    requires k < |s| && i < |s| - 1
    ensures (s[..k] + s[k + 1..])[i] == if i < k then s[i] else s[i + 1]
  {
  }

  lemma {:induction false} DropProper(fs: seq<Entry>, who: string)
    requires ProperList(fs) && Find(fs, who) < |fs|
    ensures ProperList(Drop(fs, who))
  {
    var k := Find(fs, who);
    var d := Drop(fs, who);
    forall i | 0 <= i < |d| ensures d[i] == if i < k then fs[i] else fs[i + 1] { DropAt(fs, k, i); }
  }

  lemma {:induction false} DropForgets(fs: seq<Entry>, who: string)
    requires ProperList(fs) && Find(fs, who) < |fs|
    ensures Find(Drop(fs, who), who) == |fs| - 1
  {
    var k, d := Find(fs, who), Drop(fs, who);
    forall i | 0 <= i < |d| ensures d[i].who != who { DropAt(fs, k, i); }
    FindIs(d, who, |d|);
  }

  lemma {:induction false} DropKeepsPosition(fs: seq<Entry>, who: string, x: string)
    requires x != who && Find(fs, who) < |fs|
    ensures Find(Drop(fs, who), x) == if Find(fs, x) < Find(fs, who) then Find(fs, x) else Find(fs, x) - 1
  {
    var k, m, d := Find(fs, who), Find(fs, x), Drop(fs, who);
    var n := if m < k then m else m - 1;
    FindFirst(fs, x);
    forall i | 0 <= i < n ensures d[i].who != x { DropAt(fs, k, i); }
    if m < |fs| { DropAt(fs, k, n); }
    FindIs(d, x, n);
  }

  lemma {:induction false} DropKeeps(fs: seq<Entry>, who: string, x: string)
    requires x != who && Find(fs, who) < |fs|
    ensures StatusFor(Drop(fs, who), x) == StatusFor(fs, x)
  {
    var k, m := Find(fs, who), Find(fs, x);
    DropKeepsPosition(fs, who, x);
    if m < |fs| { DropAt(fs, k, if m < k then m else m - 1); }
  }

  lemma {:induction false} AfterDrop(fs: seq<Entry>, who: string, x: string)
    requires ProperList(fs) && Find(fs, who) < |fs|
    ensures ProperList(Drop(fs, who))
    ensures StatusFor(Drop(fs, who), x) == if x == who then NotFriends else StatusFor(fs, x)
  {
    DropProper(fs, who);
    if x == who { DropForgets(fs, who); } else { DropKeeps(fs, who, x); }
  }

  /** The same users in the same places. */
  ghost predicate SameNames(db: Accounts, db': Accounts) {
    |db'| == |db| && forall i :: 0 <= i < |db| ==> db'[i].name == db[i].name
  }

  /** Changing accounts keeps every name in its place. */
  lemma {:induction false} NamesKept(db: Accounts, db': Accounts, n: string)
    requires SameNames(db, db')
    ensures ByName(db', n) == ByName(db, n)
  {
    ByNameFirst(db, n);
    ByNameIs(db', n, ByName(db, n));
  }

  lemma RelWithFriends(db: Accounts, i: nat, fs: seq<Entry>, a: string, b: string)
    requires UniqueNames(db) && i < |db|
    ensures Rel(WithFriends(db, i, fs), a, b) == if a == db[i].name then StatusFor(fs, b) else Rel(db, a, b)
    ensures UniqueNames(WithFriends(db, i, fs))
  {
    NamesKept(db, WithFriends(db, i, fs), a);
    ByNameIs(db, db[i].name, i);
  }

  lemma RelWithSession(db: Accounts, i: nat, active: bool, fd: int, a: string, b: string)
    requires UniqueNames(db) && i < |db|
    ensures Rel(WithSession(db, i, active, fd), a, b) == Rel(db, a, b)
  {
    NamesKept(db, WithSession(db, i, active, fd), a);
  }

  lemma ActiveWithSession(db: Accounts, i: nat, active: bool, fd: int, a: string)
    requires UniqueNames(db) && i < |db|
    ensures ActiveNamed(WithSession(db, i, active, fd), a) == if a == db[i].name then active else ActiveNamed(db, a)
    ensures a != db[i].name ==> FdOf(WithSession(db, i, active, fd), a) == FdOf(db, a)
  {
    NamesKept(db, WithSession(db, i, active, fd), a);
    ByNameIs(db, db[i].name, i);
  }

  lemma ActiveWithFriends(db: Accounts, i: nat, fs: seq<Entry>, a: string)
    requires i < |db|
    ensures ActiveNamed(WithFriends(db, i, fs), a) == ActiveNamed(db, a)
    ensures FdOf(WithFriends(db, i, fs), a) == FdOf(db, a)
  {
    NamesKept(db, WithFriends(db, i, fs), a);
  }

  /** In a well-formed database the other half of every entry exists: its partner is a user, is not
      the owner, and has the dual entry. */
  lemma {:induction false} PartnerExists(db: Accounts, i: nat, k: nat)
    requires WellFormed(db) && i < |db| && k < |db[i].friends|
    ensures var e := db[i].friends[k];
            var j := ByName(db, e.who);
            && e.who != db[i].name
            && Rel(db, db[i].name, e.who) == e.status
            && j < |db| && j != i
            && var m := Find(db[j].friends, db[i].name);
               m < |db[j].friends| && db[j].friends[m].status == Dual(e.status)
  {
    var e := db[i].friends[k];
    ByNameIs(db, db[i].name, i);
    FindIs(db[i].friends, e.who, k);
    assert Rel(db, db[i].name, e.who) == Dual(Rel(db, e.who, db[i].name));
  }

  /** Every friend entry names a user. */
  ghost predicate KnownFriends(db: Accounts) {
    forall i, k :: 0 <= i < |db| && 0 <= k < |db[i].friends| ==> ByName(db, db[i].friends[k].who) < |db|
  }

  lemma WellFormedKnows(db: Accounts)
    requires WellFormed(db)
    ensures KnownFriends(db)
  {
    forall i, k | 0 <= i < |db| && 0 <= k < |db[i].friends|
      ensures ByName(db, db[i].friends[k].who) < |db|
    {
      PartnerExists(db, i, k);
    }
  }

  lemma FreshIsWellFormed(db: Accounts)
    requires UniqueNames(db) && forall i :: 0 <= i < |db| ==> db[i] == Fresh(db[i].name)
    ensures WellFormed(db)
  {
  }
}
