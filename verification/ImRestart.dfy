/** Saving the database of a running server and starting again from the file. */
module ImRestart {
  import opened ImAccounts
  import opened ImProtocol
  import opened ImEdges
  import opened ImMirror
  import opened DbText
  import opened DbRoundTrip

  ghost predicate CleanNames(db: Accounts) {
    forall i :: 0 <= i < |db| ==> CleanName(db[i].name)
  }

  lemma ValidIsClean(name: string)
    requires ValidName(name)
    ensures CleanName(name)
  {
  }

  lemma PairNames(db: Accounts, i: nat, j: nat, fs: seq<Entry>, gs: seq<Entry>)
    requires i < |db| && j < |db|
    ensures SameNames(db, WithFriends(WithFriends(db, j, gs), i, fs))
  {
  }

  lemma RequestNames(db: Accounts, name: string, fd: int)
    ensures SameNames(db, RequestStep(db, name, fd).db)
  {
    var i, j := ByFd(db, fd), ByName(db, name);
    if i < |db| && j < |db| {
      var me, fs, gs := db[i].name, db[i].friends, db[j].friends;
      PairNames(db, i, j, SetStatus(fs, name, Friends), SetStatus(gs, me, Friends));
      PairNames(db, i, j, fs + [Entry(name, Requested)], gs + [Entry(me, ToAnswer)]);
    }
  }

  lemma RemoveNames(db: Accounts, name: string, fd: int)
    ensures SameNames(db, RemoveStep(db, name, fd).db)
  {
    var i, j := ByFd(db, fd), ByName(db, name);
    if i < |db| && j < |db| {
      PairNames(db, i, j, Drop(db[i].friends, name), Drop(db[j].friends, db[i].name));
    }
  }

  lemma StepKeepsCleanNames(db: Accounts, ev: Event)
    requires CleanNames(db)
    ensures CleanNames(Step(db, ev).db)
  {
    match ev.op
    case Register(n) => if ValidName(n) { ValidIsClean(n); }
    case FriendRequest(n) => RequestNames(db, n, ev.fd);
    case FriendRemove(n) => RemoveNames(db, n, ev.fd);
    case _ =>
  }

  lemma {:induction false} RunsKeepCleanNames(db0: Accounts, evs: seq<Event>)
    requires CleanNames(db0)
    ensures CleanNames(RunFrom(db0, evs).db)
  {
    if evs != [] {
      RunsKeepCleanNames(db0, evs[..|evs|-1]);
      StepKeepsCleanNames(RunFrom(db0, evs[..|evs|-1]).db, evs[|evs|-1]);
    }
  }

  /** In a well-formed database every name that gets written is a user's name. */
  lemma CleanFromNames(db: Accounts)
    requires WellFormed(db) && CleanNames(db)
    ensures CleanDb(db)
  {
    forall i, k | 0 <= i < |db| && 0 <= k < |db[i].friends|
      ensures CleanName(db[i].friends[k].who)
    {
      PartnerExists(db, i, k);
    }
  }

  /** Saving after any run and loading again gives every user and friend list back exactly when the
      stored count is the number of users and every friend name fits the reader's buffer. */
  lemma {:induction false} SavedRunReloadsIff(db0: Accounts, evs: seq<Event>, unum: nat)
    requires WellFormed(db0) && CleanNames(db0) && RealConnections(evs)
    requires unum < UNSIGNED_RANGE
    ensures var db := RunFrom(db0, evs).db;
            ReadDb(Render(unum, db)) == Loaded(|db|, Restarted(db)) <==> unum == |db| && Fits(db)
  {
    RunsStayWellFormed(db0, evs);
    RunsKeepCleanNames(db0, evs);
    CleanFromNames(RunFrom(db0, evs).db);
    RoundTripIff(unum, RunFrom(db0, evs).db);
  }

  // ----- what a loaded database is worth

  lemma {:induction false} RelRestarted(db: Accounts, a: string, b: string)
    ensures Rel(Restarted(db), a, b) == Rel(db, a, b)
  {
    RestartedLength(db);
    NamesKept(db, Restarted(db), a);
  }

  lemma {:induction false} NameRestarted(db: Accounts, n: string)
    ensures ByName(Restarted(db), n) == ByName(db, n)
  {
    RestartedLength(db);
    NamesKept(db, Restarted(db), n);
  }

  lemma {:induction false} ByNamePrefix(db: Accounts, k: nat, n: string)
    requires k <= |db|
    ensures ByName(db[..k], n) == if ByName(db, n) < k then ByName(db, n) else k
  {
    ByNameFirst(db, n);
    ByNameIs(db[..k], n, if ByName(db, n) < k then ByName(db, n) else k);
  }

  /** What a file saved with stored count `unum` loads as: the first users, logged out. */
  function Reloaded(unum: nat, db: Accounts): Accounts
    requires unum <= |db|
  {
    Restarted(db[..unum])
  }

  lemma {:induction false} RelReloaded(unum: nat, db: Accounts, a: string, b: string)
    requires unum <= |db|
    ensures Rel(Reloaded(unum, db), a, b) == if ByName(db, a) < unum then Rel(db, a, b) else NotFriends
  {
    RelRestarted(db[..unum], a, b);
    ByNamePrefix(db, unum, a);
  }

  /** Every entry of the first `unum` users names one of them. */
  ghost predicate Closed(unum: nat, db: Accounts)
    requires unum <= |db|
  {
    forall i, k :: 0 <= i < unum && 0 <= k < |db[i].friends| ==> ByName(db, db[i].friends[k].who) < unum
  }

  lemma ReloadedShape(unum: nat, db: Accounts)
    requires Shaped(db) && unum <= |db|
    ensures Shaped(Reloaded(unum, db)) && NobodyActive(Reloaded(unum, db))
  {
    RestartedLength(db[..unum]);
  }

  lemma ClosedKnows(unum: nat, db: Accounts)
    requires unum <= |db|
    ensures KnownFriends(Reloaded(unum, db)) <==> Closed(unum, db)
  {
    var l := Reloaded(unum, db);
    RestartedLength(db[..unum]);
    forall n ensures ByName(l, n) == if ByName(db, n) < unum then ByName(db, n) else unum {
      NameRestarted(db[..unum], n);
      ByNamePrefix(db, unum, n);
    }
    assert forall i :: 0 <= i < unum ==> l[i].friends == db[i].friends;
  }

  /** A user among the first ones has recorded nothing about a later one. */
  lemma {:induction false} ClosedForgets(unum: nat, db: Accounts, a: string, b: string)
    requires unum <= |db| && Closed(unum, db) && ByName(db, a) < unum <= ByName(db, b)
    ensures Rel(db, a, b) == NotFriends
  {
    var fs := db[ByName(db, a)].friends;
    if Find(fs, b) < |fs| { assert false; }
  }

  lemma ClosedReloads(unum: nat, db: Accounts)
    requires WellFormed(db) && unum <= |db| && Closed(unum, db)
    ensures WellFormed(Reloaded(unum, db))
  {
    var l := Reloaded(unum, db);
    ReloadedShape(unum, db);
    forall a, b ensures Rel(l, a, b) == Dual(Rel(l, b, a)) {
      RelReloaded(unum, db, a, b);
      RelReloaded(unum, db, b, a);
      assert Rel(db, a, b) == Dual(Rel(db, b, a));
      if ByName(db, a) < unum <= ByName(db, b) { ClosedForgets(unum, db, a, b); }
      if ByName(db, b) < unum <= ByName(db, a) { ClosedForgets(unum, db, b, a); }
    }
    forall a ensures Rel(l, a, a) == NotFriends { RelReloaded(unum, db, a, a); }
  }

  /** Saving after any run with any stored count that is not too large loads the first users, and what
      is loaded is well-formed exactly when none of them has an entry for a user who was not counted.
      Otherwise some entry's friend is missing and the handlers that follow it are undefined. */
  lemma {:induction false} LoadedIsWellFormedIff(db0: Accounts, evs: seq<Event>, unum: nat)
    requires WellFormed(db0) && CleanNames(db0) && RealConnections(evs)
    requires unum <= |RunFrom(db0, evs).db| && unum < UNSIGNED_RANGE && Fits(RunFrom(db0, evs).db[..unum])
    ensures var db := RunFrom(db0, evs).db;
            var l := Reloaded(unum, db);
            && ReadDb(Render(unum, db)) == Loaded(unum, l)
            && (WellFormed(l) <==> Closed(unum, db))
            && (KnownFriends(l) <==> Closed(unum, db))
            && NobodyActive(l)
  {
    var db := RunFrom(db0, evs).db;
    RunsStayWellFormed(db0, evs);
    RunsKeepCleanNames(db0, evs);
    CleanFromNames(db);
    ReadWritten(unum, db);
    ReloadedShape(unum, db);
    ClosedKnows(unum, db);
    if Closed(unum, db) {
      ClosedReloads(unum, db);
    } else if WellFormed(Reloaded(unum, db)) {
      WellFormedKnows(Reloaded(unum, db));
    }
  }

  /** A counted database reloads as a well-formed one without sessions and with the same friend graph,
      so all the results about runs apply to it again. */
  lemma {:induction false} RestartIsFreshStart(db0: Accounts, evs: seq<Event>)
    requires WellFormed(db0) && CleanNames(db0) && RealConnections(evs)
    requires |RunFrom(db0, evs).db| < UNSIGNED_RANGE && Fits(RunFrom(db0, evs).db)
    ensures var db := RunFrom(db0, evs).db;
            exists l :: ReadDb(Render(|db|, db)) == Loaded(|db|, l) && WellFormed(l) && NobodyActive(l)
                        && forall a, b :: Rel(l, a, b) == Rel(db, a, b)
  {
    var db := RunFrom(db0, evs).db;
    assert db[..|db|] == db;
    RunsStayWellFormed(db0, evs);
    WellFormedKnows(db);
    LoadedIsWellFormedIff(db0, evs, |db|);
    forall a, b ensures Rel(Reloaded(|db|, db), a, b) == Rel(db, a, b) { RelReloaded(|db|, db, a, b); }
  }

  /** Registration adds a user without counting it: a database saved right after it loads without the
      new user. */
  lemma {:induction false} RegistrationIsForgotten(db: Accounts, name: string, fd: int)
    requires WellFormed(db) && CleanNames(db) && Fits(db) && |db| < UNSIGNED_RANGE
    requires ValidName(name) && ByName(db, name) == |db|
    ensures var db' := Step(db, Event(Register(name), fd)).db;
            |db'| == |db| + 1 && ReadDb(Render(|db|, db')) == Loaded(|db|, Restarted(db))
  {
    var db' := Step(db, Event(Register(name), fd)).db;
    CleanFromNames(db);
    ValidIsClean(name);
    assert CleanDb(db');
    ReadWritten(|db|, db');
    assert db'[..|db|] == db;
  }

  // ----- inputs on which saving goes wrong

  /** Users just registered are saved and loaded as they are. */
  lemma FreshReloads(db: Accounts)
    requires |db| < UNSIGNED_RANGE && forall i :: 0 <= i < |db| ==> db[i] == Fresh(db[i].name) && CleanName(db[i].name)
    ensures ReadDb(Render(|db|, db)) == Loaded(|db|, db)
  {
    hide ReadDb, Render;
    ReadWritten(|db|, db);
    RestartedLength(db);
    assert db[..|db|] == db && Restarted(db) == db;
  }

  lemma XAsks(name: string, fd: int)
    requires name != "x" && fd >= 0
    ensures var db := [Account("x", true, fd, []), Fresh(name)];
            Step(db, Event(FriendRequest(name), fd)).db ==
            [Account("x", true, fd, [Entry(name, Requested)]), Account(name, false, -1, [Entry("x", ToAnswer)])]
  {
    var db := [Account("x", true, fd, []), Fresh(name)];
    ByFdIs(db, fd, 0);
    ByNameIs(db, name, 1);
    assert StatusFor([], "x") == NotFriends;
    assert [] + [Entry(name, Requested)] == [Entry(name, Requested)];
    assert [] + [Entry("x", ToAnswer)] == [Entry("x", ToAnswer)];
  }

  /** x logs in and asks the other user. */
  function Asking(name: string, fd: int): seq<Event> {
    [Event(Login("x"), fd), Event(FriendRequest(name), fd)]
  }

  lemma {:induction false} AfterAsking(db0: Accounts, evs: seq<Event>, name: string, fd: int)
    requires name != "x" && fd >= 0 && RunFrom(db0, evs).db == [Fresh("x"), Fresh(name)]
    ensures RunFrom(db0, evs + Asking(name, fd)).db ==
            [Account("x", true, fd, [Entry(name, Requested)]), Account(name, false, -1, [Entry("x", ToAnswer)])]
  {
    hide Step;
    var login, ask := Event(Login("x"), fd), Event(FriendRequest(name), fd);
    RunNext(db0, evs, login);
    RunNext(db0, evs + [login], ask);
    assert evs + Asking(name, fd) == evs + [login] + [ask];
    LogsXIn(name, fd);
    XAsks(name, fd);
  }

  lemma RegistersY(fd: int)
    requires fd >= 0
    ensures RunFrom([Fresh("x")], [Event(Register("y"), fd)]).db == [Fresh("x"), Fresh("y")]
  {
    RunNext([Fresh("x")], [], Event(Register("y"), fd));
    assert [] + [Event(Register("y"), fd)] == [Event(Register("y"), fd)];
    ByNameIs([Fresh("x")], "y", 1);
    assert ValidName("y");
  }

  /** What is left of the edge when only x was counted. */
  lemma HalfAnEdge()
    ensures var l := [Account("x", false, -1, [Entry("y", Requested)])];
            ByName(l, "y") == |l| && !KnownFriends(l) && !WellFormed(l)
  {
    var l := [Account("x", false, -1, [Entry("y", Requested)])];
    ByNameIs(l, "y", 1);
    assert l[0].friends[0].who == "y";
    if WellFormed(l) { WellFormedKnows(l); }
  }

  lemma SavesHalfAnEdge(a: Account, y: Account)
    requires a.name == "x" && a.friends == [Entry("y", Requested)]
    requires y.name == "y" && y.friends == [Entry("x", ToAnswer)]
    ensures ReadDb(Render(1, [a, y])) == Loaded(1, [Account("x", false, -1, [Entry("y", Requested)])])
  {
    hide ReadDb, Render;
    ReadWritten(1, [a, y]);
    assert [a, y][..1] == [a];
    RestartedLength([a]);
  }

  /** One user was counted; a second registers and is asked by the first.  The saved file loads, but the
      loaded entry's friend is nobody. */
  lemma ForgottenFriend(fd: int)
    requires fd >= 0
    ensures var db0 := [Fresh("x")];
            var db := RunFrom(db0, [Event(Register("y"), fd)] + Asking("y", fd)).db;
            var l := [Account("x", false, -1, [Entry("y", Requested)])];
            && WellFormed(db0) && ReadDb(Render(1, db0)) == Loaded(1, db0)
            && ReadDb(Render(1, db)) == Loaded(1, l)
            && ByName(l, "y") == |l| && !KnownFriends(l) && !WellFormed(l)
  {
    hide ReadDb, Render, RunFrom;
    FreshIsWellFormed([Fresh("x")]);
    FreshReloads([Fresh("x")]);
    RegistersY(fd);
    AfterAsking([Fresh("x")], [Event(Register("y"), fd)], "y", fd);
    HalfAnEdge();
    SavesHalfAnEdge(Account("x", true, fd, [Entry("y", Requested)]), Account("y", false, -1, [Entry("x", ToAnswer)]));
  }

  /** A user name of the greatest allowed length does not fit the reader's buffer: a file with two users,
      one of them so named, loads; once the other asks that user to be friends, the saved file does not. */
  lemma LongestNameOverruns(name: string, fd: int)
    requires ValidName(name) && |name| == NAME_MAXLEN && fd >= 0
    ensures var db0 := [Fresh("x"), Fresh(name)];
            && WellFormed(db0) && ReadDb(Render(2, db0)) == Loaded(2, db0)
            && ReadDb(Render(2, RunFrom(db0, Asking(name, fd)).db)) == Undefined
  {
    hide ReadDb, Render, Step;
    var db0 := [Fresh("x"), Fresh(name)];
    ValidIsClean(name);
    FreshIsWellFormed(db0);
    FreshReloads(db0);
    assert RunFrom(db0, []).db == db0;
    AfterAsking(db0, [], name, fd);
    assert [] + Asking(name, fd) == Asking(name, fd);
    var a := Account("x", true, fd, [Entry(name, Requested)]);
    var db := [a, Account(name, false, -1, [Entry("x", ToAnswer)])];
    assert CleanDb(db);
    ReadWritten(2, db);
    assert db[..2] == db;
    assert !FitsEntries(a.friends) by { assert |a.friends[0].who| == 20; }
  }
}
