/** The friend graph as one automaton per pair of users, and the invariants it gives every run. */
module ImEdges {
  import opened ImAccounts
  import opened ImProtocol

  /** What a step means for the edge between `a` and `b`, seen from `a`. */
  datatype EdgeInput = AskedByFirst | AskedBySecond | Removed | Untouched

  function EdgeNext(s: Status, x: EdgeInput): Status {
    match x
    case AskedByFirst => (match s case NotFriends => Requested case ToAnswer => Friends case _ => s)
    case AskedBySecond => (match s case NotFriends => ToAnswer case Requested => Friends case _ => s)
    case Removed => NotFriends
    case Untouched => s
  }

  /** The user a connection speaks for, if any, naming another existing user. */
  predicate Names(db: Accounts, fd: int, a: string, b: string) {
    var i := ByFd(db, fd);
    i < |db| && db[i].name == a && a != b && ByName(db, b) < |db|
  }

  function EdgeInputOf(db: Accounts, ev: Event, a: string, b: string): EdgeInput {
    match ev.op
    case FriendRequest(n) =>
      if n == b && Names(db, ev.fd, a, b) then AskedByFirst
      else if n == a && Names(db, ev.fd, b, a) then AskedBySecond
      else Untouched
    case FriendRemove(n) =>
      if (n == b && Names(db, ev.fd, a, b)) || (n == a && Names(db, ev.fd, b, a)) then Removed
      else Untouched
    case _ => Untouched
  }

  lemma {:induction false} RelRegister(db: Accounts, x: Account, a: string, b: string)
    requires x.friends == [] && ByName(db, x.name) == |db|
    ensures Rel(db + [x], a, b) == Rel(db, a, b)
    ensures ActiveNamed(db + [x], a) == if a == x.name then x.active else ActiveNamed(db, a)
  {
    var k := ByName(db, a);
    ByNameFirst(db, a);
    ByNameIs(db + [x], a, if k == |db| && a != x.name then |db| + 1 else k);
  }

  /** A pair of accounts, both ends of an edge, edited together. */
  lemma RelBoth(db: Accounts, i: nat, j: nat, fs: seq<Entry>, gs: seq<Entry>, a: string, b: string)
    requires UniqueNames(db) && i < |db| && j < |db| && i != j
    ensures Rel(WithFriends(WithFriends(db, j, gs), i, fs), a, b) ==
            if a == db[i].name then StatusFor(fs, b)
            else if a == db[j].name then StatusFor(gs, b)
            else Rel(db, a, b)
  {
    RelWithFriends(db, j, gs, a, b);
    RelWithFriends(WithFriends(db, j, gs), i, fs, a, b);
  }

  lemma OwnList(db: Accounts, i: nat, b: string)
    requires UniqueNames(db) && i < |db|
    ensures Rel(db, db[i].name, b) == StatusFor(db[i].friends, b)
  {
    ByNameIs(db, db[i].name, i);
  }

  lemma {:induction false} Listed(fs: seq<Entry>, who: string)
    requires ProperList(fs)
    ensures StatusFor(fs, who) != NotFriends <==> Find(fs, who) < |fs|
  {
  }

  /** Both halves of one edge set to `s` and its dual, every other entry as before. */
  lemma PairEdited(db: Accounts, i: nat, j: nat, fs: seq<Entry>, gs: seq<Entry>, s: Status, a: string, b: string)
    requires UniqueNames(db) && i < |db| && j < |db| && i != j
    requires StatusFor(fs, b) == if b == db[j].name then s else StatusFor(db[i].friends, b)
    requires StatusFor(gs, b) == if b == db[i].name then Dual(s) else StatusFor(db[j].friends, b)
    ensures Rel(WithFriends(WithFriends(db, j, gs), i, fs), a, b) ==
            if a == db[i].name && b == db[j].name then s
            else if a == db[j].name && b == db[i].name then Dual(s)
            else Rel(db, a, b)
  {
    RelBoth(db, i, j, fs, gs, a, b);
    OwnList(db, i, b);
    OwnList(db, j, b);
  }

  /** What the automaton does to a pair when the two named users are `me` and `name`. */
  lemma {:induction false} InputOfPair(db: Accounts, fd: int, name: string, a: string, b: string)
    requires var i := ByFd(db, fd); i < |db| && db[i].name != name && ByName(db, name) < |db|
    requires UniqueNames(db)
    ensures var me := db[ByFd(db, fd)].name;
            && EdgeInputOf(db, Event(FriendRequest(name), fd), a, b) ==
               (if a == me && b == name then AskedByFirst
                else if a == name && b == me then AskedBySecond
                else Untouched)
            && EdgeInputOf(db, Event(FriendRemove(name), fd), a, b) ==
               (if (a == me && b == name) || (a == name && b == me) then Removed else Untouched)
  {
  }

  /** The two ends of one edge after a request, and after a removal. */
  lemma HalvesAgree(db: Accounts, i: nat, j: nat)
    requires WellFormed(db) && i < |db| && j < |db| && i != j
    ensures var fs, gs := db[i].friends, db[j].friends;
            && StatusFor(fs, db[j].name) == Dual(StatusFor(gs, db[i].name))
            && (Find(fs, db[j].name) < |fs| <==> Find(gs, db[i].name) < |gs|)
            && (Find(gs, db[i].name) < |gs| <==> StatusFor(gs, db[i].name) != NotFriends)
            && Rel(db, db[i].name, db[j].name) == StatusFor(fs, db[j].name)
            && Rel(db, db[j].name, db[i].name) == StatusFor(gs, db[i].name)
  {
    var me, name := db[i].name, db[j].name;
    OwnList(db, i, name);
    OwnList(db, j, me);
    Listed(db[i].friends, name);
    Listed(db[j].friends, me);
    assert Rel(db, me, name) == Dual(Rel(db, name, me));
  }

  /** A request sets the pair's two entries to what the automaton says, and touches no other. */
  lemma {:induction false} RequestEdits(db: Accounts, i: nat, j: nat, fd: int, a: string, b: string)
    requires WellFormed(db) && i < |db| && j < |db| && i != j
    requires ByFd(db, fd) == i && ByName(db, db[j].name) == j
    ensures var me, name, o := db[i].name, db[j].name, RequestStep(db, db[j].name, fd);
            Rel(o.db, a, b) ==
            if a == me && b == name then EdgeNext(Rel(db, me, name), AskedByFirst)
            else if a == name && b == me then EdgeNext(Rel(db, name, me), AskedBySecond)
            else Rel(db, a, b)
  {
    var me, name, fs, gs := db[i].name, db[j].name, db[i].friends, db[j].friends;
    HalvesAgree(db, i, j);
    match StatusFor(gs, me)
    case ToAnswer =>
    case Friends =>
    case Requested =>
      AfterSetStatus(fs, name, Friends, b);
      AfterSetStatus(gs, me, Friends, b);
      PairEdited(db, i, j, SetStatus(fs, name, Friends), SetStatus(gs, me, Friends), Friends, a, b);
    case NotFriends =>
      AfterAdd(fs, name, Requested, b);
      AfterAdd(gs, me, ToAnswer, b);
      PairEdited(db, i, j, fs + [Entry(name, Requested)], gs + [Entry(me, ToAnswer)], Requested, a, b);
  }

  lemma {:induction false} RemoveEdits(db: Accounts, i: nat, j: nat, fd: int, a: string, b: string)
    requires WellFormed(db) && i < |db| && j < |db| && i != j
    requires ByFd(db, fd) == i && ByName(db, db[j].name) == j
    ensures var me, name, o := db[i].name, db[j].name, RemoveStep(db, db[j].name, fd);
            Rel(o.db, a, b) ==
            if (a == me && b == name) || (a == name && b == me) then NotFriends else Rel(db, a, b)
  {
    var me, name, fs, gs := db[i].name, db[j].name, db[i].friends, db[j].friends;
    HalvesAgree(db, i, j);
    if Find(gs, me) < |gs| {
      AfterDrop(fs, name, b);
      AfterDrop(gs, me, b);
      PairEdited(db, i, j, Drop(fs, name), Drop(gs, me), NotFriends, a, b);
    }
  }

  /** Without a user behind the connection or a different existing user named, nothing happens. */
  lemma {:induction false} PairRefused(db: Accounts, name: string, fd: int, a: string, b: string)
    requires var i := ByFd(db, fd); i == |db| || db[i].name == name || ByName(db, name) == |db|
    ensures RequestStep(db, name, fd).db == RemoveStep(db, name, fd).db == db
    ensures EdgeInputOf(db, Event(FriendRequest(name), fd), a, b) == Untouched
    ensures EdgeInputOf(db, Event(FriendRemove(name), fd), a, b) == Untouched
  {
  }

  lemma RequestRefines(db: Accounts, name: string, fd: int, a: string, b: string)
    requires WellFormed(db)
    ensures Rel(RequestStep(db, name, fd).db, a, b) ==
            EdgeNext(Rel(db, a, b), EdgeInputOf(db, Event(FriendRequest(name), fd), a, b))
  {
    var i, j := ByFd(db, fd), ByName(db, name);
    if i < |db| && db[i].name != name && j < |db| {
      var me := db[i].name;
      var x := EdgeInputOf(db, Event(FriendRequest(name), fd), a, b);
      InputOfPair(db, fd, name, a, b);
      RequestEdits(db, i, j, fd, a, b);
      if a == me && b == name {
        assert x == AskedByFirst;
      } else if a == name && b == me {
        assert x == AskedBySecond;
      } else {
        assert x == Untouched;
      }
    } else {
      PairRefused(db, name, fd, a, b);
    }
  }

  lemma RemoveRefines(db: Accounts, name: string, fd: int, a: string, b: string)
    requires WellFormed(db)
    ensures Rel(RemoveStep(db, name, fd).db, a, b) ==
            EdgeNext(Rel(db, a, b), EdgeInputOf(db, Event(FriendRemove(name), fd), a, b))
  {
    var i, j := ByFd(db, fd), ByName(db, name);
    if i < |db| && db[i].name != name && j < |db| {
      InputOfPair(db, fd, name, a, b);
      RemoveEdits(db, i, j, fd, a, b);
    } else {
      PairRefused(db, name, fd, a, b);
    }
  }

  lemma SessionRefines(db: Accounts, ev: Event, a: string, b: string)
    requires WellFormed(db) && !ev.op.FriendRequest? && !ev.op.FriendRemove?
    ensures Rel(Step(db, ev).db, a, b) == Rel(db, a, b)
  {
    match ev.op
    case Register(n) =>
      if ValidName(n) && ByName(db, n) == |db| { RelRegister(db, Account(n, false, -1, []), a, b); }
    case Login(n) =>
      var i := ByName(db, n);
      if i < |db| && !db[i].active { RelWithSession(db, i, true, ev.fd, a, b); }
    case Logout =>
      var i := ByFd(db, ev.fd);
      if i < |db| && db[i].active { RelWithSession(db, i, false, -1, a, b); }
    case _ =>
  }

  /** Every step moves the edge between any two users exactly as the automaton says, whatever the
      operation and whoever sends it. */
  lemma StepRefinesEdge(db: Accounts, ev: Event, a: string, b: string)
    requires WellFormed(db)
    ensures Rel(Step(db, ev).db, a, b) == EdgeNext(Rel(db, a, b), EdgeInputOf(db, ev, a, b))
  {
    match ev.op
    case FriendRequest(n) => RequestRefines(db, n, ev.fd, a, b);
    case FriendRemove(n) => RemoveRefines(db, n, ev.fd, a, b);
    case _ => SessionRefines(db, ev, a, b);
  }

  // ----- the invariant of every run

  function Mirrored(x: EdgeInput): EdgeInput {
    match x case AskedByFirst => AskedBySecond case AskedBySecond => AskedByFirst case _ => x
  }

  lemma InputMirrored(db: Accounts, ev: Event, a: string, b: string)
    ensures EdgeInputOf(db, ev, b, a) == Mirrored(EdgeInputOf(db, ev, a, b))
    ensures EdgeInputOf(db, ev, a, a) == Untouched
  {
  }

  lemma EdgeNextMirrored(s: Status, x: EdgeInput)
    ensures EdgeNext(Dual(s), Mirrored(x)) == Dual(EdgeNext(s, x))
  {
  }

  lemma StepKeepsSymmetry(db: Accounts, ev: Event)
    requires WellFormed(db)
    ensures Symmetric(Step(db, ev).db) && NoSelf(Step(db, ev).db)
  {
    var db' := Step(db, ev).db;
    forall a, b ensures Rel(db', a, b) == Dual(Rel(db', b, a)) {
      StepRefinesEdge(db, ev, a, b);
      StepRefinesEdge(db, ev, b, a);
      InputMirrored(db, ev, b, a);
      EdgeNextMirrored(Rel(db, b, a), EdgeInputOf(db, ev, b, a));
      assert Rel(db, a, b) == Dual(Rel(db, b, a));
    }
    forall a ensures Rel(db', a, a) == NotFriends {
      StepRefinesEdge(db, ev, a, a);
      InputMirrored(db, ev, a, a);
    }
  }

  ghost predicate Shaped(db: Accounts) {
    && UniqueNames(db) && Sessions(db)
    && forall i :: 0 <= i < |db| ==> ProperList(db[i].friends)
  }

  lemma PairShaped(db: Accounts, i: nat, j: nat, fs: seq<Entry>, gs: seq<Entry>)
    requires Shaped(db) && i < |db| && j < |db| && ProperList(fs) && ProperList(gs)
    ensures Shaped(WithFriends(WithFriends(db, j, gs), i, fs))
  {
  }

  lemma RequestKeepsShape(db: Accounts, name: string, fd: int)
    requires WellFormed(db)
    ensures Shaped(RequestStep(db, name, fd).db)
  {
    var i, j := ByFd(db, fd), ByName(db, name);
    if i < |db| && db[i].name != name && j < |db| {
      var me, fs, gs := db[i].name, db[i].friends, db[j].friends;
      HalvesAgree(db, i, j);
      match StatusFor(gs, me)
      case Requested =>
        AfterSetStatus(fs, name, Friends, name);
        AfterSetStatus(gs, me, Friends, me);
        PairShaped(db, i, j, SetStatus(fs, name, Friends), SetStatus(gs, me, Friends));
      case NotFriends =>
        AfterAdd(fs, name, Requested, name);
        AfterAdd(gs, me, ToAnswer, me);
        PairShaped(db, i, j, fs + [Entry(name, Requested)], gs + [Entry(me, ToAnswer)]);
      case _ =>
    }
  }

  lemma RemoveKeepsShape(db: Accounts, name: string, fd: int)
    requires WellFormed(db)
    ensures Shaped(RemoveStep(db, name, fd).db)
  {
    var i, j := ByFd(db, fd), ByName(db, name);
    if i < |db| && db[i].name != name && j < |db| {
      var me, fs, gs := db[i].name, db[i].friends, db[j].friends;
      HalvesAgree(db, i, j);
      if Find(gs, me) < |gs| {
        DropProper(fs, name);
        DropProper(gs, me);
        PairShaped(db, i, j, Drop(fs, name), Drop(gs, me));
      }
    }
  }

  lemma RegisterKeepsShape(db: Accounts, name: string, fd: int)
    requires Shaped(db)
    ensures Shaped(RegisterStep(db, name, fd).db)
  {
    ByNameFirst(db, name);
  }

  lemma SessionShaped(db: Accounts, i: nat, active: bool, fd: int)
    requires Shaped(db) && i < |db| && if active then fd >= 0 else fd == -1
    ensures Shaped(WithSession(db, i, active, fd))
  {
  }

  lemma StepKeepsShape(db: Accounts, ev: Event)
    requires WellFormed(db) && ev.fd >= 0
    ensures Shaped(Step(db, ev).db)
  {
    assert Shaped(db);
    hide Shaped, WellFormed, RegisterStep, RequestStep, RemoveStep, WithSession;
    match ev.op
    case Register(name) => RegisterKeepsShape(db, name, ev.fd);
    case FriendRequest(name) => RequestKeepsShape(db, name, ev.fd);
    case FriendRemove(name) => RemoveKeepsShape(db, name, ev.fd);
    case Login(name) => if ByName(db, name) < |db| { SessionShaped(db, ByName(db, name), true, ev.fd); }
    case Logout => if ByFd(db, ev.fd) < |db| { SessionShaped(db, ByFd(db, ev.fd), false, -1); }
    case _ =>
  }

  /** Every handler keeps the database well-formed. */
  lemma StepKeepsWellFormed(db: Accounts, ev: Event)
    requires WellFormed(db) && ev.fd >= 0
    ensures WellFormed(Step(db, ev).db)
  {
    StepKeepsShape(db, ev);
    StepKeepsSymmetry(db, ev);
  }

  ghost predicate RealConnections(evs: seq<Event>) {
    forall i :: 0 <= i < |evs| ==> evs[i].fd >= 0
  }

  /** Every reachable database is well-formed, so in particular each edge is absent on both sides,
      asked on one and to be answered on the other, or agreed on both. */
  lemma {:induction false} RunsStayWellFormed(db0: Accounts, evs: seq<Event>)
    requires WellFormed(db0) && RealConnections(evs)
    ensures WellFormed(RunFrom(db0, evs).db)
  {
    if evs != [] {
      RunsStayWellFormed(db0, evs[..|evs|-1]);
      StepKeepsWellFormed(RunFrom(db0, evs[..|evs|-1]).db, evs[|evs|-1]);
    }
  }

  // ----- connections

  /** No connection speaks for two users. */
  ghost predicate OneUserPerConnection(db: Accounts) {
    forall i, j :: 0 <= i < j < |db| && db[i].active && db[j].active ==> db[i].connfd != db[j].connfd
  }

  lemma {:induction false} LoginSharesIff(db: Accounts, n: string, fd: int)
    requires WellFormed(db) && OneUserPerConnection(db) && fd >= 0
    ensures OneUserPerConnection(LoginStep(db, n, fd).db) <==>
            !(ByFd(db, fd) < |db| && ByName(db, n) < |db| && !db[ByName(db, n)].active)
  {
    var i, k := ByName(db, n), ByFd(db, fd);
    ByFdFirst(db, fd);
    var db' := LoginStep(db, n, fd).db;
    if k < |db| && i < |db| && !db[i].active {
      assert db'[k].active && db'[i].active && db'[k].connfd == db'[i].connfd;
    }
  }

  ghost predicate SameSessions(db: Accounts, db': Accounts) {
    && |db'| == |db|
    && forall i :: 0 <= i < |db| ==> db'[i].active == db[i].active && db'[i].connfd == db[i].connfd
  }

  lemma PairSessions(db: Accounts, i: nat, j: nat, fs: seq<Entry>, gs: seq<Entry>)
    requires i < |db| && j < |db|
    ensures SameSessions(db, WithFriends(WithFriends(db, j, gs), i, fs))
  {
  }

  lemma RequestKeepsSessions(db: Accounts, name: string, fd: int)
    ensures SameSessions(db, RequestStep(db, name, fd).db)
  {
    var i, j := ByFd(db, fd), ByName(db, name);
    if i < |db| && j < |db| {
      var me, fs, gs := db[i].name, db[i].friends, db[j].friends;
      PairSessions(db, i, j, SetStatus(fs, name, Friends), SetStatus(gs, me, Friends));
      PairSessions(db, i, j, fs + [Entry(name, Requested)], gs + [Entry(me, ToAnswer)]);
    }
  }

  lemma RemoveKeepsSessions(db: Accounts, name: string, fd: int)
    ensures SameSessions(db, RemoveStep(db, name, fd).db)
  {
    var i, j := ByFd(db, fd), ByName(db, name);
    if i < |db| && j < |db| {
      PairSessions(db, i, j, Drop(db[i].friends, name), Drop(db[j].friends, db[i].name));
    }
  }

  lemma OthersShareNothing(db: Accounts, ev: Event)
    requires OneUserPerConnection(db) && !ev.op.Login?
    ensures OneUserPerConnection(Step(db, ev).db)
  {
    match ev.op
    case FriendRequest(n) => RequestKeepsSessions(db, n, ev.fd);
    case FriendRemove(n) => RemoveKeepsSessions(db, n, ev.fd);
    case _ =>
  }

  /** Login looks only at the user named, never at the connection, so a connection comes to speak for
      two users exactly when it already speaks for one and logs another one in. */
  lemma {:induction false} ConnectionSharedIff(db: Accounts, ev: Event)
    requires WellFormed(db) && OneUserPerConnection(db) && ev.fd >= 0
    ensures OneUserPerConnection(Step(db, ev).db) <==>
            !(ev.op.Login? && ByFd(db, ev.fd) < |db| && ByName(db, ev.op.name) < |db|
              && !db[ByName(db, ev.op.name)].active)
  {
    match ev.op
    case Login(n) =>
      LoginSharesIff(db, n, ev.fd);
      assert Step(db, ev) == LoginStep(db, n, ev.fd);
    case _ =>
      OthersShareNothing(db, ev);
  }

  lemma LogsXIn(name: string, fd: int)
    requires name != "x" && fd >= 0
    ensures Step([Fresh("x"), Fresh(name)], Event(Login("x"), fd)).db == [Account("x", true, fd, []), Fresh(name)]
  {
    ByNameIs([Fresh("x"), Fresh(name)], "x", 0);
  }

  lemma SecondLogin(fd: int)
    requires fd >= 0
    ensures !OneUserPerConnection(Step([Account("x", true, fd, []), Fresh("y")], Event(Login("y"), fd)).db)
  {
    var db1 := [Account("x", true, fd, []), Fresh("y")];
    ByNameIs(db1, "y", 1);
    var db2 := WithSession(db1, 1, true, fd);
    assert Step(db1, Event(Login("y"), fd)).db == db2;
    assert db2[0].active && db2[1].active && db2[0].connfd == db2[1].connfd;
  }

  lemma {:induction false} TwoSteps(db0: Accounts, x: Event, y: Event)
    ensures RunFrom(db0, [x, y]).db == Step(Step(db0, x).db, y).db
  {
    hide Step;
    RunNext(db0, [], x);
    RunNext(db0, [x], y);
    assert [] + [x] == [x] && [x] + [y] == [x, y];
  }

  /** Two new users logged in over the same connection share it. */
  lemma SharedConnection(fd: int)
    requires fd >= 0
    ensures var db0 := [Fresh("x"), Fresh("y")];
            && WellFormed(db0) && OneUserPerConnection(db0)
            && !OneUserPerConnection(RunFrom(db0, [Event(Login("x"), fd), Event(Login("y"), fd)]).db)
  {
    hide Step, RunFrom;
    var db0 := [Fresh("x"), Fresh("y")];
    FreshIsWellFormed(db0);
    LogsXIn("y", fd);
    SecondLogin(fd);
    TwoSteps(db0, Event(Login("x"), fd), Event(Login("y"), fd));
  }
}
