/** A client that hears everything sent over its connection mirrors the server as long as no connection is
    shared. */
module ImConnections {
  import opened ImAccounts
  import opened ImProtocol
  import opened ImEdges
  import opened ImDelivery
  import opened ImMirror

  function HearOn(view: View, fd: int, m: Sent): View {
    if m.fd == fd then React(view, m.msg) else view
  }

  /** What replaying the messages sent over a connection gives. */
  function ConnectionView(log: seq<Sent>, fd: int): View {
    if log == [] then map[] else HearOn(ConnectionView(log[..|log|-1], fd), fd, log[|log|-1])
  }

  // ----- runs without shared connections

  /** The step does not log an inactive user in over a connection that speaks for somebody. */
  predicate KeepsApart(db: Accounts, ev: Event) {
    !(ev.op.Login? && ByFd(db, ev.fd) < |db| && ByName(db, ev.op.name) < |db| && !db[ByName(db, ev.op.name)].active)
  }

  predicate ApartRun(db0: Accounts, evs: seq<Event>) {
    if evs == [] then true
    else ApartRun(db0, evs[..|evs|-1]) && KeepsApart(RunFrom(db0, evs[..|evs|-1]).db, evs[|evs|-1])
  }

  ghost predicate NeverShared(db0: Accounts, evs: seq<Event>) {
    forall k :: 0 <= k <= |evs| ==> OneUserPerConnection(RunFrom(db0, evs[..k]).db)
  }

  lemma {:induction false} NeverSharedAppend(db0: Accounts, evs: seq<Event>, ev: Event)
    ensures NeverShared(db0, evs + [ev]) <==>
            NeverShared(db0, evs) && OneUserPerConnection(RunFrom(db0, evs + [ev]).db)
  {
    hide RunFrom, OneUserPerConnection;
    var all := evs + [ev];
    assert all[..|all|] == all && forall k :: 0 <= k <= |evs| ==> all[..k] == evs[..k];
  }

  lemma {:induction false} NeverSharedNow(db0: Accounts, evs: seq<Event>)
    requires NeverShared(db0, evs)
    ensures OneUserPerConnection(RunFrom(db0, evs).db)
  {
    assert evs[..|evs|] == evs;
  }

  /** No connection is ever shared exactly when no step logs a user in over a connection in use. */
  lemma {:induction false} ApartRunIff(db0: Accounts, evs: seq<Event>)
    requires WellFormed(db0) && OneUserPerConnection(db0) && RealConnections(evs)
    ensures ApartRun(db0, evs) <==> NeverShared(db0, evs)
  {
    if evs == [] {
      assert evs[..0] == [];
    } else {
      var init, ev := evs[..|evs|-1], evs[|evs|-1];
      assert evs == init + [ev];
      hide NeverShared, OneUserPerConnection, Step;
      ApartRunIff(db0, init);
      NeverSharedAppend(db0, init, ev);
      RunsStayWellFormed(db0, init);
      if NeverShared(db0, init) {
        NeverSharedNow(db0, init);
        ConnectionSharedIff(RunFrom(db0, init).db, ev);
      }
    }
  }

  lemma {:induction false} ApartAtEnd(db0: Accounts, evs: seq<Event>)
    requires WellFormed(db0) && OneUserPerConnection(db0) && RealConnections(evs) && ApartRun(db0, evs)
    ensures OneUserPerConnection(RunFrom(db0, evs).db)
  {
    ApartRunIff(db0, evs);
    NeverSharedNow(db0, evs);
  }

  lemma OneOwner(db: Accounts, a: string, b: string)
    requires OneUserPerConnection(db) && ActiveNamed(db, a) && ActiveNamed(db, b) && FdOf(db, a) == FdOf(db, b)
    ensures a == b
  {
  }

  // ----- a user's messages are the connection's messages

  /** The messages a client reacts to. */
  predicate Matters(msg: Msg) {
    msg.StatusMsg? || (msg.Ack? && msg.kind.OpLogin?)
  }

  /** A user's client and its connection's client react to the same of these messages. */
  ghost predicate SameEars(sent: seq<Sent>, user: string, fd: int) {
    forall m :: m in sent && Matters(m.msg) ==> (m.fd == fd <==> m.ToUser? && m.user == user)
  }

  lemma SameReaction(view: View, user: string, fd: int, m: Sent)
    requires Matters(m.msg) ==> (m.fd == fd <==> m.ToUser? && m.user == user)
    ensures HearOn(view, fd, m) == Hear(view, user, m)
  {
  }

  lemma {:induction false} SameViews(log: seq<Sent>, sent: seq<Sent>, user: string, fd: int)
    requires SameEars(sent, user, fd) && ConnectionView(log, fd) == ClientView(log, user)
    ensures ConnectionView(log + sent, fd) == ClientView(log + sent, user)
  {
    if sent == [] {
      assert log + sent == log;
    } else {
      var init, m := sent[..|sent|-1], sent[|sent|-1];
      assert sent == init + [m] && m in sent;
      SameViews(log, init, user, fd);
      assert (log + sent)[..|log + sent| - 1] == log + init;
      SameReaction(ClientView(log + init, user), user, fd, m);
    }
  }

  lemma SessionAnswers(db: Accounts, ev: Event, m: Sent)
    requires ev.op.Login? || ev.op.Logout? || ev.op.FriendList?
    requires m in Step(db, ev).sent && m.ToConnection?
    ensures !Matters(m.msg)
  {
    hide Listing, Notices;
    match ev.op
    case Login(n) =>
      var i, db' := ByName(db, n), LoginStep(db, n, ev.fd).db;
      if i < |db| && !db[i].active {
        InListing(db', n, ev.fd, db[i].friends, m);
        InNotices(db', n, true, db[i].friends, m);
      }
    case Logout =>
      var i, db' := ByFd(db, ev.fd), LogoutStep(db, ev.fd).db;
      if i < |db| && db[i].active { InNotices(db', db[i].name, false, db[i].friends, m); }
    case FriendList =>
      var i := ByFd(db, ev.fd);
      if i < |db| { InListing(db, db[i].name, ev.fd, db[i].friends, m); }
  }

  lemma RequestAnswers(db: Accounts, name: string, fd: int, m: Sent)
    requires m in RequestStep(db, name, fd).sent && m.ToConnection?
    ensures !Matters(m.msg)
  {
  }

  lemma RemoveAnswers(db: Accounts, name: string, fd: int, m: Sent)
    requires m in RemoveStep(db, name, fd).sent && m.ToConnection?
    ensures !Matters(m.msg)
  {
  }

  /** Answers to a connection are nothing a client reacts to. */
  lemma AnswersDoNotMatter(db: Accounts, ev: Event, m: Sent)
    requires m in Step(db, ev).sent && m.ToConnection?
    ensures !Matters(m.msg)
  {
    hide LoginStep, LogoutStep, ListStep, RequestStep, RemoveStep;
    match ev.op
    case Register(n) =>
    case FriendRequest(n) => RequestAnswers(db, n, ev.fd, m);
    case FriendRemove(n) => RemoveAnswers(db, n, ev.fd, m);
    case InstantMessage(n, t) =>
    case _ => SessionAnswers(db, ev, m);
  }

  lemma StepSameEars(db: Accounts, ev: Event, user: string)
    requires WellFormed(db) && ev.fd >= 0
    requires OneUserPerConnection(Step(db, ev).db) && ActiveNamed(Step(db, ev).db, user)
    ensures SameEars(Step(db, ev).sent, user, FdOf(Step(db, ev).db, user))
  {
    var o := Step(db, ev);
    StepDelivers(db, ev);
    hide Step;
    forall m | m in o.sent && Matters(m.msg) ensures m.fd == FdOf(o.db, user) <==> m.ToUser? && m.user == user {
      if m.ToConnection? {
        AnswersDoNotMatter(db, ev, m);
      } else if m.fd == FdOf(o.db, user) {
        OneOwner(o.db, m.user, user);
      }
    }
  }

  // ----- connections that stay

  /** While a user stays active it stays on its connection. */
  lemma StaysConnected(db: Accounts, ev: Event, user: string)
    requires WellFormed(db) && ActiveNamed(db, user) && ActiveNamed(Step(db, ev).db, user)
    ensures FdOf(Step(db, ev).db, user) == FdOf(db, user)
  {
    match ev.op
    case Register(n) =>
      if ValidName(n) && ByName(db, n) == |db| { AddKeepsName(db, n, user); }
    case Login(n) =>
      var i := ByName(db, n);
      if i < |db| && !db[i].active { ActiveWithSession(db, i, true, ev.fd, user); }
    case Logout =>
      var i := ByFd(db, ev.fd);
      if i < |db| && db[i].active { ActiveWithSession(db, i, false, -1, user); }
    case FriendRequest(n) => RequestKeepsActive(db, n, ev.fd, user);
    case FriendRemove(n) => RemoveKeepsActive(db, n, ev.fd, user);
    case _ =>
  }

  lemma {:induction false} SameViewAtLogin(db: Accounts, ev: Event, log: seq<Sent>, user: string)
    requires WellFormed(db) && ev.fd >= 0 && OneUserPerConnection(Step(db, ev).db)
    requires LogsIn(db, ev, user) && ActiveNamed(Step(db, ev).db, user)
    ensures var o := Step(db, ev);
            ConnectionView(log + o.sent, FdOf(o.db, user)) == ClientView(log + o.sent, user)
  {
    var o := Step(db, ev);
    var fd := FdOf(o.db, user);
    LoginAcks(db, ev, user);
    StepDelivers(db, ev);
    StepSameEars(db, ev, user);
    hide Step;
    var ack, rest := o.sent[0], o.sent[1..];
    assert (log + [ack])[..|log|] == log;
    assert log + o.sent == log + [ack] + rest;
    assert forall m :: m in rest ==> m in o.sent;
    SameViews(log + [ack], rest, user, fd);
  }

  lemma {:induction false} SameViewStep(db: Accounts, ev: Event, log: seq<Sent>, user: string)
    requires WellFormed(db) && ev.fd >= 0 && OneUserPerConnection(Step(db, ev).db) && ActiveNamed(Step(db, ev).db, user)
    requires ActiveNamed(db, user) ==> ConnectionView(log, FdOf(db, user)) == ClientView(log, user)
    ensures var o := Step(db, ev);
            ConnectionView(log + o.sent, FdOf(o.db, user)) == ClientView(log + o.sent, user)
  {
    if ActiveNamed(db, user) {
      StaysConnected(db, ev, user);
      StepSameEars(db, ev, user);
      SameViews(log, Step(db, ev).sent, user, FdOf(db, user));
    } else {
      ActiveByLogin(db, ev, user);
      SameViewAtLogin(db, ev, log, user);
    }
  }

  /** What an active user's connection carried since the last login on it is what was meant for that user. */
  lemma {:induction false} ConnectionCarriesUser(db0: Accounts, evs: seq<Event>, user: string)
    requires WellFormed(db0) && NobodyActive(db0) && RealConnections(evs) && ApartRun(db0, evs)
    requires ActiveNamed(RunFrom(db0, evs).db, user)
    ensures var r := RunFrom(db0, evs); ConnectionView(r.log, FdOf(r.db, user)) == ClientView(r.log, user)
  {
    if evs != [] {
      var init, ev := evs[..|evs|-1], evs[|evs|-1];
      var r := RunFrom(db0, init);
      RunsStayWellFormed(db0, init);
      ApartAtEnd(db0, evs);
      if ActiveNamed(r.db, user) { ConnectionCarriesUser(db0, init, user); }
      SameViewStep(r.db, ev, r.log, user);
    }
  }

  /** Connections mirror the server: in every run from a well-formed database without sessions in which no
      connection is shared, replaying what was sent over an active user's connection, from the last login
      acknowledgement on it, gives exactly that user's friend list with statuses, and for each friend whether
      that friend is active now. */
  lemma {:induction false} ConnectionsMirrorServer(db0: Accounts, evs: seq<Event>, user: string, x: string)
    requires WellFormed(db0) && NobodyActive(db0) && RealConnections(evs) && ApartRun(db0, evs)
    requires ActiveNamed(RunFrom(db0, evs).db, user)
    ensures var r := RunFrom(db0, evs);
            var view := ConnectionView(r.log, FdOf(r.db, user));
            && Look(view, x) == ServerView(r.db, user, x)
            && (x in view <==> Rel(r.db, user, x) != NotFriends)
  {
    ConnectionCarriesUser(db0, evs, user);
    ClientsMirrorServer(db0, evs, user, x);
  }

  // ----- a list request

  lemma {:induction false} SameConnection(sent: seq<Sent>, user: string, fd: int)
    requires forall m :: m in sent ==> m.ToUser? && m.user == user && m.fd == fd
    ensures ConnectionView(sent, fd) == ClientView(sent, user)
  {
    assert SameEars(sent, user, fd);
    SameViews([], sent, user, fd);
    assert [] + sent == sent;
  }

  lemma {:induction false} ListedToClient(db: Accounts, sent: seq<Sent>, user: string, x: string)
    requires Truthful(db, sent) && (Tells(sent, user, x) <==> Rel(db, user, x) != NotFriends)
    requires forall m :: m in sent ==> m.ToUser? && m.msg.StatusMsg?
    ensures Look(ClientView(sent, user), x) == ServerView(db, user, x)
  {
    Informed(db, [], sent, user, x);
    assert [] + sent == sent;
  }

  /** A client that starts from nothing and replays what a list request sends over its connection has exactly
      the server's record of every other user. */
  lemma {:induction false} ListRefreshes(db: Accounts, fd: int, x: string)
    requires WellFormed(db) && fd >= 0 && ByFd(db, fd) < |db|
    ensures Look(ConnectionView(Step(db, Event(FriendList, fd)).sent, fd), x) ==
            ServerView(db, db[ByFd(db, fd)].name, x)
  {
    var i := ByFd(db, fd);
    var user, fs := db[i].name, db[i].friends;
    assert Step(db, Event(FriendList, fd)).sent == Listing(db, user, fd, fs);
    hide Step, Listing, ConnectionView, Truthful, Tells, WellFormed;
    ListingTells(db, i, fd, x);
    forall m | m in Listing(db, user, fd, fs) ensures m.ToUser? && m.user == user && m.fd == fd {
      InListing(db, user, fd, fs, m);
    }
    SameConnection(Listing(db, user, fd, fs), user, fd);
    ListedToClient(db, Listing(db, user, fd, fs), user, x);
  }

  // ----- and when one is

  lemma {:induction false} FreshStart(log: seq<Sent>, m: Sent)
    requires m.msg.Ack? && m.msg.kind.OpLogin?
    ensures ConnectionView(log + [m], m.fd) == map[]
  {
    assert (log + [m])[..|log|] == log;
  }

  function FriendOf(name: string, other: string): Account { Account(name, false, -1, [Entry(other, Friends)]) }

  lemma FriendsAre(a: string, b: string)
    ensures StatusFor([Entry("z", Friends)], b) == if b == "z" then Friends else NotFriends
    ensures StatusFor([Entry("x", Friends)], b) == if b == "x" then Friends else NotFriends
    ensures Rel([FriendOf("x", "z"), FriendOf("z", "x"), Fresh("y")], a, b) ==
            if (a == "x" && b == "z") || (a == "z" && b == "x") then Friends else NotFriends
  {
    var db := [FriendOf("x", "z"), FriendOf("z", "x"), Fresh("y")];
    FindIs([Entry("z", Friends)], b, if b == "z" then 0 else 1);
    FindIs([Entry("x", Friends)], b, if b == "x" then 0 else 1);
    ByNameIs(db, a, if a == "x" then 0 else if a == "z" then 1 else if a == "y" then 2 else 3);
  }

  lemma FriendsAreMutual()
    ensures var db := [FriendOf("x", "z"), FriendOf("z", "x"), Fresh("y")]; Symmetric(db) && NoSelf(db)
  {
    forall a, b ensures Rel([FriendOf("x", "z"), FriendOf("z", "x"), Fresh("y")], a, b) ==
                        if (a == "x" && b == "z") || (a == "z" && b == "x") then Friends else NotFriends
    {
      FriendsAre(a, b);
    }
    hide Rel;
  }

  lemma FriendsAreWellFormed()
    ensures var db := [FriendOf("x", "z"), FriendOf("z", "x"), Fresh("y")]; WellFormed(db) && NobodyActive(db)
  {
    FriendsAreMutual();
    hide Symmetric, NoSelf;
  }

  lemma XLogsIn(fd: int)
    requires fd >= 0
    ensures Step([FriendOf("x", "z"), FriendOf("z", "x"), Fresh("y")], Event(Login("x"), fd)).db ==
            [FriendOf("x", "z").(active := true, connfd := fd), FriendOf("z", "x"), Fresh("y")]
  {
    ByNameIs([FriendOf("x", "z"), FriendOf("z", "x"), Fresh("y")], "x", 0);
  }

  lemma YLogsIn(db: Accounts, fd: int)
    requires |db| == 3 && db[0].name == "x" && db[1].name == "z" && db[2] == Fresh("y")
    ensures Step(db, Event(Login("y"), fd)).db == WithSession(db, 2, true, fd)
    ensures Step(db, Event(Login("y"), fd)).sent == [ToUser("y", fd, Ack(OpLogin, "y"))]
  {
    ByNameIs(db, "y", 2);
  }

  /** x and z are friends; x logs in, and then y over the same connection.  What the connection carried since
      that login says nothing about z, although x is still active on it and z still its friend. */
  lemma {:induction false} SharedEars(fd: int)
    requires fd >= 0
    ensures var db0 := [FriendOf("x", "z"), FriendOf("z", "x"), Fresh("y")];
            var r := RunFrom(db0, [Event(Login("x"), fd), Event(Login("y"), fd)]);
            && WellFormed(db0) && NobodyActive(db0)
            && ActiveNamed(r.db, "x") && FdOf(r.db, "x") == fd && Rel(r.db, "x", "z") == Friends
            && "z" !in ConnectionView(r.log, fd)
  {
    var db0 := [FriendOf("x", "z"), FriendOf("z", "x"), Fresh("y")];
    var db1 := [FriendOf("x", "z").(active := true, connfd := fd), FriendOf("z", "x"), Fresh("y")];
    var x, y := Event(Login("x"), fd), Event(Login("y"), fd);
    FriendsAreWellFormed();
    FriendsAre("x", "z");
    XLogsIn(fd);
    YLogsIn(db1, fd);
    RunNext(db0, [], x);
    RunNext(db0, [x], y);
    assert [] + [x] == [x] && [x] + [y] == [x, y];
    FreshStart(RunFrom(db0, [x]).log, ToUser("y", fd, Ack(OpLogin, "y")));
    ByNameIs(WithSession(db1, 2, true, fd), "x", 0);
    hide Step;
    RelWithSession(db1, 2, true, fd, "x", "z");
    ByNameIs(db1, "x", 0);
  }

  // ----- closing a connection

  /** Nobody is bound to the connection. */
  predicate Unused(db: Accounts, fd: int) {
    forall i :: 0 <= i < |db| ==> db[i].connfd != fd
  }

  predicate AtMostOneOn(db: Accounts, fd: int) {
    forall i, j :: 0 <= i < j < |db| ==> db[i].connfd != fd || db[j].connfd != fd
  }

  /** A closed connection is logged out once, which frees it exactly when at most one user was on it; another
      user stays active on the dead connection. */
  lemma ClosingFreesIff(db: Accounts, fd: int)
    requires WellFormed(db) && fd >= 0
    ensures Unused(Step(db, Event(Logout, fd)).db, fd) <==> AtMostOneOn(db, fd)
  {
    var i := ByFd(db, fd);
    var db' := LogoutStep(db, fd).db;
    ByFdFirst(db, fd);
    if i < |db| {
      assert db[i].active && db' == WithSession(db, i, false, -1);
      forall j | 0 <= j < |db| && j != i ensures db'[j] == db[j] { }
      if AtMostOneOn(db, fd) {
        forall j | 0 <= j < |db| ensures db'[j].connfd != fd { assert j < i || j == i || i < j; }
      }
    }
  }

  /** Without shared connections closing one always frees it. */
  lemma {:induction false} ClosingFrees(db0: Accounts, evs: seq<Event>, fd: int)
    requires WellFormed(db0) && NobodyActive(db0) && RealConnections(evs) && ApartRun(db0, evs) && fd >= 0
    ensures Unused(Step(RunFrom(db0, evs).db, Event(Logout, fd)).db, fd)
  {
    RunsStayWellFormed(db0, evs);
    ApartAtEnd(db0, evs);
    ClosingFreesIff(RunFrom(db0, evs).db, fd);
  }

  /** Two users on one connection: after it closed the second is still active on it. */
  lemma LeftBehind(fd: int)
    requires fd >= 0
    ensures var db := [Account("x", true, fd, []), Account("y", true, fd, [])];
            && RunFrom([Fresh("x"), Fresh("y")], [Event(Login("x"), fd), Event(Login("y"), fd)]).db == db
            && Step(db, Event(Logout, fd)).db == [Fresh("x"), Account("y", true, fd, [])]
  {
    var db := [Account("x", true, fd, []), Account("y", true, fd, [])];
    TwoSteps([Fresh("x"), Fresh("y")], Event(Login("x"), fd), Event(Login("y"), fd));
    LogsXIn("y", fd);
    ByNameIs([Account("x", true, fd, []), Fresh("y")], "y", 1);
    ByFdIs(db, fd, 0);
  }
}
