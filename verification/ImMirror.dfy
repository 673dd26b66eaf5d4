/** A client that only listens to status messages always knows the server's view of its user. */
module ImMirror {
  import opened ImAccounts
  import opened ImProtocol
  import opened ImEdges
  import opened ImDelivery

  // ----- the client

  datatype Seen = Seen(status: Status, active: bool)

  const UNSEEN := Seen(NotFriends, false)

  type View = map<string, Seen>

  /** What a client does with a message: a login acknowledgement starts afresh, a status message records or,
      for NotFriends, deletes. */
  function React(view: View, msg: Msg): View {
    match msg
    case Ack(OpLogin, _) => map[]
    case StatusMsg(n, s, a) => if s == NotFriends then view - {n} else view[n := Seen(s, a)]
    case _ => view
  }

  /** A client acting for `user` reacts to the messages meant for that user. */
  function Hear(view: View, user: string, m: Sent): View {
    if m.ToUser? && m.user == user then React(view, m.msg) else view
  }

  function ClientView(log: seq<Sent>, user: string): View {
    if log == [] then map[] else Hear(ClientView(log[..|log|-1], user), user, log[|log|-1])
  }

  function Look(view: View, x: string): Seen {
    if x in view then view[x] else UNSEEN
  }

  /** The server's record: the status in the user's list, and for friends whether they are active. */
  function ServerView(db: Accounts, user: string, x: string): Seen {
    Seen(Rel(db, user, x), Rel(db, user, x).Friends? && ActiveNamed(db, x))
  }

  // ----- what a batch of messages tells a client

  predicate About(m: Sent, user: string, x: string) {
    m.ToUser? && m.user == user && m.msg.StatusMsg? && m.msg.name == x
  }

  function Said(m: Sent): Seen
    requires m.msg.StatusMsg?
  {
    Seen(m.msg.status, m.msg.active)
  }

  predicate IsLoginAck(m: Sent, user: string) {
    m.ToUser? && m.user == user && m.msg.Ack? && m.msg.kind.OpLogin?
  }

  predicate Tells(sent: seq<Sent>, user: string, x: string) {
    exists m :: m in sent && About(m, user, x)
  }

  /** Every status message says what the server's record is after the step. */
  ghost predicate Truthful(db: Accounts, sent: seq<Sent>) {
    forall m :: m in sent && m.ToUser? && m.msg.StatusMsg? ==> Said(m) == ServerView(db, m.user, m.msg.name)
  }

  lemma HearLook(view: View, user: string, m: Sent, x: string)
    requires !IsLoginAck(m, user)
    requires About(m, user, x) && m.msg.status == NotFriends ==> !m.msg.active
    ensures Look(Hear(view, user, m), x) == if About(m, user, x) then Said(m) else Look(view, x)
  {
  }

  /** Truthful messages leave the client knowing the new record of everybody they mention. */
  lemma {:induction false} Informed(db: Accounts, log: seq<Sent>, sent: seq<Sent>, user: string, x: string)
    requires Truthful(db, sent) && forall m :: m in sent ==> !IsLoginAck(m, user)
    ensures Look(ClientView(log + sent, user), x) ==
            if Tells(sent, user, x) then ServerView(db, user, x) else Look(ClientView(log, user), x)
  {
    if sent == [] {
      assert log + sent == log;
    } else {
      var init, m := sent[..|sent|-1], sent[|sent|-1];
      assert sent == init + [m];
      Informed(db, log, init, user, x);
      assert (log + sent)[..|log + sent| - 1] == log + init;
      assert m in sent;
      HearLook(ClientView(log + init, user), user, m, x);
      assert Tells(sent, user, x) <==> Tells(init, user, x) || About(m, user, x);
    }
  }

  // ----- the lists the handlers send

  /** A listing tells its user the truth about exactly the users on the list. */
  lemma {:induction false} ListingTells(db: Accounts, i: nat, fd: int, x: string)
    requires WellFormed(db) && i < |db|
    ensures var sent := Listing(db, db[i].name, fd, db[i].friends);
            && Truthful(db, sent)
            && (Tells(sent, db[i].name, x) <==> Rel(db, db[i].name, x) != NotFriends)
            && forall m :: m in sent ==> m.ToUser? && m.msg.StatusMsg?
  {
    var user, fs := db[i].name, db[i].friends;
    var sent := Listing(db, user, fd, fs);
    forall m | m in sent
      ensures m.ToUser? && m.msg.StatusMsg? && m.user == user && Find(fs, m.msg.name) < |fs|
      ensures Said(m) == ServerView(db, user, m.msg.name)
    {
      InListing(db, user, fd, fs, m);
      var k :| 0 <= k < |fs| && m == ToUser(user, fd, Shown(db, fs[k]));
      FindIs(fs, fs[k].who, k);
      OwnList(db, i, fs[k].who);
    }
    OwnList(db, i, x);
    Listed(fs, x);
    if Find(fs, x) < |fs| {
      var m := ToUser(user, fd, Shown(db, fs[Find(fs, x)]));
      InListing(db, user, fd, fs, m);
      assert About(m, user, x);
    }
  }

  /** The notices of a user's coming or going are true. */
  lemma {:induction false} NoticesTrue(db: Accounts, i: nat)
    requires WellFormed(db) && i < |db|
    ensures Truthful(db, Notices(db, db[i].name, db[i].active, db[i].friends))
  {
    var user, fs, active := db[i].name, db[i].friends, db[i].active;
    ByNameIs(db, user, i);
    forall m | m in Notices(db, user, active, fs)
      ensures m.ToUser? && m.msg.StatusMsg? && Said(m) == ServerView(db, m.user, m.msg.name)
    {
      InNotices(db, user, active, fs, m);
      var k :| 0 <= k < |fs| && m in Notice(db, user, active, fs[k]);
      PartnerExists(db, i, k);
      assert Rel(db, m.user, user) == Dual(Rel(db, user, m.user));
    }
  }

  /** They reach every active friend over that friend's connection. */
  lemma {:induction false} NoticesReach(db: Accounts, i: nat, w: string)
    requires WellFormed(db) && i < |db| && ActiveNamed(db, w) && Rel(db, w, db[i].name) == Friends
    ensures var sent := Notices(db, db[i].name, db[i].active, db[i].friends);
            && Tells(sent, w, db[i].name)
            && ToUser(w, FdOf(db, w), StatusMsg(db[i].name, Friends, db[i].active)) in sent
  {
    var user, fs, active := db[i].name, db[i].friends, db[i].active;
    assert Rel(db, user, w) == Dual(Rel(db, w, user));
    OwnList(db, i, w);
    var k := Find(fs, w);
    var m := ToUser(w, FdOf(db, w), StatusMsg(user, Friends, active));
    assert fs[k].who == w && m in Notice(db, user, active, fs[k]);
    InNotices(db, user, active, fs, m);
    assert About(m, w, user);
  }

  // ----- each handler tells the truth, and tells everybody whose record changed

  /** Every status message is true, every user whose record changed is told about each change, and a
      user who just logged in is told everything after the acknowledgement. */
  ghost predicate KeepsInformed(db: Accounts, o: Outcome) {
    && Truthful(o.db, o.sent)
    && forall w, x :: ActiveNamed(o.db, w) && !Tells(o.sent, w, x) ==>
         if ActiveNamed(db, w) then ServerView(o.db, w, x) == ServerView(db, w, x)
         else ServerView(o.db, w, x) == UNSEEN
  }

  lemma {:induction false} TellsConcat(a: seq<Sent>, b: seq<Sent>, w: string, x: string)
    ensures Tells(a + b, w, x) <==> Tells(a, w, x) || Tells(b, w, x)
  {
  }

  lemma {:induction false} LoginInforms(db: Accounts, name: string, fd: int)
    requires WellFormed(db) && fd >= 0
    requires var i := ByName(db, name); i < |db| && !db[i].active
    ensures KeepsInformed(db, LoginStep(db, name, fd))
  {
    var i := ByName(db, name);
    var o := LoginStep(db, name, fd);
    StepKeepsWellFormed(db, Event(Login(name), fd));
    var ack, l, n := [ToUser(name, fd, Ack(OpLogin, name))], Listing(o.db, name, fd, db[i].friends),
                     Notices(o.db, name, true, db[i].friends);
    assert o.sent == ack + l + n;
    ListingTells(o.db, i, fd, name);
    NoticesTrue(o.db, i);
    forall w, x | ActiveNamed(o.db, w) && !Tells(o.sent, w, x)
      ensures if ActiveNamed(db, w) then ServerView(o.db, w, x) == ServerView(db, w, x)
              else ServerView(o.db, w, x) == UNSEEN
    {
      RelWithSession(db, i, true, fd, w, x);
      ActiveWithSession(db, i, true, fd, w);
      ActiveWithSession(db, i, true, fd, x);
      ListingTells(o.db, i, fd, x);
      TellsConcat(ack + l, n, w, x);
      TellsConcat(ack, l, w, x);
      if x == name && Rel(o.db, w, name) == Friends { NoticesReach(o.db, i, w); }
    }
  }

  lemma {:induction false} LogoutInforms(db: Accounts, fd: int)
    requires WellFormed(db) && fd >= 0
    requires var i := ByFd(db, fd); i < |db| && db[i].active
    ensures KeepsInformed(db, LogoutStep(db, fd))
  {
    var i := ByFd(db, fd);
    var o := LogoutStep(db, fd);
    StepKeepsWellFormed(db, Event(Logout, fd));
    var ack, n := [ToConnection(fd, Ack(OpLogout, ""))], Notices(o.db, db[i].name, false, db[i].friends);
    NoticesTrue(o.db, i);
    forall w, x | ActiveNamed(o.db, w) && !Tells(o.sent, w, x)
      ensures if ActiveNamed(db, w) then ServerView(o.db, w, x) == ServerView(db, w, x)
              else ServerView(o.db, w, x) == UNSEEN
    {
      RelWithSession(db, i, false, -1, w, x);
      ActiveWithSession(db, i, false, -1, w);
      ActiveWithSession(db, i, false, -1, x);
      TellsConcat(ack, n, w, x);
      if x == db[i].name && Rel(o.db, w, x) == Friends { NoticesReach(o.db, i, w); }
    }
  }

  /** A step that changes one edge and tells both ends. */
  lemma PairInforms(db: Accounts, o: Outcome, i: nat, j: nat, fd: int, s: Status)
    requires WellFormed(db) && i < |db| && j < |db| && i != j && db[i].active
    requires forall a :: ActiveNamed(o.db, a) == ActiveNamed(db, a)
    requires forall a, b :: Rel(o.db, a, b) ==
               if a == db[i].name && b == db[j].name then s
               else if a == db[j].name && b == db[i].name then Dual(s)
               else Rel(db, a, b)
    requires o.sent == [ToUser(db[i].name, fd, StatusMsg(db[j].name, s, s.Friends? && db[j].active))]
                       + Tell(db[j], StatusMsg(db[i].name, Dual(s), s.Friends?))
    ensures KeepsInformed(db, o)
  {
    var me, name := db[i].name, db[j].name;
    ByNameIs(db, me, i);
    ByNameIs(db, name, j);
    assert o.sent[0].ToUser? && About(o.sent[0], me, name);
    assert db[j].active ==> |o.sent| == 2 && About(o.sent[1], name, me);
    forall w, x | ActiveNamed(o.db, w) && !Tells(o.sent, w, x)
      ensures ServerView(o.db, w, x) == ServerView(db, w, x)
    {
    }
  }

  /** A step that changes nothing and speaks only to the connection. */
  lemma QuietInforms(db: Accounts, o: Outcome)
    requires o.db == db && forall m :: m in o.sent ==> m.ToConnection? || !m.msg.StatusMsg?
    ensures KeepsInformed(db, o)
  {
  }

  lemma RequestInforms(db: Accounts, name: string, fd: int)
    requires WellFormed(db) && fd >= 0
    ensures KeepsInformed(db, RequestStep(db, name, fd))
  {
    var i, j := ByFd(db, fd), ByName(db, name);
    var o := RequestStep(db, name, fd);
    if i < |db| && db[i].name != name && j < |db| {
      var me, fs, gs := db[i].name, db[i].friends, db[j].friends;
      HalvesAgree(db, i, j);
      forall a, b ensures Rel(o.db, a, b) ==
                          if a == me && b == name then EdgeNext(Rel(db, me, name), AskedByFirst)
                          else if a == name && b == me then EdgeNext(Rel(db, name, me), AskedBySecond)
                          else Rel(db, a, b)
      {
        RequestEdits(db, i, j, fd, a, b);
      }
      forall a ensures ActiveNamed(o.db, a) == ActiveNamed(db, a) { RequestKeepsActive(db, name, fd, a); }
      match StatusFor(gs, me)
      case Requested => PairInforms(db, o, i, j, fd, Friends);
      case NotFriends => PairInforms(db, o, i, j, fd, Requested);
      case _ => QuietInforms(db, o);
    } else {
      QuietInforms(db, o);
    }
  }

  lemma RemoveInforms(db: Accounts, name: string, fd: int)
    requires WellFormed(db) && fd >= 0
    ensures KeepsInformed(db, RemoveStep(db, name, fd))
  {
    var i, j := ByFd(db, fd), ByName(db, name);
    var o := RemoveStep(db, name, fd);
    if i < |db| && db[i].name != name && j < |db| && Find(db[j].friends, db[i].name) < |db[j].friends| {
      var me, fs, gs := db[i].name, db[i].friends, db[j].friends;
      forall a, b ensures Rel(o.db, a, b) ==
                          if a == me && b == name then NotFriends
                          else if a == name && b == me then NotFriends
                          else Rel(db, a, b)
      {
        RemoveEdits(db, i, j, fd, a, b);
      }
      forall a ensures ActiveNamed(o.db, a) == ActiveNamed(db, a) { RemoveKeepsActive(db, name, fd, a); }
      PairInforms(db, o, i, j, fd, NotFriends);
    } else {
      QuietInforms(db, o);
    }
  }

  lemma RegisterInforms(db: Accounts, name: string, fd: int)
    requires WellFormed(db)
    ensures KeepsInformed(db, RegisterStep(db, name, fd))
  {
    var o := RegisterStep(db, name, fd);
    if ValidName(name) && ByName(db, name) == |db| {
      forall w, x | ActiveNamed(o.db, w)
        ensures ActiveNamed(db, w) && ServerView(o.db, w, x) == ServerView(db, w, x)
      {
        RelRegister(db, Account(name, false, -1, []), w, x);
        RelRegister(db, Account(name, false, -1, []), x, w);
      }
    } else {
      QuietInforms(db, o);
    }
  }

  lemma ListInforms(db: Accounts, fd: int)
    requires WellFormed(db) && fd >= 0
    ensures KeepsInformed(db, ListStep(db, fd))
  {
    var i := ByFd(db, fd);
    if i < |db| { ListingTells(db, i, fd, ""); }
  }

  lemma LoginStepInforms(db: Accounts, name: string, fd: int)
    requires WellFormed(db) && fd >= 0
    ensures KeepsInformed(db, LoginStep(db, name, fd))
  {
    if ByName(db, name) < |db| && !ActiveNamed(db, name) { LoginInforms(db, name, fd); }
    else { QuietInforms(db, LoginStep(db, name, fd)); }
  }

  lemma LogoutStepInforms(db: Accounts, fd: int)
    requires WellFormed(db) && fd >= 0
    ensures KeepsInformed(db, LogoutStep(db, fd))
  {
    var i := ByFd(db, fd);
    if i < |db| && db[i].active { LogoutInforms(db, fd); }
    else { QuietInforms(db, LogoutStep(db, fd)); }
  }

  lemma FriendStepInforms(db: Accounts, ev: Event)
    requires WellFormed(db) && ev.fd >= 0 && (ev.op.FriendRequest? || ev.op.FriendRemove? || ev.op.FriendList?)
    ensures KeepsInformed(db, Step(db, ev))
  {
    match ev.op
    case FriendRequest(n) => RequestInforms(db, n, ev.fd);
    case FriendRemove(n) => RemoveInforms(db, n, ev.fd);
    case FriendList => ListInforms(db, ev.fd);
  }

  /** Every operation keeps everybody informed, and each message it sends to a user goes to that user's
      connection. */
  lemma StepInforms(db: Accounts, ev: Event)
    requires WellFormed(db) && ev.fd >= 0
    ensures KeepsInformed(db, Step(db, ev)) && AllDelivered(Step(db, ev))
  {
    StepDelivers(db, ev);
    hide KeepsInformed, WellFormed;
    match ev.op
    case Register(n) => RegisterInforms(db, n, ev.fd);
    case Login(n) => LoginStepInforms(db, n, ev.fd);
    case Logout => LogoutStepInforms(db, ev.fd);
    case InstantMessage(n, t) => QuietInforms(db, ImStep(db, n, t, ev.fd));
    case _ => FriendStepInforms(db, ev);
  }

  // ----- login acknowledgements

  /** The step logs `user` in. */
  predicate LogsIn(db: Accounts, ev: Event, user: string) {
    ev.op == Login(user) && ByName(db, user) < |db| && !ActiveNamed(db, user)
  }

  lemma {:induction false} ListingNoAck(db: Accounts, user: string, fd: int, fs: seq<Entry>)
    ensures forall m :: m in Listing(db, user, fd, fs) ==> !m.msg.Ack?
  {
    if fs != [] { ListingNoAck(db, user, fd, fs[..|fs|-1]); }
  }

  lemma {:induction false} NoticesNoAck(db: Accounts, user: string, active: bool, fs: seq<Entry>)
    ensures forall m :: m in Notices(db, user, active, fs) ==> !m.msg.Ack?
  {
    if fs != [] { NoticesNoAck(db, user, active, fs[..|fs|-1]); }
  }

  lemma LoginAcksLogin(db: Accounts, name: string, fd: int, user: string)
    ensures var sent := LoginStep(db, name, fd).sent;
            if LogsIn(db, Event(Login(name), fd), user) then
              && |sent| > 0 && IsLoginAck(sent[0], user)
              && forall m :: m in sent[1..] ==> !IsLoginAck(m, user)
            else forall m :: m in sent ==> !IsLoginAck(m, user)
  {
    var i := ByName(db, name);
    if i < |db| && !db[i].active {
      var db' := WithSession(db, i, true, fd);
      ListingNoAck(db', name, fd, db[i].friends);
      NoticesNoAck(db', name, true, db[i].friends);
      var l := Listing(db', name, fd, db[i].friends) + Notices(db', name, true, db[i].friends);
      assert LoginStep(db, name, fd).sent == [ToUser(name, fd, Ack(OpLogin, name))] + l;
    }
  }

  lemma RequestAcksNothing(db: Accounts, name: string, fd: int)
    ensures forall m :: m in RequestStep(db, name, fd).sent ==> !m.msg.Ack?
  {
  }

  lemma RemoveAcksNothing(db: Accounts, name: string, fd: int)
    ensures forall m :: m in RemoveStep(db, name, fd).sent ==> !m.msg.Ack?
  {
  }

  lemma LogoutAcksLogout(db: Accounts, fd: int)
    ensures forall m :: m in LogoutStep(db, fd).sent ==> m.msg.Ack? ==> m.msg.kind.OpLogout?
  {
    var i := ByFd(db, fd);
    if i < |db| && db[i].active { NoticesNoAck(WithSession(db, i, false, -1), db[i].name, false, db[i].friends); }
  }

  lemma OthersAckNoLogin(db: Accounts, ev: Event, user: string)
    requires !ev.op.Login?
    ensures forall m :: m in Step(db, ev).sent ==> !IsLoginAck(m, user)
  {
    hide Listing, RequestStep, RemoveStep, LogoutStep;
    match ev.op
    case Logout => LogoutAcksLogout(db, ev.fd);
    case FriendRequest(n) => RequestAcksNothing(db, n, ev.fd);
    case FriendRemove(n) => RemoveAcksNothing(db, n, ev.fd);
    case FriendList =>
      var i := ByFd(db, ev.fd);
      if i < |db| { ListingNoAck(db, db[i].name, ev.fd, db[i].friends); }
    case _ =>
  }

  /** Only a successful login is acknowledged as one, and only to that user, first of all. */
  lemma LoginAcks(db: Accounts, ev: Event, user: string)
    ensures var sent := Step(db, ev).sent;
            if LogsIn(db, ev, user) then
              && |sent| > 0 && IsLoginAck(sent[0], user)
              && forall m :: m in sent[1..] ==> !IsLoginAck(m, user)
            else forall m :: m in sent ==> !IsLoginAck(m, user)
  {
    match ev.op
    case Login(n) => LoginAcksLogin(db, n, ev.fd, user);
    case _ => OthersAckNoLogin(db, ev, user);
  }

  /** Nobody becomes active but by logging in. */
  lemma ActiveByLogin(db: Accounts, ev: Event, user: string)
    requires WellFormed(db) && ActiveNamed(Step(db, ev).db, user) && !ActiveNamed(db, user)
    ensures LogsIn(db, ev, user)
  {
    match ev.op
    case Register(n) =>
      if ValidName(n) && ByName(db, n) == |db| { RelRegister(db, Account(n, false, -1, []), user, user); }
    case Login(n) =>
      var i := ByName(db, n);
      if i < |db| && !db[i].active { ActiveWithSession(db, i, true, ev.fd, user); }
    case Logout =>
      var i := ByFd(db, ev.fd);
      if i < |db| && db[i].active { ActiveWithSession(db, i, false, -1, user); }
    case FriendRequest(n) =>
      RequestKeepsActive(db, n, ev.fd, user);
    case FriendRemove(n) =>
      RemoveKeepsActive(db, n, ev.fd, user);
    case _ =>
  }

  // ----- the theorem

  ghost predicate NobodyActive(db: Accounts) {
    forall i :: 0 <= i < |db| ==> !db[i].active
  }

  lemma {:induction false} HeardWhileActive(db: Accounts, o: Outcome, log: seq<Sent>, user: string, x: string)
    requires KeepsInformed(db, o) && ActiveNamed(db, user) && ActiveNamed(o.db, user)
    requires forall m :: m in o.sent ==> !IsLoginAck(m, user)
    requires Look(ClientView(log, user), x) == ServerView(db, user, x)
    ensures Look(ClientView(log + o.sent, user), x) == ServerView(o.db, user, x)
  {
    Informed(o.db, log, o.sent, user, x);
  }

  lemma {:induction false} HeardAtLogin(db: Accounts, o: Outcome, log: seq<Sent>, user: string, x: string)
    requires KeepsInformed(db, o) && !ActiveNamed(db, user) && ActiveNamed(o.db, user)
    requires |o.sent| > 0 && IsLoginAck(o.sent[0], user)
    requires forall m :: m in o.sent[1..] ==> !IsLoginAck(m, user)
    ensures Look(ClientView(log + o.sent, user), x) == ServerView(o.db, user, x)
  {
    var ack, rest := o.sent[0], o.sent[1..];
    var log' := log + [ack];
    assert log'[..|log'| - 1] == log;
    assert log + o.sent == log' + rest;
    assert o.sent == [ack] + rest;
    Informed(o.db, log', rest, user, x);
    TellsConcat([ack], rest, user, x);
  }

  lemma {:induction false} HeardStep(db: Accounts, ev: Event, log: seq<Sent>, user: string, x: string)
    requires WellFormed(db) && ev.fd >= 0 && ActiveNamed(Step(db, ev).db, user)
    requires ActiveNamed(db, user) ==> Look(ClientView(log, user), x) == ServerView(db, user, x)
    ensures Look(ClientView(log + Step(db, ev).sent, user), x) == ServerView(Step(db, ev).db, user, x)
  {
    StepInforms(db, ev);
    LoginAcks(db, ev, user);
    if ActiveNamed(db, user) {
      HeardWhileActive(db, Step(db, ev), log, user, x);
    } else {
      ActiveByLogin(db, ev, user);
      HeardAtLogin(db, Step(db, ev), log, user, x);
    }
  }

  /** A client keeps entries only for users it was told something about. */
  lemma {:induction false} ViewIsProper(log: seq<Sent>, user: string, x: string)
    ensures x in ClientView(log, user) <==> Look(ClientView(log, user), x).status != NotFriends
  {
    if log != [] { ViewIsProper(log[..|log|-1], user, x); }
  }

  /** Clients mirror the server: in every run from a well-formed database without sessions, replaying
      the messages to an active user since its last login gives exactly its friend list with
      statuses, and for each friend whether that friend is active now. */
  lemma {:induction false} ClientsMirrorServer(db0: Accounts, evs: seq<Event>, user: string, x: string)
    requires WellFormed(db0) && NobodyActive(db0) && RealConnections(evs)
    requires ActiveNamed(RunFrom(db0, evs).db, user)
    ensures var r := RunFrom(db0, evs);
            && Look(ClientView(r.log, user), x) == ServerView(r.db, user, x)
            && (x in ClientView(r.log, user) <==> Rel(r.db, user, x) != NotFriends)
  {
    if evs != [] {
      var init, ev := evs[..|evs|-1], evs[|evs|-1];
      var r := RunFrom(db0, init);
      ViewIsProper(RunFrom(db0, evs).log, user, x);
      RunsStayWellFormed(db0, init);
      if ActiveNamed(r.db, user) { ClientsMirrorServer(db0, init, user, x); }
      HeardStep(r.db, ev, r.log, user, x);
    }
  }
}
