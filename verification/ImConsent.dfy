/** Friendship needs the consent of both sides, over whole runs. */
module ImConsent {
  import opened ImAccounts
  import opened ImProtocol
  import opened ImEdges

  /** Over its connection, `a` has asked `b` to be friends, and neither removed the other since. */
  predicate Asked(db0: Accounts, evs: seq<Event>, a: string, b: string) {
    if evs == [] then false
    else
      var init := evs[..|evs|-1];
      match EdgeInputOf(RunFrom(db0, init).db, evs[|evs|-1], a, b)
      case AskedByFirst => true
      case Removed => false
      case _ => Asked(db0, init, a, b)
  }

  function FromConsent(mine: bool, theirs: bool): Status {
    if mine && theirs then Friends else if mine then Requested else if theirs then ToAnswer else NotFriends
  }

  ghost predicate NoFriendsYet(db: Accounts) {
    forall i :: 0 <= i < |db| ==> db[i].friends == []
  }

  lemma ConsentStep(mine: bool, theirs: bool, x: EdgeInput)
    ensures EdgeNext(FromConsent(mine, theirs), x) ==
            FromConsent(if x == AskedByFirst then true else if x == Removed then false else mine,
                        if x == AskedBySecond then true else if x == Removed then false else theirs)
  {
  }

  /** From empty friend lists, what one user has recorded about another is at all times decided by
      who asked whom since the last removal; they are friends exactly when both asked. */
  lemma {:induction false} FriendshipIsConsent(db0: Accounts, evs: seq<Event>, a: string, b: string)
    requires WellFormed(db0) && NoFriendsYet(db0) && RealConnections(evs)
    ensures Rel(RunFrom(db0, evs).db, a, b) ==
            FromConsent(Asked(db0, evs, a, b), Asked(db0, evs, b, a))
  {
    if evs != [] {
      var init, ev := evs[..|evs|-1], evs[|evs|-1];
      var db := RunFrom(db0, init).db;
      FriendshipIsConsent(db0, init, a, b);
      RunsStayWellFormed(db0, init);
      StepRefinesEdge(db, ev, a, b);
      InputMirrored(db, ev, a, b);
      ConsentStep(Asked(db0, init, a, b), Asked(db0, init, b, a), EdgeInputOf(db, ev, a, b));
    }
  }

  // ----- instant messages

  lemma {:induction false} NoticesAreStatus(db: Accounts, user: string, active: bool, fs: seq<Entry>)
    ensures forall m :: m in Notices(db, user, active, fs) ==> m.ToUser? && m.msg.StatusMsg?
  {
    if fs != [] { NoticesAreStatus(db, user, active, fs[..|fs|-1]); }
  }

  lemma {:induction false} ListingIsStatus(db: Accounts, user: string, fd: int, fs: seq<Entry>)
    ensures forall m :: m in Listing(db, user, fd, fs) ==> m.ToUser? && m.msg.StatusMsg?
  {
    if fs != [] { ListingIsStatus(db, user, fd, fs[..|fs|-1]); }
  }

  lemma SessionsForwardNothing(db: Accounts, ev: Event)
    requires ev.op.Login? || ev.op.Logout? || ev.op.FriendList?
    ensures forall m :: m in Step(db, ev).sent ==> !m.msg.ImMsg?
  {
    hide Listing, Notices;
    match ev.op
    case Login(n) =>
      var i := ByName(db, n);
      if i < |db| && !db[i].active {
        ListingIsStatus(WithSession(db, i, true, ev.fd), n, ev.fd, db[i].friends);
        NoticesAreStatus(WithSession(db, i, true, ev.fd), n, true, db[i].friends);
      }
    case Logout =>
      var i := ByFd(db, ev.fd);
      if i < |db| && db[i].active {
        NoticesAreStatus(WithSession(db, i, false, -1), db[i].name, false, db[i].friends);
      }
    case FriendList =>
      var i := ByFd(db, ev.fd);
      if i < |db| { ListingIsStatus(db, db[i].name, ev.fd, db[i].friends); }
  }

  lemma RequestForwardsNothing(db: Accounts, name: string, fd: int)
    ensures forall m :: m in RequestStep(db, name, fd).sent ==> !m.msg.ImMsg?
  {
  }

  lemma OthersForwardNothing(db: Accounts, ev: Event)
    ensures ev.op.InstantMessage? || forall m :: m in Step(db, ev).sent ==> !m.msg.ImMsg?
  {
    match ev.op
    case FriendRequest(n) => RequestForwardsNothing(db, n, ev.fd);
    case FriendRemove(n) =>
    case Register(n) =>
    case InstantMessage(n, t) =>
    case _ => SessionsForwardNothing(db, ev);
  }

  lemma ForwardedIs(db: Accounts, ev: Event, m: Sent)
    requires m in Step(db, ev).sent && m.msg.ImMsg?
    ensures m.ToUser? && ev.op == InstantMessage(m.user, m.msg.text)
    ensures m in ImStep(db, m.user, m.msg.text, ev.fd).sent
  {
    OthersForwardNothing(db, ev);
  }

  lemma {:induction false} ForwardedToFriend(db: Accounts, fd: int, m: Sent)
    requires UniqueNames(db)
    requires m.ToUser? && m.msg.ImMsg? && m in ImStep(db, m.user, m.msg.text, fd).sent
    ensures Rel(db, m.msg.from, m.user) == Friends && ActiveNamed(db, m.user)
    ensures m.fd == FdOf(db, m.user) && ValidIm(m.msg.text)
    ensures ByFd(db, fd) < |db| && db[ByFd(db, fd)].name == m.msg.from
  {
    OwnList(db, ByFd(db, fd), m.user);
  }

  /** Only a message operation forwards instant messages, and what it takes to be forwarded. */
  lemma {:induction false} ForwardedOnlyToFriends(db: Accounts, ev: Event, m: Sent)
    requires WellFormed(db) && m in Step(db, ev).sent && m.msg.ImMsg?
    ensures m.ToUser? && ev.op == InstantMessage(m.user, m.msg.text)
    ensures Rel(db, m.msg.from, m.user) == Friends && ActiveNamed(db, m.user)
    ensures m.fd == FdOf(db, m.user) && ValidIm(m.msg.text)
    ensures ByFd(db, ev.fd) < |db| && db[ByFd(db, ev.fd)].name == m.msg.from
  {
    ForwardedIs(db, ev, m);
    ForwardedToFriend(db, ev.fd, m);
  }

  /** In every run from empty friend lists, each forwarded message goes between users who have both
      asked since the last removal, to a user who is active. */
  lemma {:induction false} MessagesNeedConsent(db0: Accounts, evs: seq<Event>, ev: Event, m: Sent)
    requires WellFormed(db0) && NoFriendsYet(db0) && RealConnections(evs)
    requires m in Step(RunFrom(db0, evs).db, ev).sent && m.msg.ImMsg?
    ensures m.ToUser? && Asked(db0, evs, m.msg.from, m.user) && Asked(db0, evs, m.user, m.msg.from)
    ensures ActiveNamed(RunFrom(db0, evs).db, m.user) && m.fd == FdOf(RunFrom(db0, evs).db, m.user)
  {
    RunsStayWellFormed(db0, evs);
    ForwardedOnlyToFriends(RunFrom(db0, evs).db, ev, m);
    FriendshipIsConsent(db0, evs, m.msg.from, m.user);
  }

  /** A message from a connected user is forwarded exactly when the recipient is an active friend and
      the text is allowed. */
  lemma {:induction false} ForwardedIff(db: Accounts, name: string, text: string, fd: int)
    requires WellFormed(db) && ByFd(db, fd) < |db|
    ensures var me := db[ByFd(db, fd)].name;
            (exists m :: m in ImStep(db, name, text, fd).sent && m.msg.ImMsg?) <==>
            Rel(db, me, name) == Friends && ActiveNamed(db, name) && ValidIm(text)
  {
    var i, j := ByFd(db, fd), ByName(db, name);
    var me := db[i].name;
    OwnList(db, i, name);
    assert Rel(db, me, name) == Dual(Rel(db, name, me));
    if j < |db| && StatusFor(db[i].friends, name).Friends? && db[j].active && ValidIm(text) {
      assert ToUser(name, db[j].connfd, ImMsg(me, text)) in ImStep(db, name, text, fd).sent;
    }
  }
}
