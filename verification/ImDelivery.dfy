/** Where messages go: whatever is meant for a user is sent over the connection that user has after the
    step. */
module ImDelivery {
  import opened ImAccounts
  import opened ImProtocol
  import opened ImEdges

  /** Everybody a message is meant for is active, and it goes to that user's connection. */
  ghost predicate AllDelivered(o: Outcome) {
    forall m :: m in o.sent && m.ToUser? ==> ActiveNamed(o.db, m.user) && m.fd == FdOf(o.db, m.user)
  }

  // ----- the lists the handlers send

  lemma {:induction false} InListing(db: Accounts, user: string, fd: int, fs: seq<Entry>, m: Sent)
    ensures m in Listing(db, user, fd, fs) <==> exists k :: 0 <= k < |fs| && m == ToUser(user, fd, Shown(db, fs[k]))
  {
    if fs != [] {
      InListing(db, user, fd, fs[..|fs|-1], m);
    }
  }

  lemma {:induction false} InNotices(db: Accounts, user: string, active: bool, fs: seq<Entry>, m: Sent)
    ensures m in Notices(db, user, active, fs) <==>
            exists k :: 0 <= k < |fs| && m in Notice(db, user, active, fs[k])
  {
    if fs != [] {
      var init, last := fs[..|fs|-1], fs[|fs|-1];
      InNotices(db, user, active, init, m);
      assert forall k :: 0 <= k < |init| ==> init[k] == fs[k];
      assert m in Notices(db, user, active, fs) <==>
             m in Notices(db, user, active, init) || m in Notice(db, user, active, last);
    }
  }

  // ----- sessions that stay

  lemma ActivePair(db: Accounts, i: nat, j: nat, fs: seq<Entry>, gs: seq<Entry>, a: string)
    requires i < |db| && j < |db|
    ensures ActiveNamed(WithFriends(WithFriends(db, j, gs), i, fs), a) == ActiveNamed(db, a)
    ensures FdOf(WithFriends(WithFriends(db, j, gs), i, fs), a) == FdOf(db, a)
  {
    ActiveWithFriends(db, j, gs, a);
    ActiveWithFriends(WithFriends(db, j, gs), i, fs, a);
  }

  lemma RequestKeepsActive(db: Accounts, name: string, fd: int, a: string)
    ensures ActiveNamed(RequestStep(db, name, fd).db, a) == ActiveNamed(db, a)
    ensures FdOf(RequestStep(db, name, fd).db, a) == FdOf(db, a)
  {
    var i, j := ByFd(db, fd), ByName(db, name);
    if i < |db| && j < |db| {
      var me, fs, gs := db[i].name, db[i].friends, db[j].friends;
      ActivePair(db, i, j, SetStatus(fs, name, Friends), SetStatus(gs, me, Friends), a);
      ActivePair(db, i, j, fs + [Entry(name, Requested)], gs + [Entry(me, ToAnswer)], a);
    }
  }

  lemma RemoveKeepsActive(db: Accounts, name: string, fd: int, a: string)
    ensures ActiveNamed(RemoveStep(db, name, fd).db, a) == ActiveNamed(db, a)
    ensures FdOf(RemoveStep(db, name, fd).db, a) == FdOf(db, a)
  {
    var i, j := ByFd(db, fd), ByName(db, name);
    if i < |db| && j < |db| {
      ActivePair(db, i, j, Drop(db[i].friends, name), Drop(db[j].friends, db[i].name), a);
    }
  }

  lemma NewSession(db: Accounts, i: nat, fd: int)
    requires UniqueNames(db) && i < |db|
    ensures var db' := WithSession(db, i, true, fd); ActiveNamed(db', db[i].name) && FdOf(db', db[i].name) == fd
  {
    NamesKept(db, WithSession(db, i, true, fd), db[i].name);
    ByNameIs(db, db[i].name, i);
  }

  /** The user a connection speaks for is active on it. */
  lemma {:induction false} SpeaksFor(db: Accounts, fd: int)
    requires WellFormed(db) && fd >= 0 && ByFd(db, fd) < |db|
    ensures var me := db[ByFd(db, fd)].name; ActiveNamed(db, me) && FdOf(db, me) == fd
  {
    ByNameIs(db, db[ByFd(db, fd)].name, ByFd(db, fd));
  }

  lemma {:induction false} ListingDelivered(db: Accounts, user: string, fd: int, fs: seq<Entry>, m: Sent)
    requires ActiveNamed(db, user) && FdOf(db, user) == fd && m in Listing(db, user, fd, fs)
    ensures m.ToUser? && ActiveNamed(db, m.user) && m.fd == FdOf(db, m.user)
  {
    InListing(db, user, fd, fs, m);
  }

  lemma {:induction false} NoticesDelivered(db: Accounts, user: string, active: bool, fs: seq<Entry>, m: Sent)
    requires m in Notices(db, user, active, fs)
    ensures m.ToUser? && ActiveNamed(db, m.user) && m.fd == FdOf(db, m.user)
  {
    InNotices(db, user, active, fs, m);
  }

  // ----- every handler

  lemma LoginDelivers(db: Accounts, name: string, fd: int)
    requires WellFormed(db)
    ensures AllDelivered(LoginStep(db, name, fd))
  {
    var i, o := ByName(db, name), LoginStep(db, name, fd);
    if i < |db| && !db[i].active {
      NewSession(db, i, fd);
      hide Listing, Notices, ActiveNamed, FdOf, WithSession;
      forall m | m in o.sent && m.ToUser? ensures ActiveNamed(o.db, m.user) && m.fd == FdOf(o.db, m.user) {
        if m in Listing(o.db, name, fd, db[i].friends) {
          ListingDelivered(o.db, name, fd, db[i].friends, m);
        } else if m in Notices(o.db, name, true, db[i].friends) {
          NoticesDelivered(o.db, name, true, db[i].friends, m);
        }
      }
    }
  }

  lemma LogoutDelivers(db: Accounts, fd: int)
    requires WellFormed(db)
    ensures AllDelivered(LogoutStep(db, fd))
  {
    var i, o := ByFd(db, fd), LogoutStep(db, fd);
    if i < |db| && db[i].active {
      hide Notices, ActiveNamed, FdOf, WithSession;
      forall m | m in o.sent && m.ToUser? ensures ActiveNamed(o.db, m.user) && m.fd == FdOf(o.db, m.user) {
        NoticesDelivered(o.db, db[i].name, false, db[i].friends, m);
      }
    }
  }

  /** The two messages about an edge go to its two ends. */
  lemma {:induction false} PairDelivers(db: Accounts, o: Outcome, i: nat, j: nat, fd: int, mine: Msg, theirs: Msg)
    requires WellFormed(db) && fd >= 0 && ByFd(db, fd) == i < |db| && j < |db|
    requires forall a :: ActiveNamed(o.db, a) == ActiveNamed(db, a) && FdOf(o.db, a) == FdOf(db, a)
    requires o.sent == [ToUser(db[i].name, fd, mine)] + Tell(db[j], theirs)
    ensures AllDelivered(o)
  {
    SpeaksFor(db, fd);
    ByNameIs(db, db[j].name, j);
  }

  lemma RequestDelivers(db: Accounts, name: string, fd: int)
    requires WellFormed(db) && fd >= 0
    ensures AllDelivered(RequestStep(db, name, fd))
  {
    var i, j, o := ByFd(db, fd), ByName(db, name), RequestStep(db, name, fd);
    if i < |db| && db[i].name != name && j < |db| {
      var me := db[i].name;
      forall a ensures ActiveNamed(o.db, a) == ActiveNamed(db, a) && FdOf(o.db, a) == FdOf(db, a) {
        RequestKeepsActive(db, name, fd, a);
      }
      match StatusFor(db[j].friends, me)
      case Requested =>
        PairDelivers(db, o, i, j, fd, StatusMsg(name, Friends, db[j].active), StatusMsg(me, Friends, db[i].active));
      case NotFriends =>
        PairDelivers(db, o, i, j, fd, StatusMsg(name, Requested, false), StatusMsg(me, ToAnswer, false));
      case _ =>
    }
  }

  lemma RemoveDelivers(db: Accounts, name: string, fd: int)
    requires WellFormed(db) && fd >= 0
    ensures AllDelivered(RemoveStep(db, name, fd))
  {
    var i, j, o := ByFd(db, fd), ByName(db, name), RemoveStep(db, name, fd);
    if i < |db| && db[i].name != name && j < |db| && Find(db[j].friends, db[i].name) < |db[j].friends| {
      forall a ensures ActiveNamed(o.db, a) == ActiveNamed(db, a) && FdOf(o.db, a) == FdOf(db, a) {
        RemoveKeepsActive(db, name, fd, a);
      }
      PairDelivers(db, o, i, j, fd, StatusMsg(name, NotFriends, false), StatusMsg(db[i].name, NotFriends, false));
    }
  }

  lemma ListDelivers(db: Accounts, fd: int)
    requires WellFormed(db) && fd >= 0
    ensures AllDelivered(ListStep(db, fd))
  {
    var i, o := ByFd(db, fd), ListStep(db, fd);
    if i < |db| {
      SpeaksFor(db, fd);
      hide Listing, ActiveNamed, FdOf;
      forall m | m in o.sent ensures m.ToUser? && ActiveNamed(db, m.user) && m.fd == FdOf(db, m.user) {
        ListingDelivered(db, db[i].name, fd, db[i].friends, m);
      }
    }
  }

  lemma ImDelivers(db: Accounts, name: string, text: string, fd: int)
    ensures AllDelivered(ImStep(db, name, text, fd))
  {
  }

  lemma RegisterDelivers(db: Accounts, name: string, fd: int)
    ensures AllDelivered(RegisterStep(db, name, fd))
  {
  }

  lemma StepDelivers(db: Accounts, ev: Event)
    requires WellFormed(db) && ev.fd >= 0
    ensures AllDelivered(Step(db, ev))
  {
    hide AllDelivered, WellFormed, LoginStep, LogoutStep, RequestStep, RemoveStep, ListStep, ImStep;
    match ev.op
    case Register(n) => RegisterDelivers(db, n, ev.fd);
    case Login(n) => LoginDelivers(db, n, ev.fd);
    case Logout => LogoutDelivers(db, ev.fd);
    case FriendRequest(n) => RequestDelivers(db, n, ev.fd);
    case FriendRemove(n) => RemoveDelivers(db, n, ev.fd);
    case FriendList => ListDelivers(db, ev.fd);
    case InstantMessage(n, t) => ImDelivers(db, n, t, ev.fd);
  }
}
