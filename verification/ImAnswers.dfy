/** Everything each operation sends and returns, said once more in terms of who knows whom, with every limit,
    error and return code written out; and everything else it leaves as it was. */
module ImAnswers {
  import opened ImAccounts
  import opened ImProtocol
  import opened ImEdges

  // ----- what a request is answered with

  /** One to twenty printable characters that are not blanks. */
  predicate NameAllowed(n: string) { 1 <= |n| <= 20 && forall i :: 0 <= i < |n| ==> 33 <= n[i] as int <= 126 }

  /** One to two hundred printable characters, spaces included. */
  predicate TextAllowed(t: string) { 1 <= |t| <= 200 && forall i :: 0 <= i < |t| ==> 32 <= t[i] as int <= 126 }

  predicate Known(db: Accounts, n: string) { exists i :: 0 <= i < |db| && db[i].name == n }

  /** An answer goes to the connection that asked; some requests are only answered by status messages. */
  datatype Answer = Silent(ret: int) | Says(msg: Msg, ret: int)

  function Refused(e: ErrorKind, name: string): Answer { Says(Error(e, name), 1) }

  function Answered(db: Accounts, ev: Event): Answer {
    var i := ByFd(db, ev.fd);
    match ev.op
    case Register(n) =>
      if !NameAllowed(n) then Refused(BadCommand, "")
      else if !Known(db, n) then Says(Ack(OpRegister, n), 0)
      else if FdOf(db, n) == ev.fd then Refused(ClientBound, n)
      else Refused(UserExists, n)
    case Login(n) =>
      if !Known(db, n) then Refused(UserDoesNotExist, "")
      else if !ActiveNamed(db, n) then Silent(0)
      else if FdOf(db, n) == ev.fd then Refused(ClientBound, n)
      else Refused(UserAlreadyActive, n)
    case Logout => if i == |db| then Refused(ClientNotBound, "") else Says(Ack(OpLogout, ""), 0)
    case FriendList => if i == |db| then Refused(ClientNotBound, "") else Silent(0)
    case FriendRequest(n) =>
      if i == |db| then Refused(ClientNotBound, "")
      else if n == db[i].name then Refused(BadCommand, "")
      else if !Known(db, n) then Refused(UserDoesNotExist, "")
      else if Rel(db, db[i].name, n) == Requested then Says(Error(RequestedAlready, n), 0)
      else if Rel(db, db[i].name, n) == Friends then Says(Error(FriendAlready, n), 0)
      else Silent(0)
    case FriendRemove(n) =>
      if i == |db| then Refused(ClientNotBound, "")
      else if n == db[i].name then Refused(BadCommand, "")
      else if !Known(db, n) then Refused(UserDoesNotExist, "")
      else if Rel(db, db[i].name, n) == NotFriends then Refused(NotFriend, n)
      else Silent(0)
    case InstantMessage(n, t) =>
      if i == |db| then Refused(ClientNotBound, "")
      else if !Known(db, n) then Refused(UserDoesNotExist, "")
      else if Rel(db, db[i].name, n) != Friends then Refused(NotFriend, n)
      else if !ActiveNamed(db, n) then Refused(UserNotActive, n)
      else if !TextAllowed(t) then Refused(BadCommand, "")
      else Says(Ack(OpIm, n), 0)
  }

  // ----- what users are told

  lemma {:induction false} ListingLength(db: Accounts, user: string, fd: int, fs: seq<Entry>)
    ensures |Listing(db, user, fd, fs)| == |fs|
  {
    if fs != [] { ListingLength(db, user, fd, fs[..|fs|-1]); }
  }

  /** A listing has one message for each entry, in list order, over the connection that asked. */
  lemma {:induction false} ListingAt(db: Accounts, user: string, fd: int, fs: seq<Entry>, k: nat)
    requires k < |fs|
    ensures |Listing(db, user, fd, fs)| == |fs|
    ensures Listing(db, user, fd, fs)[k] ==
            ToUser(user, fd, StatusMsg(fs[k].who, fs[k].status, fs[k].status.Friends? && ActiveNamed(db, fs[k].who)))
  {
    ListingLength(db, user, fd, fs);
    ListingLength(db, user, fd, fs[..|fs|-1]);
    if k < |fs| - 1 { ListingAt(db, user, fd, fs[..|fs|-1], k); }
  }

  /** One status message for each entry of the account, in list order, over the connection. */
  predicate ListsEntries(db: Accounts, a: Account, fd: int, sent: seq<Sent>) {
    && |sent| == |a.friends|
    && forall k :: 0 <= k < |a.friends| ==>
         var e := a.friends[k];
         sent[k] == ToUser(a.name, fd, StatusMsg(e.who, e.status, e.status.Friends? && ActiveNamed(db, e.who)))
  }

  lemma {:induction false} ListingListsEntries(db: Accounts, a: Account, fd: int)
    ensures ListsEntries(db, a, fd, Listing(db, a.name, fd, a.friends))
  {
    ListingLength(db, a.name, fd, a.friends);
    hide Listing, ActiveNamed;
    forall k | 0 <= k < |a.friends| ensures
      var e := a.friends[k];
      Listing(db, a.name, fd, a.friends)[k] ==
      ToUser(a.name, fd, StatusMsg(e.who, e.status, e.status.Friends? && ActiveNamed(db, e.who)))
    {
      ListingAt(db, a.name, fd, a.friends, k);
    }
  }

  /** The answer to a list request: the list of the user that the connection speaks for, entry by entry, and
      nothing else; the database stays as it is. */
  lemma {:induction false} ListSendsEntries(db: Accounts, fd: int)
    requires ByFd(db, fd) < |db|
    ensures var o := Step(db, Event(FriendList, fd));
            o.db == db && o.ret == 0 && ListsEntries(db, db[ByFd(db, fd)], fd, o.sent)
  {
    ListingListsEntries(db, db[ByFd(db, fd)], fd);
    hide ListsEntries, Listing;
  }

  /** The active friends on a list, in list order. */
  function ActiveFriends(db: Accounts, fs: seq<Entry>): seq<string> {
    if fs == [] then []
    else (if fs[0].status.Friends? && ActiveNamed(db, fs[0].who) then [fs[0].who] else []) + ActiveFriends(db, fs[1..])
  }

  /** Each of these users is told once, in this order, that `user` came or went. */
  predicate Notifies(db: Accounts, user: string, active: bool, ws: seq<string>, sent: seq<Sent>) {
    && |sent| == |ws|
    && forall k :: 0 <= k < |ws| ==> sent[k] == ToUser(ws[k], FdOf(db, ws[k]), StatusMsg(user, Friends, active))
  }

  lemma {:induction false} ActiveFriendsAppend(db: Accounts, fs: seq<Entry>, e: Entry)
    ensures ActiveFriends(db, fs + [e]) ==
            ActiveFriends(db, fs) + if e.status.Friends? && ActiveNamed(db, e.who) then [e.who] else []
  {
    if fs == [] {
      assert fs + [e] == [e];
    } else {
      assert (fs + [e])[1..] == fs[1..] + [e];
      ActiveFriendsAppend(db, fs[1..], e);
    }
  }

  lemma {:induction false} NoticesNotify(db: Accounts, user: string, active: bool, fs: seq<Entry>)
    ensures Notifies(db, user, active, ActiveFriends(db, fs), Notices(db, user, active, fs))
  {
    if fs != [] {
      var init, e := fs[..|fs|-1], fs[|fs|-1];
      assert fs == init + [e];
      NoticesNotify(db, user, active, init);
      ActiveFriendsAppend(db, init, e);
    }
  }

  // ----- everything a step sends

  /** A status message to a user who has a session. */
  function ToldIfActive(db: Accounts, n: string, msg: Msg): seq<Sent> {
    if ActiveNamed(db, n) then [ToUser(n, FdOf(db, n), msg)] else []
  }

  /** What user `me` on the connection hears about `n`, and `n` about `me`, once their edge became `s`. */
  predicate TellsPair(db: Accounts, me: string, n: string, s: Status, fd: int, sent: seq<Sent>) {
    match s
    case Friends =>
      sent == [ToUser(me, fd, StatusMsg(n, Friends, ActiveNamed(db, n)))]
              + ToldIfActive(db, n, StatusMsg(me, Friends, true))
    case Requested =>
      sent == [ToUser(me, fd, StatusMsg(n, Requested, false))] + ToldIfActive(db, n, StatusMsg(me, ToAnswer, false))
    case _ =>
      sent == [ToUser(me, fd, StatusMsg(n, NotFriends, false))] + ToldIfActive(db, n, StatusMsg(me, NotFriends, false))
  }

  ghost predicate SendsLogin(o: Outcome, a: Account, fd: int) {
    exists l, n :: o.sent == [ToUser(a.name, fd, Ack(OpLogin, a.name))] + l + n
                   && ListsEntries(o.db, a, fd, l) && Notifies(o.db, a.name, true, ActiveFriends(o.db, a.friends), n)
  }

  ghost predicate SendsLogout(o: Outcome, a: Account, fd: int) {
    exists n :: o.sent == [ToConnection(fd, Ack(OpLogout, ""))] + n
                && Notifies(o.db, a.name, false, ActiveFriends(o.db, a.friends), n)
  }

  /** The messages of a step in sending order. */
  ghost predicate Sends(db: Accounts, ev: Event, o: Outcome) {
    var a, i := Answered(db, ev), ByFd(db, ev.fd);
    match ev.op
    case Login(n) =>
      if a.Says? then o.sent == [ToConnection(ev.fd, a.msg)]
      else ByName(db, n) < |db| && SendsLogin(o, db[ByName(db, n)], ev.fd)
    case Logout =>
      if a.ret != 0 then o.sent == [ToConnection(ev.fd, Error(ClientNotBound, ""))]
      else i < |db| && SendsLogout(o, db[i], ev.fd)
    case FriendList =>
      if a.Says? then o.sent == [ToConnection(ev.fd, a.msg)] else i < |db| && ListsEntries(db, db[i], ev.fd, o.sent)
    case FriendRequest(n) =>
      if a.Says? then o.sent == [ToConnection(ev.fd, a.msg)]
      else i < |db| && TellsPair(db, db[i].name, n, if Rel(db, db[i].name, n) == ToAnswer then Friends else Requested,
                                 ev.fd, o.sent)
    case FriendRemove(n) =>
      if a.Says? then o.sent == [ToConnection(ev.fd, a.msg)]
      else i < |db| && TellsPair(db, db[i].name, n, NotFriends, ev.fd, o.sent)
    case InstantMessage(n, t) =>
      if a.ret != 0 then a.Says? && o.sent == [ToConnection(ev.fd, a.msg)]
      else i < |db| && o.sent == [ToUser(n, FdOf(db, n), ImMsg(db[i].name, t)), ToConnection(ev.fd, Ack(OpIm, n))]
    case Register(n) => a.Says? && o.sent == [ToConnection(ev.fd, a.msg)]
  }

  lemma {:induction false} KnownIff(db: Accounts, n: string)
    ensures Known(db, n) <==> ByName(db, n) < |db|
  {
    ByNameFirst(db, n);
  }

  lemma RegisterSends(db: Accounts, n: string, fd: int)
    requires WellFormed(db)
    ensures var ev := Event(Register(n), fd);
            var o := Step(db, ev); o.ret == Answered(db, ev).ret && Sends(db, ev, o)
  {
    KnownIff(db, n);
    assert ValidName(n) <==> NameAllowed(n);
  }

  lemma LoginSends(db: Accounts, n: string, fd: int)
    requires WellFormed(db)
    ensures var ev := Event(Login(n), fd);
            var o := Step(db, ev); o.ret == Answered(db, ev).ret && Sends(db, ev, o)
  {
    KnownIff(db, n);
    var i, o := ByName(db, n), LoginStep(db, n, fd);
    if i < |db| && !db[i].active {
      ListingListsEntries(o.db, db[i], fd);
      NoticesNotify(o.db, n, true, db[i].friends);
      hide Listing, Notices, ListsEntries, Notifies, ActiveFriends;
      assert SendsLogin(o, db[i], fd) by {
        assert o.sent == [ToUser(n, fd, Ack(OpLogin, n))] + Listing(o.db, n, fd, db[i].friends)
                         + Notices(o.db, n, true, db[i].friends);
      }
    }
  }

  lemma LogoutSends(db: Accounts, fd: int)
    requires WellFormed(db) && fd >= 0
    ensures var ev := Event(Logout, fd);
            var o := Step(db, ev); o.ret == Answered(db, ev).ret && Sends(db, ev, o)
  {
    var i, o := ByFd(db, fd), LogoutStep(db, fd);
    if i < |db| {
      NoticesNotify(o.db, db[i].name, false, db[i].friends);
      hide Notices, Notifies, ActiveFriends;
      assert SendsLogout(o, db[i], fd) by {
        assert o.sent == [ToConnection(fd, Ack(OpLogout, ""))] + Notices(o.db, db[i].name, false, db[i].friends);
      }
    }
  }

  /** Without a user behind the connection or a different existing user named, a request or removal is refused. */
  lemma {:induction false} PairRefusalSent(db: Accounts, n: string, fd: int)
    requires var i := ByFd(db, fd); i == |db| || db[i].name == n || ByName(db, n) == |db|
    ensures var ev, o := Event(FriendRequest(n), fd), RequestStep(db, n, fd);
            o.ret == Answered(db, ev).ret && Sends(db, ev, o)
    ensures var ev, o := Event(FriendRemove(n), fd), RemoveStep(db, n, fd);
            o.ret == Answered(db, ev).ret && Sends(db, ev, o)
  {
    KnownIff(db, n);
  }

  lemma {:induction false} RequestBetweenSends(db: Accounts, i: nat, j: nat, fd: int)
    requires WellFormed(db) && fd >= 0 && i < |db| && j < |db| && i != j
    requires ByFd(db, fd) == i && ByName(db, db[j].name) == j
    ensures var ev, o := Event(FriendRequest(db[j].name), fd), RequestBetween(db, i, j, fd);
            o.ret == Answered(db, ev).ret && Sends(db, ev, o)
  {
    HalvesAgree(db, i, j);
    assert Rel(db, db[i].name, db[j].name) == Dual(StatusFor(db[j].friends, db[i].name));
    assert db[i].name != db[j].name && Known(db, db[j].name) && db[i].active;
    hide WellFormed, Rel, StatusFor, SetStatus, WithFriends, ByName, ByFd;
  }

  lemma RequestSends(db: Accounts, n: string, fd: int)
    requires WellFormed(db) && fd >= 0
    ensures var ev := Event(FriendRequest(n), fd);
            var o := Step(db, ev); o.ret == Answered(db, ev).ret && Sends(db, ev, o)
  {
    hide Answered, Sends, WellFormed;
    var i, j := ByFd(db, fd), ByName(db, n);
    if i < |db| && db[i].name != n && j < |db| { RequestBetweenSends(db, i, j, fd); }
    else { PairRefusalSent(db, n, fd); }
  }

  lemma {:induction false} RemoveBetweenSends(db: Accounts, i: nat, j: nat, fd: int)
    requires WellFormed(db) && fd >= 0 && i < |db| && j < |db| && i != j
    requires ByFd(db, fd) == i && ByName(db, db[j].name) == j
    ensures var ev, o := Event(FriendRemove(db[j].name), fd), RemoveBetween(db, i, j, fd);
            o.ret == Answered(db, ev).ret && Sends(db, ev, o)
  {
    HalvesAgree(db, i, j);
    assert db[i].name != db[j].name && Known(db, db[j].name);
    hide WellFormed, Rel, StatusFor, Drop, WithFriends, ByName, ByFd;
  }

  lemma RemoveSends(db: Accounts, n: string, fd: int)
    requires WellFormed(db) && fd >= 0
    ensures var ev := Event(FriendRemove(n), fd);
            var o := Step(db, ev); o.ret == Answered(db, ev).ret && Sends(db, ev, o)
  {
    hide Answered, Sends, WellFormed;
    var i, j := ByFd(db, fd), ByName(db, n);
    if i < |db| && db[i].name != n && j < |db| { RemoveBetweenSends(db, i, j, fd); }
    else { PairRefusalSent(db, n, fd); }
  }

  lemma ListSends(db: Accounts, fd: int)
    ensures var ev := Event(FriendList, fd);
            var o := Step(db, ev); o.ret == Answered(db, ev).ret && Sends(db, ev, o)
  {
    if ByFd(db, fd) < |db| { ListSendsEntries(db, fd); }
  }

  lemma ImSends(db: Accounts, n: string, t: string, fd: int)
    requires WellFormed(db) && fd >= 0
    ensures var ev := Event(InstantMessage(n, t), fd);
            var o := Step(db, ev); o.ret == Answered(db, ev).ret && Sends(db, ev, o)
  {
    KnownIff(db, n);
    assert ValidIm(t) <==> TextAllowed(t);
    if ByFd(db, fd) < |db| { OwnList(db, ByFd(db, fd), n); }
  }

  /** Every operation returns what is said here and sends exactly the messages said here, in this order. */
  lemma StepSends(db: Accounts, ev: Event)
    requires WellFormed(db) && ev.fd >= 0
    ensures Step(db, ev).ret == Answered(db, ev).ret && Sends(db, ev, Step(db, ev))
  {
    hide Step, Sends, Answered, WellFormed;
    match ev.op
    case Register(n) => RegisterSends(db, n, ev.fd);
    case Login(n) => LoginSends(db, n, ev.fd);
    case Logout => LogoutSends(db, ev.fd);
    case FriendRequest(n) => RequestSends(db, n, ev.fd);
    case FriendRemove(n) => RemoveSends(db, n, ev.fd);
    case FriendList => ListSends(db, ev.fd);
    case InstantMessage(n, t) => ImSends(db, n, t, ev.fd);
  }

  /** A text on its way to a user. */
  predicate Forwarded(m: Sent) { m.ToUser? && m.msg.ImMsg? }

  /** A message request has one answer, the last thing sent: an acknowledgement and return code 0 exactly when
      the text was forwarded, otherwise the first error that applies. */
  lemma {:induction false} ImAnsweredOnce(db: Accounts, n: string, t: string, fd: int)
    requires WellFormed(db) && fd >= 0
    ensures var o, i, last := ImStep(db, n, t, fd), ByFd(db, fd), |ImStep(db, n, t, fd).sent| - 1;
            && last >= 0 && o.db == db && (forall k :: 0 <= k < last ==> Forwarded(o.sent[k]))
            && o.sent[last] ==
               ToConnection(fd, if i == |db| then Error(ClientNotBound, "")
                                else if !Known(db, n) then Error(UserDoesNotExist, "")
                                else if Rel(db, db[i].name, n) != Friends then Error(NotFriend, n)
                                else if !ActiveNamed(db, n) then Error(UserNotActive, n)
                                else if !TextAllowed(t) then Error(BadCommand, "")
                                else Ack(OpIm, n))
            && (o.sent[last].msg == Ack(OpIm, n) <==> exists m :: m in o.sent && Forwarded(m))
            && (o.sent[last].msg == Ack(OpIm, n) <==> o.ret == 0) && (o.ret == 0 || o.ret == 1)
  {
    hide Known, TextAllowed, Rel, ActiveNamed, FdOf, WellFormed, ValidIm, StatusFor;
    var o := ImStep(db, n, t, fd);
    ImSends(db, n, t, fd);
    hide ImStep;
    if o.ret == 0 { assert o.sent[0] in o.sent && Forwarded(o.sent[0]); }
  }
}
