/** What each client operation does to the database and which messages it sends, one atomic step per
    handler. */
module ImProtocol {
  import opened ImAccounts

  datatype Op =
    | Register(name: string)
    | Login(name: string)
    | Logout
    | FriendRequest(name: string)
    | FriendRemove(name: string)
    | FriendList
    | InstantMessage(name: string, text: string)

  datatype Event = Event(op: Op, fd: int)

  datatype AckKind = OpRegister | OpLogin | OpLogout | OpIm

  datatype ErrorKind =
    | UserExists | ClientBound | BadCommand | UserDoesNotExist | UserAlreadyActive
    | ClientNotBound | NotFriend | RequestedAlready | FriendAlready | UserNotActive

  /** Protocol messages; those without a user name carry "". */
  datatype Msg =
    | Ack(kind: AckKind, name: string)
    | Error(error: ErrorKind, name: string)
    | StatusMsg(name: string, status: Status, active: bool)
    | ImMsg(from: string, text: string)

  /** A message on its way: to a user over that user's connection, or back to the connection that
      asked. */
  datatype Sent =
    | ToUser(user: string, fd: int, msg: Msg)
    | ToConnection(fd: int, msg: Msg)

  /** The new database, the messages in sending order, and the handler's return code. */
  datatype Outcome = Outcome(db: Accounts, sent: seq<Sent>, ret: int)

  const NAME_MAXLEN := 20
  const IM_MAXLEN := 200

  /** Printable and not a space, in the C locale. */
  predicate ValidName(name: string) {
    1 <= |name| <= NAME_MAXLEN && forall i :: 0 <= i < |name| ==> '!' <= name[i] <= '~'
  }

  predicate ValidIm(text: string) {
    1 <= |text| <= IM_MAXLEN && forall i :: 0 <= i < |text| ==> ' ' <= text[i] <= '~'
  }

  function Reply(fd: int, e: ErrorKind, name: string): seq<Sent> {
    [ToConnection(fd, Error(e, name))]
  }

  function Refuse(db: Accounts, fd: int, e: ErrorKind, name: string): Outcome {
    Outcome(db, Reply(fd, e, name), 1)
  }

  // ----- the messages about a friend list

  /** What the owner of a friend entry is told about it. */
  function Shown(db: Accounts, e: Entry): Msg {
    StatusMsg(e.who, e.status, e.status.Friends? && ActiveNamed(db, e.who))
  }

  function Listing(db: Accounts, user: string, fd: int, fs: seq<Entry>): seq<Sent> {
    if fs == [] then []
    else Listing(db, user, fd, fs[..|fs|-1]) + [ToUser(user, fd, Shown(db, fs[|fs|-1]))]
  }

  /** What the active friends of `user` are told when `user` comes or goes. */
  function Notice(db: Accounts, user: string, active: bool, e: Entry): seq<Sent> {
    if ActiveNamed(db, e.who) && e.status.Friends? then
      [ToUser(e.who, FdOf(db, e.who), StatusMsg(user, Friends, active))]
    else []
  }

  function Notices(db: Accounts, user: string, active: bool, fs: seq<Entry>): seq<Sent> {
    if fs == [] then []
    else Notices(db, user, active, fs[..|fs|-1]) + Notice(db, user, active, fs[|fs|-1])
  }

  /** A status message to a user who has a session, nothing otherwise. */
  function Tell(a: Account, msg: Msg): seq<Sent> {
    if a.active then [ToUser(a.name, a.connfd, msg)] else []
  }

  // ----- the handlers

  function RegisterStep(db: Accounts, name: string, fd: int): Outcome {
    var i := ByName(db, name);
    if !ValidName(name) then Refuse(db, fd, BadCommand, "")
    else if i < |db| && db[i].connfd == fd then Refuse(db, fd, ClientBound, name)
    else if i < |db| then Refuse(db, fd, UserExists, name)
    else Outcome(db + [Account(name, false, -1, [])], [ToConnection(fd, Ack(OpRegister, name))], 0)
  }

  function LoginStep(db: Accounts, name: string, fd: int): Outcome {
    var i := ByName(db, name);
    if i == |db| then Refuse(db, fd, UserDoesNotExist, "")
    else if db[i].active && db[i].connfd == fd then Refuse(db, fd, ClientBound, name)
    else if db[i].active then Refuse(db, fd, UserAlreadyActive, name)
    else
      var db' := WithSession(db, i, true, fd);
      var fs := db[i].friends;
      Outcome(db',
              [ToUser(name, fd, Ack(OpLogin, name))] + Listing(db', name, fd, fs) + Notices(db', name, true, fs), 0)
  }

  function LogoutStep(db: Accounts, fd: int): Outcome {
    var i := ByFd(db, fd);
    if i == |db| || !db[i].active then Refuse(db, fd, ClientNotBound, "")
    else
      var db' := WithSession(db, i, false, -1);
      Outcome(db', [ToConnection(fd, Ack(OpLogout, ""))] + Notices(db', db[i].name, false, db[i].friends), 0)
  }

  /** A request from user `i` to another user `j`. */
  function RequestBetween(db: Accounts, i: nat, j: nat, fd: int): Outcome
    requires i < |db| && j < |db|
  {
    var me, name, fs, gs := db[i].name, db[j].name, db[i].friends, db[j].friends;
    match StatusFor(gs, me)
    case ToAnswer => Outcome(db, Reply(fd, RequestedAlready, name), 0)
    case Friends => Outcome(db, Reply(fd, FriendAlready, name), 0)
    case Requested =>
      Outcome(WithFriends(WithFriends(db, j, SetStatus(gs, me, Friends)), i, SetStatus(fs, name, Friends)),
              [ToUser(me, fd, StatusMsg(name, Friends, db[j].active))]
              + Tell(db[j], StatusMsg(me, Friends, db[i].active)), 0)
    case NotFriends =>
      Outcome(WithFriends(WithFriends(db, j, gs + [Entry(me, ToAnswer)]), i, fs + [Entry(name, Requested)]),
              [ToUser(me, fd, StatusMsg(name, Requested, false))]
              + Tell(db[j], StatusMsg(me, ToAnswer, false)), 0)
  }

  function RequestStep(db: Accounts, name: string, fd: int): Outcome {
    var i, j := ByFd(db, fd), ByName(db, name);
    if i == |db| then Refuse(db, fd, ClientNotBound, "")
    else if db[i].name == name then Refuse(db, fd, BadCommand, "")
    else if j == |db| then Refuse(db, fd, UserDoesNotExist, "")
    else RequestBetween(db, i, j, fd)
  }

  /** A removal by user `i` of another user `j`. */
  function RemoveBetween(db: Accounts, i: nat, j: nat, fd: int): Outcome
    requires i < |db| && j < |db|
  {
    var me, name := db[i].name, db[j].name;
    if Find(db[j].friends, me) == |db[j].friends| then Refuse(db, fd, NotFriend, name)
    else
      Outcome(WithFriends(WithFriends(db, j, Drop(db[j].friends, me)), i, Drop(db[i].friends, name)),
              [ToUser(me, fd, StatusMsg(name, NotFriends, false))]
              + Tell(db[j], StatusMsg(me, NotFriends, false)), 0)
  }

  function RemoveStep(db: Accounts, name: string, fd: int): Outcome {
    var i, j := ByFd(db, fd), ByName(db, name);
    if i == |db| then Refuse(db, fd, ClientNotBound, "")
    else if db[i].name == name then Refuse(db, fd, BadCommand, "")
    else if j == |db| then Refuse(db, fd, UserDoesNotExist, "")
    else RemoveBetween(db, i, j, fd)
  }

  function ListStep(db: Accounts, fd: int): Outcome {
    var i := ByFd(db, fd);
    if i == |db| then Refuse(db, fd, ClientNotBound, "")
    else Outcome(db, Listing(db, db[i].name, fd, db[i].friends), 0)
  }

  /** A text from user `i` to user `j`, both known to exist. */
  function ImBetween(db: Accounts, i: nat, j: nat, text: string, fd: int): Outcome
    requires i < |db| && j < |db|
  {
    var name := db[j].name;
    if !StatusFor(db[i].friends, name).Friends? then Refuse(db, fd, NotFriend, name)
    else if !db[j].active then Refuse(db, fd, UserNotActive, name)
    else if !ValidIm(text) then Refuse(db, fd, BadCommand, "")
    else
      Outcome(db, [ToUser(name, db[j].connfd, ImMsg(db[i].name, text)), ToConnection(fd, Ack(OpIm, name))], 0)
  }

  function ImStep(db: Accounts, name: string, text: string, fd: int): Outcome {
    var i, j := ByFd(db, fd), ByName(db, name);
    if i == |db| then Refuse(db, fd, ClientNotBound, "")
    else if j == |db| then Refuse(db, fd, UserDoesNotExist, "")
    else ImBetween(db, i, j, text, fd)
  }

  function Step(db: Accounts, ev: Event): Outcome {
    match ev.op
    case Register(n) => RegisterStep(db, n, ev.fd)
    case Login(n) => LoginStep(db, n, ev.fd)
    case Logout => LogoutStep(db, ev.fd)
    case FriendRequest(n) => RequestStep(db, n, ev.fd)
    case FriendRemove(n) => RemoveStep(db, n, ev.fd)
    case FriendList => ListStep(db, ev.fd)
    case InstantMessage(n, t) => ImStep(db, n, t, ev.fd)
  }

  /** The database and everything sent after a run. */
  datatype Run = Run(db: Accounts, log: seq<Sent>)

  function RunFrom(db0: Accounts, evs: seq<Event>): Run {
    if evs == [] then Run(db0, [])
    else
      var r := RunFrom(db0, evs[..|evs|-1]);
      var o := Step(r.db, evs[|evs|-1]);
      Run(o.db, r.log + o.sent)
  }

  lemma {:induction false} RunNext(db0: Accounts, evs: seq<Event>, ev: Event)
    ensures var r := RunFrom(db0, evs); var o := Step(r.db, ev);
            RunFrom(db0, evs + [ev]) == Run(o.db, r.log + o.sent)
  {
    assert (evs + [ev])[..|evs|] == evs;
  }
}
