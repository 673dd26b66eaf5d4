/** What each operation leaves behind, by name: who is a user, who is active where, and which names are on
    whose list in which order.  With the statuses (`ImEdges.StepRefinesEdge`) that is the whole database. */
module ImEffects {
  import opened ImAccounts
  import opened ImProtocol
  import opened ImEdges
  import opened ImDelivery
  import opened ImAnswers

  // ----- who is a user

  lemma {:induction false} NamesAppend(db: Accounts, a: Account)
    ensures UserNames(db + [a]) == UserNames(db) + [a.name]
  {
    if db == [] {
      assert db + [a] == [a];
    } else {
      assert (db + [a])[1..] == db[1..] + [a];
      NamesAppend(db[1..], a);
    }
  }

  lemma {:induction false} SameUserNames(db: Accounts, db': Accounts)
    requires SameNames(db, db')
    ensures UserNames(db') == UserNames(db)
  {
  }

  lemma SameItself(db: Accounts)
    ensures SameNames(db, db)
  {
  }

  lemma PairNames(db: Accounts, i: nat, j: nat, fs: seq<Entry>, gs: seq<Entry>)
    requires i < |db| && j < |db|
    ensures SameNames(db, WithFriends(WithFriends(db, j, gs), i, fs))
  {
  }

  lemma RequestKeepsNames(db: Accounts, name: string, fd: int)
    ensures SameNames(db, RequestStep(db, name, fd).db)
  {
    hide SameNames, WithFriends, SetStatus, StatusFor;
    var i, j := ByFd(db, fd), ByName(db, name);
    assert SameNames(db, db) by { SameItself(db); }
    if i < |db| && j < |db| {
      var me, fs, gs := db[i].name, db[i].friends, db[j].friends;
      PairNames(db, i, j, SetStatus(fs, name, Friends), SetStatus(gs, me, Friends));
      PairNames(db, i, j, fs + [Entry(name, Requested)], gs + [Entry(me, ToAnswer)]);
    }
  }

  lemma RemoveKeepsNames(db: Accounts, name: string, fd: int)
    ensures SameNames(db, RemoveStep(db, name, fd).db)
  {
    hide SameNames, WithFriends, Drop;
    var i, j := ByFd(db, fd), ByName(db, name);
    assert SameNames(db, db) by { SameItself(db); }
    if i < |db| && j < |db| { PairNames(db, i, j, Drop(db[i].friends, name), Drop(db[j].friends, db[i].name)); }
  }

  lemma {:induction false} SessionNames(db: Accounts, i: nat, active: bool, fd: int)
    requires i < |db|
    ensures UserNames(WithSession(db, i, active, fd)) == UserNames(db)
  {
  }

  lemma {:induction false} RegisterNames(db: Accounts, n: string, fd: int)
    ensures UserNames(RegisterStep(db, n, fd).db) ==
            UserNames(db) + if NameAllowed(n) && !Known(db, n) then [n] else []
  {
    hide UserNames;
    KnownIff(db, n);
    assert ValidName(n) <==> NameAllowed(n);
    NamesAppend(db, Fresh(n));
  }

  /** Users stay in their places, and only a registration with an allowed new name adds one, at the end. */
  lemma {:induction false} StepNames(db: Accounts, ev: Event)
    ensures UserNames(Step(db, ev).db) ==
            UserNames(db) + if ev.op.Register? && NameAllowed(ev.op.name) && !Known(db, ev.op.name) then [ev.op.name]
                            else []
  {
    hide RegisterStep, RequestStep, RemoveStep, WithSession, UserNames, SameNames, NameAllowed, Known;
    match ev.op
    case Register(n) => RegisterNames(db, n, ev.fd);
    case Login(n) => if ByName(db, n) < |db| { SessionNames(db, ByName(db, n), true, ev.fd); }
    case Logout => if ByFd(db, ev.fd) < |db| { SessionNames(db, ByFd(db, ev.fd), false, -1); }
    case FriendRequest(n) =>
      RequestKeepsNames(db, n, ev.fd);
      SameUserNames(db, RequestStep(db, n, ev.fd).db);
    case FriendRemove(n) =>
      RemoveKeepsNames(db, n, ev.fd);
      SameUserNames(db, RemoveStep(db, n, ev.fd).db);
    case _ =>
  }

  // ----- who is active where

  /** The connection a user is on afterwards, -1 for none: a login binds the named user if it was not active, a
      logout frees the first user on the connection, and nothing else binds or frees anybody. */
  function ConnectionAfter(db: Accounts, ev: Event, x: string): int {
    match ev.op
    case Login(n) => if x == n && Known(db, n) && !ActiveNamed(db, n) then ev.fd else FdOf(db, x)
    case Logout =>
      if ByFd(db, ev.fd) < |db| && x == db[ByFd(db, ev.fd)].name then -1 else FdOf(db, x)
    case _ => FdOf(db, x)
  }

  lemma FdWithSession(db: Accounts, i: nat, active: bool, fd: int, x: string)
    requires UniqueNames(db) && i < |db|
    ensures FdOf(WithSession(db, i, active, fd), x) == if x == db[i].name then fd else FdOf(db, x)
  {
    NamesKept(db, WithSession(db, i, active, fd), x);
    ByNameIs(db, db[i].name, i);
  }

  lemma FdWithNew(db: Accounts, n: string, x: string)
    ensures FdOf(db + [Fresh(n)], x) == FdOf(db, x)
  {
    if ByName(db, x) < |db| {
      AddKeepsName(db, n, x);
    } else {
      ByNameFirst(db, x);
      ByNameIs(db + [Fresh(n)], x, if x == n then |db| else |db| + 1);
    }
  }

  lemma ActiveIsConnected(db: Accounts, x: string)
    requires Sessions(db)
    ensures ActiveNamed(db, x) <==> FdOf(db, x) >= 0
    ensures !ActiveNamed(db, x) ==> FdOf(db, x) == -1
  {
  }

  lemma SessionMoves(db: Accounts, ev: Event, x: string)
    requires WellFormed(db) && ev.fd >= 0
    ensures FdOf(Step(db, ev).db, x) == ConnectionAfter(db, ev, x)
  {
    hide FdOf, RequestStep, RemoveStep;
    match ev.op
    case Register(n) =>
      if ValidName(n) && ByName(db, n) == |db| { FdWithNew(db, n, x); }
    case Login(n) =>
      KnownIff(db, n);
      if ByName(db, n) < |db| { FdWithSession(db, ByName(db, n), true, ev.fd, x); }
    case Logout =>
      if ByFd(db, ev.fd) < |db| { FdWithSession(db, ByFd(db, ev.fd), false, -1, x); }
    case FriendRequest(n) => RequestKeepsActive(db, n, ev.fd, x);
    case FriendRemove(n) => RemoveKeepsActive(db, n, ev.fd, x);
    case _ =>
  }

  lemma StepSessions(db: Accounts, ev: Event, x: string)
    requires WellFormed(db) && ev.fd >= 0
    ensures FdOf(Step(db, ev).db, x) == ConnectionAfter(db, ev, x)
    ensures ActiveNamed(Step(db, ev).db, x) <==> FdOf(Step(db, ev).db, x) >= 0
  {
    StepKeepsShape(db, ev);
    ActiveIsConnected(Step(db, ev).db, x);
    SessionMoves(db, ev, x);
  }

  // ----- whose list names whom, in which order

  function NamesOn(fs: seq<Entry>): (r: seq<string>)
    ensures |r| == |fs| && forall i :: 0 <= i < |fs| ==> r[i] == fs[i].who
  {
    if fs == [] then [] else [fs[0].who] + NamesOn(fs[1..])
  }

  /** The names on a user's list, in list order. */
  function ListNames(db: Accounts, x: string): seq<string> {
    var i := ByName(db, x);
    if i < |db| then NamesOn(db[i].friends) else []
  }

  function Without(ns: seq<string>, n: string): seq<string> {
    if ns == [] then [] else (if ns[0] == n then [] else [ns[0]]) + Without(ns[1..], n)
  }

  lemma {:induction false} WithoutAbsent(ns: seq<string>, n: string)
    requires n !in ns
    ensures Without(ns, n) == ns
  {
    if ns != [] { WithoutAbsent(ns[1..], n); }
  }

  lemma {:induction false} AddedNames(fs: seq<Entry>, e: Entry)
    ensures NamesOn(fs + [e]) == NamesOn(fs) + [e.who]
  {
  }

  lemma {:induction false} SetNames(fs: seq<Entry>, who: string, st: Status)
    ensures NamesOn(SetStatus(fs, who, st)) == NamesOn(fs)
  {
  }

  lemma DropHead(fs: seq<Entry>, who: string)
    requires fs != []
    ensures Drop(fs, who) == if fs[0].who == who then fs[1..] else [fs[0]] + Drop(fs[1..], who)
  {
    var k := Find(fs, who);
    if 0 < k < |fs| { assert fs[..k] == [fs[0]] + fs[1..][..k - 1]; }
    else if k == |fs| { assert fs == [fs[0]] + fs[1..]; }
  }

  lemma {:induction false} NamesTail(fs: seq<Entry>)
    requires fs != []
    ensures NamesOn(fs)[1..] == NamesOn(fs[1..]) && NamesOn(fs)[0] == fs[0].who
  {
  }

  lemma {:induction false} NamesCons(e: Entry, fs: seq<Entry>)
    ensures NamesOn([e] + fs) == [e.who] + NamesOn(fs)
  {
    assert ([e] + fs)[1..] == fs;
  }

  lemma HeadOnce(fs: seq<Entry>)
    requires ProperList(fs) && fs != []
    ensures ProperList(fs[1..]) && fs[0].who !in NamesOn(fs[1..])
  {
  }

  lemma {:induction false} DroppedNone(fs: seq<Entry>, who: string)
    requires fs == []
    ensures NamesOn(Drop(fs, who)) == Without(NamesOn(fs), who)
  {
  }

  lemma {:induction false} DroppedNames(fs: seq<Entry>, who: string)
    requires ProperList(fs)
    ensures NamesOn(Drop(fs, who)) == Without(NamesOn(fs), who)
  {
    hide Drop, NamesOn, ProperList;
    if fs == [] {
      DroppedNone(fs, who);
    } else {
      DropHead(fs, who);
      HeadOnce(fs);
      NamesTail(fs);
      DroppedNames(fs[1..], who);
      if fs[0].who == who { WithoutAbsent(NamesOn(fs[1..]), who); } else { NamesCons(fs[0], Drop(fs[1..], who)); }
    }
  }

  lemma ListWithSession(db: Accounts, i: nat, active: bool, fd: int, x: string)
    requires i < |db|
    ensures ListNames(WithSession(db, i, active, fd), x) == ListNames(db, x)
  {
    NamesKept(db, WithSession(db, i, active, fd), x);
  }

  lemma ListWithNew(db: Accounts, n: string, x: string)
    ensures ListNames(db + [Fresh(n)], x) == ListNames(db, x)
  {
    if ByName(db, x) < |db| {
      AddKeepsName(db, n, x);
    } else {
      ByNameFirst(db, x);
      ByNameIs(db + [Fresh(n)], x, if x == n then |db| else |db| + 1);
    }
  }

  lemma {:induction false} ListsOfPair(db: Accounts, i: nat, j: nat, fs: seq<Entry>, gs: seq<Entry>, x: string)
    requires UniqueNames(db) && i < |db| && j < |db| && i != j
    ensures ListNames(WithFriends(WithFriends(db, j, gs), i, fs), x) ==
            if x == db[i].name then NamesOn(fs) else if x == db[j].name then NamesOn(gs) else ListNames(db, x)
  {
    hide NamesOn, ByName;
    var db' := WithFriends(WithFriends(db, j, gs), i, fs);
    PairNames(db, i, j, fs, gs);
    NamesKept(db, db', x);
    ByNameIs(db, db[i].name, i);
    ByNameIs(db, db[j].name, j);
  }

  /** A request puts each name at the end of the other's list when neither was there, a removal takes both out,
      the rest keep their order, and nothing else touches a list. */
  function ListAfter(db: Accounts, ev: Event, x: string): seq<string> {
    var i, ns := ByFd(db, ev.fd), ListNames(db, x);
    if i == |db| then ns
    else
      var me := db[i].name;
      match ev.op
      case FriendRequest(n) =>
        if n == me || !Known(db, n) || Rel(db, me, n) != NotFriends then ns
        else if x == me then ns + [n]
        else if x == n then ns + [me]
        else ns
      case FriendRemove(n) =>
        if n == me || !Known(db, n) then ns
        else if x == me then Without(ns, n)
        else if x == n then Without(ns, me)
        else ns
      case _ => ns
  }

  lemma OwnNames(db: Accounts, i: nat)
    requires UniqueNames(db) && i < |db|
    ensures ListNames(db, db[i].name) == NamesOn(db[i].friends)
  {
    ByNameIs(db, db[i].name, i);
  }

  lemma {:induction false} RequestLists(db: Accounts, i: nat, j: nat, fd: int, x: string)
    requires WellFormed(db) && i < |db| && j < |db| && i != j
    requires ByFd(db, fd) == i && ByName(db, db[j].name) == j
    ensures ListNames(RequestBetween(db, i, j, fd).db, x) == ListAfter(db, Event(FriendRequest(db[j].name), fd), x)
  {
    hide Rel, SetStatus, NamesOn, ListNames, Known, WithFriends, Symmetric, NoSelf, ByName, ByFd;
    var me, name, fs, gs := db[i].name, db[j].name, db[i].friends, db[j].friends;
    HalvesAgree(db, i, j);
    KnownIff(db, name);
    OwnNames(db, i);
    OwnNames(db, j);
    match StatusFor(gs, me)
    case Requested =>
      ListsOfPair(db, i, j, SetStatus(fs, name, Friends), SetStatus(gs, me, Friends), x);
      SetNames(fs, name, Friends);
      SetNames(gs, me, Friends);
    case NotFriends =>
      ListsOfPair(db, i, j, fs + [Entry(name, Requested)], gs + [Entry(me, ToAnswer)], x);
      AddedNames(fs, Entry(name, Requested));
      AddedNames(gs, Entry(me, ToAnswer));
    case _ =>
  }

  lemma {:induction false} NotNamed(fs: seq<Entry>, who: string)
    requires Find(fs, who) == |fs|
    ensures Without(NamesOn(fs), who) == NamesOn(fs)
  {
    FindFirst(fs, who);
    WithoutAbsent(NamesOn(fs), who);
  }

  lemma {:induction false} RemoveLists(db: Accounts, i: nat, j: nat, fd: int, x: string)
    requires WellFormed(db) && i < |db| && j < |db| && i != j
    requires ByFd(db, fd) == i && ByName(db, db[j].name) == j
    ensures ListNames(RemoveBetween(db, i, j, fd).db, x) == ListAfter(db, Event(FriendRemove(db[j].name), fd), x)
  {
    hide Rel, StatusFor, Drop, Without, NamesOn, ListNames, Known, WithFriends, Symmetric, NoSelf, ByName, ByFd;
    var me, name, fs, gs := db[i].name, db[j].name, db[i].friends, db[j].friends;
    HalvesAgree(db, i, j);
    KnownIff(db, name);
    OwnNames(db, i);
    OwnNames(db, j);
    if Find(gs, me) == |gs| {
      NotNamed(fs, name);
      NotNamed(gs, me);
    } else {
      ListsOfPair(db, i, j, Drop(fs, name), Drop(gs, me), x);
      DroppedNames(fs, name);
      DroppedNames(gs, me);
    }
  }

  /** A request or removal that names nobody else keeps every list. */
  lemma {:induction false} RefusedLists(db: Accounts, n: string, fd: int, x: string)
    requires var i := ByFd(db, fd); i == |db| || db[i].name == n || ByName(db, n) == |db|
    ensures ListAfter(db, Event(FriendRequest(n), fd), x) == ListNames(db, x)
    ensures ListAfter(db, Event(FriendRemove(n), fd), x) == ListNames(db, x)
  {
    KnownIff(db, n);
  }

  lemma PairLists(db: Accounts, n: string, fd: int, x: string)
    requires WellFormed(db)
    ensures ListNames(RequestStep(db, n, fd).db, x) == ListAfter(db, Event(FriendRequest(n), fd), x)
    ensures ListNames(RemoveStep(db, n, fd).db, x) == ListAfter(db, Event(FriendRemove(n), fd), x)
  {
    hide ListNames, ListAfter, WellFormed, RequestBetween, RemoveBetween;
    var i, j := ByFd(db, fd), ByName(db, n);
    if i < |db| && db[i].name != n && j < |db| {
      RequestLists(db, i, j, fd, x);
      RemoveLists(db, i, j, fd, x);
    } else {
      RefusedLists(db, n, fd, x);
    }
  }

  lemma SessionLists(db: Accounts, ev: Event, x: string)
    requires !ev.op.FriendRequest? && !ev.op.FriendRemove?
    ensures ListNames(Step(db, ev).db, x) == ListNames(db, x)
  {
    hide ListNames;
    match ev.op
    case Register(n) =>
      ListWithNew(db, n, x);
    case Login(n) =>
      if ByName(db, n) < |db| { ListWithSession(db, ByName(db, n), true, ev.fd, x); }
    case Logout =>
      if ByFd(db, ev.fd) < |db| { ListWithSession(db, ByFd(db, ev.fd), false, -1, x); }
    case _ =>
  }

  lemma StepLists(db: Accounts, ev: Event, x: string)
    requires WellFormed(db)
    ensures ListNames(Step(db, ev).db, x) == ListAfter(db, ev, x)
  {
    hide ListNames, WellFormed, RequestStep, RemoveStep;
    match ev.op
    case FriendRequest(n) => PairLists(db, n, ev.fd, x);
    case FriendRemove(n) => PairLists(db, n, ev.fd, x);
    case _ => SessionLists(db, ev, x);
  }

  // ----- nothing else to know

  ghost predicate SameByName(db: Accounts, db': Accounts) {
    && UserNames(db') == UserNames(db)
    && (forall x :: FdOf(db', x) == FdOf(db, x) && ListNames(db', x) == ListNames(db, x))
    && forall x, y :: Rel(db', x, y) == Rel(db, x, y)
  }

  lemma {:induction false} SameLists(fs: seq<Entry>, gs: seq<Entry>)
    requires ProperList(fs) && ProperList(gs) && NamesOn(fs) == NamesOn(gs)
    requires forall y :: StatusFor(fs, y) == StatusFor(gs, y)
    ensures fs == gs
  {
    assert |fs| == |NamesOn(fs)| == |gs|;
    forall k | 0 <= k < |fs| ensures fs[k] == gs[k] {
      assert fs[k].who == NamesOn(fs)[k] == gs[k].who;
      FindIs(fs, fs[k].who, k);
      FindIs(gs, fs[k].who, k);
      assert StatusFor(fs, fs[k].who) == StatusFor(gs, fs[k].who);
    }
  }

  lemma SameAccount(db: Accounts, db': Accounts, i: nat)
    requires Shaped(db) && Shaped(db') && SameByName(db, db') && |db| == |db'| && i < |db|
    ensures db[i] == db'[i]
  {
    var n := db[i].name;
    assert n == UserNames(db)[i] == UserNames(db')[i] == db'[i].name;
    ByNameIs(db, n, i);
    ByNameIs(db', n, i);
    assert FdOf(db', n) == FdOf(db, n) && ListNames(db', n) == ListNames(db, n);
    forall y ensures StatusFor(db[i].friends, y) == StatusFor(db'[i].friends, y) {
      assert Rel(db', n, y) == Rel(db, n, y);
    }
    SameLists(db[i].friends, db'[i].friends);
  }

  /** Users in order, connections, names on lists in order and statuses make up the whole database. */
  lemma KnownByName(db: Accounts, db': Accounts)
    requires Shaped(db) && Shaped(db') && SameByName(db, db')
    ensures db == db'
  {
    assert |db| == |UserNames(db)| == |UserNames(db')| == |db'|;
    hide Shaped, SameByName;
    forall i | 0 <= i < |db| ensures db[i] == db'[i] { SameAccount(db, db', i); }
  }

  /** A database as an operation should leave it. */
  ghost predicate Described(db: Accounts, ev: Event, db': Accounts) {
    && Shaped(db')
    && UserNames(db') == UserNames(db) + (if ev.op.Register? && NameAllowed(ev.op.name) && !Known(db, ev.op.name)
                                          then [ev.op.name] else [])
    && (forall x :: FdOf(db', x) == ConnectionAfter(db, ev, x) && ListNames(db', x) == ListAfter(db, ev, x))
    && forall x, y :: Rel(db', x, y) == EdgeNext(Rel(db, x, y), EdgeInputOf(db, ev, x, y))
  }

  lemma DescribedOnce(db: Accounts, ev: Event, db1: Accounts, db2: Accounts)
    requires Described(db, ev, db1) && Described(db, ev, db2)
    ensures db1 == db2
  {
    assert SameByName(db1, db2) by {
      hide FdOf, ListNames, Rel, ConnectionAfter, ListAfter, EdgeNext, EdgeInputOf, Shaped;
    }
    KnownByName(db1, db2);
  }

  lemma StepDescribed(db: Accounts, ev: Event)
    requires WellFormed(db) && ev.fd >= 0
    ensures Described(db, ev, Step(db, ev).db)
  {
    hide Step, FdOf, ListNames, Rel, ConnectionAfter, ListAfter, EdgeNext, EdgeInputOf, Shaped, WellFormed;
    StepKeepsShape(db, ev);
    StepNames(db, ev);
    forall x
      ensures FdOf(Step(db, ev).db, x) == ConnectionAfter(db, ev, x)
      ensures ListNames(Step(db, ev).db, x) == ListAfter(db, ev, x)
    {
      StepSessions(db, ev, x);
      StepLists(db, ev, x);
    }
    forall x, y ensures Rel(Step(db, ev).db, x, y) == EdgeNext(Rel(db, x, y), EdgeInputOf(db, ev, x, y)) {
      StepRefinesEdge(db, ev, x, y);
    }
  }

  /** The database an operation leaves is the only one that fits this description by name. */
  lemma StepLeaves(db: Accounts, ev: Event, db': Accounts)
    requires WellFormed(db) && ev.fd >= 0
    ensures Described(db, ev, db') <==> db' == Step(db, ev).db
  {
    StepDescribed(db, ev);
    hide Described, Step;
    if Described(db, ev, db') { DescribedOnce(db, ev, db', Step(db, ev).db); }
  }
}
