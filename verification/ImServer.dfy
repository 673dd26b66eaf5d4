/** The server's handlers: each walks the lists, changes nodes in place and sends, and does exactly
    the protocol step of its operation. */
module ImServer {
  import opened ImAccounts
  import opened ImProtocol
  import opened ImEdges
  import opened Udbase

  lemma {:induction false} ListingNext(db: Accounts, user: string, fd: int, fs: seq<Entry>, k: nat)
    requires k < |fs|
    ensures Listing(db, user, fd, fs[..k + 1]) ==
            Listing(db, user, fd, fs[..k]) + [ToUser(user, fd, Shown(db, fs[k]))]
  {
    assert fs[..k + 1][..k] == fs[..k];
  }

  lemma {:induction false} NoticesNext(db: Accounts, user: string, active: bool, fs: seq<Entry>, k: nat)
    requires k < |fs|
    ensures Notices(db, user, active, fs[..k + 1]) ==
            Notices(db, user, active, fs[..k]) + Notice(db, user, active, fs[k])
  {
    assert fs[..k + 1][..k] == fs[..k];
  }

  /** The halves of an edge are both there or both missing, and a present half has a real status. */
  ghost predicate Mutual(db: Accounts, i: nat, j: nat)
    requires i < |db| && j < |db|
  {
    var fs, gs := db[i].friends, db[j].friends;
    && (Find(fs, db[j].name) < |fs| <==> Find(gs, db[i].name) < |gs|)
    && (Find(gs, db[i].name) < |gs| ==> StatusFor(gs, db[i].name) != NotFriends)
  }

  ghost predicate AllMutual(db: Accounts) {
    forall i, j :: 0 <= i < |db| && 0 <= j < |db| && i != j ==> Mutual(db, i, j)
  }

  lemma Prepare(db: Accounts)
    requires WellFormed(db)
    ensures KnownFriends(db) && AllMutual(db)
  {
    WellFormedKnows(db);
    forall i, j | 0 <= i < |db| && 0 <= j < |db| && i != j ensures Mutual(db, i, j) {
      HalvesAgree(db, i, j);
    }
  }

  lemma Kept(m: Accounts, ev: Event, m': Accounts)
    requires WellFormed(m) && ev.fd >= 0 && m' == Step(m, ev).db
    ensures WellFormed(m')
  {
    StepKeepsWellFormed(m, ev);
  }

  lemma Assoc(a: seq<Sent>, b: seq<Sent>, c: seq<Sent>, d: seq<Sent>)
    ensures a + b + c == a + (b + c) && a + b + c + d == a + (b + c + d)
  {
  }

  lemma SessionKnows(db: Accounts, i: nat, active: bool, fd: int)
    requires KnownFriends(db) && i < |db|
    ensures KnownFriends(WithSession(db, i, active, fd))
  {
    var db' := WithSession(db, i, active, fd);
    forall n ensures ByName(db', n) == ByName(db, n) { NamesKept(db, db', n); }
  }

  lemma PrefixNext(evs: seq<Event>, k: nat)
    requires k < |evs|
    ensures evs[..k + 1] == evs[..k] + [evs[k]]
  {
  }

  lemma PrefixEnds(evs: seq<Event>)
    ensures evs[..0] == [] && evs[..|evs|] == evs
  {
  }

  class Server {
    const db: Database
    /** Everything sent so far, in order. */
    var outbox: seq<Sent>

    ghost predicate Valid()
      reads db, db.ulist, db.nodes
    {
      db.Represents() && WellFormed(db.model)
    }

    /** The database is as the step leaves it, its messages were added to those sent before, and its
        return code is `ret`. */
    ghost predicate Did(o: Outcome, before: seq<Sent>, ret: int)
      reads this, db
    {
      db.model == o.db && outbox == before + o.sent && ret == o.ret
    }

    /** Takes over a database whose friend graph is well-formed, as loading assumes it to be. */
    constructor (db: Database)
      requires db.Represents() && WellFormed(db.model)
      ensures Valid() && this.db == db && outbox == []
    {
      this.db := db;
      outbox := [];
    }

    method Send(m: Sent)
      modifies this`outbox
      ensures outbox == old(outbox) + [m]
      ensures old(db.Represents()) ==> db.Represents()
    {
      outbox := outbox + [m];
    }

    method Refuse(connfd: int, e: ErrorKind, name: string) returns (ret: int)
      modifies this`outbox
      ensures outbox == old(outbox) + Reply(connfd, e, name) && ret == 1
      ensures old(db.Represents()) ==> db.Represents()
    {
      Send(ToConnection(connfd, Error(e, name)));
      ret := 1;
    }

    method RegisterUser(name: string, connfd: int) returns (ret: int)
      requires Valid() && connfd >= 0
      modifies this`outbox, db`ulist, db`model
      ensures Valid()
      ensures forall i :: 0 <= i < |db.ulist| ==> db.ulist[i] in old(db.ulist) || fresh(db.ulist[i])
      ensures Did(Step(old(db.model), Event(Register(name), connfd)), old(outbox), ret)
    {
      hide WellFormed, KnownFriends;
      ghost var ev := Event(Register(name), connfd);
      StepKeepsWellFormed(db.model, ev);
      WellFormedKnows(db.model);
      if !ValidName(name) {
        ret := Refuse(connfd, BadCommand, "");
        return;
      }
      var k := db.UserNamed(name);
      assert k < |db.ulist| ==> db.Shows(db.ulist[k], db.model[k]);
      if k < |db.ulist| {
        if db.ulist[k].connfd == connfd {
          ret := Refuse(connfd, ClientBound, name);
        } else {
          ret := Refuse(connfd, UserExists, name);
        }
        return;
      }
      db.AddUser(name);
      Send(ToConnection(connfd, Ack(OpRegister, name)));
      ret := 0;
    }

    /** Tells user `i` about entry `k` of its list. */
    method SendEntry(i: nat, k: nat, connfd: int)
      requires db.Represents() && KnownFriends(db.model) && i < |db.model| && k < |db.model[i].friends|
      modifies this`outbox
      ensures db.Represents()
      ensures outbox == old(outbox) + [ToUser(db.model[i].name, connfd, Shown(db.model, db.model[i].friends[k]))]
    {
      db.NodeAt(i, k);
      var u := db.ulist[i];
      var f := u.flist[k];
      assert db.Shows(u, db.model[i]);
      if f.status == Friends {
        Send(ToUser(u.name, connfd, StatusMsg(f.friend.name, Friends, f.friend.active)));
      } else {
        Send(ToUser(u.name, connfd, StatusMsg(f.friend.name, f.status, false)));
      }
    }

    /** Tells user `i` about every entry of its list. */
    method SendListing(i: nat, connfd: int)
      requires db.Represents() && KnownFriends(db.model) && i < |db.model|
      modifies this`outbox
      ensures db.Represents()
      ensures outbox == old(outbox) + Listing(db.model, db.model[i].name, connfd, db.model[i].friends)
    {
      assert Listing(db.model, db.model[i].name, connfd, []) == [];
      ghost var m, fs, base := db.model, db.model[i].friends, outbox;
      assert |db.ulist[i].flist| == |fs| by { assert db.Shows(db.ulist[i], m[i]); }
      hide Database.Represents, Listing, Shown, KnownFriends;
      for k := 0 to |db.ulist[i].flist|
        invariant db.Represents()
        invariant outbox == base + Listing(m, m[i].name, connfd, fs[..k])
      {
        ListingNext(m, m[i].name, connfd, fs, k);
        ghost var told := Listing(m, m[i].name, connfd, fs[..k]);
        SendEntry(i, k, connfd);
        Assoc(base, told, [ToUser(m[i].name, connfd, Shown(m, fs[k]))], []);
      }
      assert fs[..|fs|] == fs;
    }

    /** Tells the friend behind entry `k` of user `i`, if active, that `i` came or went. */
    method SendNotice(i: nat, k: nat, active: bool)
      requires db.Represents() && KnownFriends(db.model) && i < |db.model| && k < |db.model[i].friends|
      modifies this`outbox
      ensures db.Represents()
      ensures outbox == old(outbox) + Notice(db.model, db.model[i].name, active, db.model[i].friends[k])
    {
      db.NodeAt(i, k);
      var u := db.ulist[i];
      var f := u.flist[k];
      assert db.Shows(u, db.model[i]);
      if f.friend.active && f.status == Friends {
        Send(ToUser(f.friend.name, f.friend.connfd, StatusMsg(u.name, Friends, active)));
      }
    }

    /** Tells the active friends of user `i` that it came or went. */
    method SendNotices(i: nat, active: bool)
      requires db.Represents() && KnownFriends(db.model) && i < |db.model|
      modifies this`outbox
      ensures db.Represents()
      ensures outbox == old(outbox) + Notices(db.model, db.model[i].name, active, db.model[i].friends)
    {
      assert Notices(db.model, db.model[i].name, active, []) == [];
      ghost var m, fs, base := db.model, db.model[i].friends, outbox;
      assert |db.ulist[i].flist| == |fs| by { assert db.Shows(db.ulist[i], m[i]); }
      hide Database.Represents, Notices, Notice, KnownFriends;
      for k := 0 to |db.ulist[i].flist|
        invariant db.Represents()
        invariant outbox == base + Notices(m, m[i].name, active, fs[..k])
      {
        NoticesNext(m, m[i].name, active, fs, k);
        ghost var told, next := Notices(m, m[i].name, active, fs[..k]), Notice(m, m[i].name, active, fs[k]);
        SendNotice(i, k, active);
        Assoc(base, told, next, []);
      }
      assert fs[..|fs|] == fs;
    }

    /** Acknowledges the login of user `i`, tells it about its friends and its friends about it. */
    method Welcome(i: nat, connfd: int)
      requires db.Represents() && KnownFriends(db.model) && i < |db.model|
      modifies this`outbox
      ensures db.Represents()
      ensures var m, a := db.model, db.model[i];
              outbox == old(outbox) + ([ToUser(a.name, connfd, Ack(OpLogin, a.name))]
                + Listing(m, a.name, connfd, a.friends) + Notices(m, a.name, true, a.friends))
    {
      ghost var base, a := outbox, db.model[i];
      assert db.Shows(db.ulist[i], db.model[i]);
      var ack := ToUser(db.ulist[i].name, connfd, Ack(OpLogin, db.ulist[i].name));
      Send(ack);
      SendListing(i, connfd);
      SendNotices(i, true);
      Assoc(base, [ack], Listing(db.model, a.name, connfd, a.friends), Notices(db.model, a.name, true, a.friends));
    }

    method StartSession(i: nat, connfd: int)
      requires db.Represents() && KnownFriends(db.model) && i < |db.model|
      modifies this`outbox, db`model, db.ulist[i]
      ensures db.Represents() && db.model == WithSession(old(db.model), i, true, connfd)
      ensures var m, a := db.model, old(db.model)[i];
              outbox == old(outbox) + ([ToUser(a.name, connfd, Ack(OpLogin, a.name))]
                + Listing(m, a.name, connfd, a.friends) + Notices(m, a.name, true, a.friends))
    {
      SessionKnows(db.model, i, true, connfd);
      db.SetSession(i, true, connfd);
      Welcome(i, connfd);
    }

    method Farewell(i: nat, connfd: int)
      requires db.Represents() && KnownFriends(db.model) && i < |db.model|
      modifies this`outbox
      ensures db.Represents()
      ensures var m, a := db.model, db.model[i];
              outbox == old(outbox) + ([ToConnection(connfd, Ack(OpLogout, ""))]
                + Notices(m, a.name, false, a.friends))
    {
      ghost var base := outbox;
      var ack := ToConnection(connfd, Ack(OpLogout, ""));
      Send(ack);
      SendNotices(i, false);
      Assoc(base, [ack], Notices(db.model, db.model[i].name, false, db.model[i].friends), []);
    }

    method EndSession(i: nat, connfd: int)
      requires db.Represents() && KnownFriends(db.model) && i < |db.model|
      modifies this`outbox, db`model, db.ulist[i]
      ensures db.Represents() && db.model == WithSession(old(db.model), i, false, -1)
      ensures var m, a := db.model, old(db.model)[i];
              outbox == old(outbox) + ([ToConnection(connfd, Ack(OpLogout, ""))]
                + Notices(m, a.name, false, a.friends))
    {
      SessionKnows(db.model, i, false, -1);
      db.SetSession(i, false, -1);
      Farewell(i, connfd);
    }

    method LoginUser(name: string, connfd: int) returns (ret: int)
      requires Valid() && connfd >= 0
      modifies this`outbox, db`model, db.ulist
      ensures Valid() && db.ulist == old(db.ulist)
      ensures Did(Step(old(db.model), Event(Login(name), connfd)), old(outbox), ret)
    {
      hide WellFormed, KnownFriends, Listing, Notices;
      WellFormedKnows(db.model);
      var i := db.UserNamed(name);
      assert i < |db.ulist| ==> db.Shows(db.ulist[i], db.model[i]);
      if i == |db.ulist| {
        ret := Refuse(connfd, UserDoesNotExist, "");
      } else if db.ulist[i].active && db.ulist[i].connfd == connfd {
        ret := Refuse(connfd, ClientBound, name);
      } else if db.ulist[i].active && db.ulist[i].connfd != connfd {
        ret := Refuse(connfd, UserAlreadyActive, name);
      } else {
        StartSession(i, connfd);
        ret := 0;
      }
      Kept(old(db.model), Event(Login(name), connfd), db.model);
    }

    method LogoutUser(connfd: int) returns (ret: int)
      requires Valid() && connfd >= 0
      modifies this`outbox, db`model, db.ulist
      ensures Valid() && db.ulist == old(db.ulist)
      ensures Did(Step(old(db.model), Event(Logout, connfd)), old(outbox), ret)
    {
      hide WellFormed, KnownFriends, Notices;
      WellFormedKnows(db.model);
      var i := db.UserOn(connfd);
      assert i < |db.ulist| ==> db.Shows(db.ulist[i], db.model[i]);
      if i == |db.ulist| || !db.ulist[i].active {
        ret := Refuse(connfd, ClientNotBound, "");
      } else {
        EndSession(i, connfd);
        ret := 0;
      }
      Kept(old(db.model), Event(Logout, connfd), db.model);
    }

    method FriendListOf(connfd: int) returns (ret: int)
      requires Valid() && connfd >= 0
      modifies this`outbox
      ensures Valid()
      ensures Did(Step(db.model, Event(FriendList, connfd)), old(outbox), ret)
    {
      hide WellFormed, KnownFriends, Listing;
      var i := db.UserOn(connfd);
      if i == |db.ulist| {
        ret := Refuse(connfd, ClientNotBound, "");
        return;
      }
      WellFormedKnows(db.model);
      SendListing(i, connfd);
      ret := 0;
    }

    /** Forwards a text from user `i` to user `j` if they are friends, `j` is active and the text is
        allowed. */
    method Forward(i: nat, j: nat, text: string, connfd: int) returns (ret: int)
      requires db.Represents() && KnownFriends(db.model) && i < |db.model| && j < |db.model|
      modifies this`outbox
      ensures db.Represents()
      ensures Did(ImBetween(db.model, i, j, text, connfd), old(outbox), ret)
    {
      hide KnownFriends;
      var sender, recipient := db.ulist[i], db.ulist[j];
      assert db.Shows(sender, db.model[i]) && db.Shows(recipient, db.model[j]);
      var k := db.FriendNamed(i, recipient.name);
      if k == |sender.flist| || sender.flist[k].status != Friends {
        ret := Refuse(connfd, NotFriend, recipient.name);
      } else if !recipient.active {
        ret := Refuse(connfd, UserNotActive, recipient.name);
      } else if !ValidIm(text) {
        ret := Refuse(connfd, BadCommand, "");
      } else {
        Send(ToUser(recipient.name, recipient.connfd, ImMsg(sender.name, text)));
        Send(ToConnection(connfd, Ack(OpIm, recipient.name)));
        ret := 0;
      }
    }

    method ImUser(name: string, text: string, connfd: int) returns (ret: int)
      requires Valid() && connfd >= 0
      modifies this`outbox
      ensures Valid()
      ensures Did(Step(db.model, Event(InstantMessage(name, text), connfd)), old(outbox), ret)
    {
      hide ImBetween, WellFormed, KnownFriends;
      WellFormedKnows(db.model);
      var i := db.UserOn(connfd);
      var j := db.UserNamed(name);
      if i == |db.ulist| {
        ret := Refuse(connfd, ClientNotBound, "");
      } else if j == |db.ulist| {
        ret := Refuse(connfd, UserDoesNotExist, "");
      } else {
        ret := Forward(i, j, text, connfd);
      }
    }

    /** Tells the requester over its connection and the other user if it is active. */
    method TellBoth(i: nat, j: nat, connfd: int, mine: Msg, theirs: Msg)
      requires db.Represents() && i < |db.model| && j < |db.model|
      modifies this`outbox
      ensures db.Represents()
      ensures outbox == old(outbox) + ([ToUser(db.model[i].name, connfd, mine)] + Tell(db.model[j], theirs))
    {
      var requester, requested := db.ulist[i], db.ulist[j];
      assert db.Shows(requester, db.model[i]) && db.Shows(requested, db.model[j]);
      Send(ToUser(requester.name, connfd, mine));
      if requested.active {
        Send(ToUser(requested.name, requested.connfd, theirs));
      }
    }

    /** Accepts: the requester's half of the edge is looked up without a check, which the symmetry of
        the graph makes safe. */
    method AcceptFrom(i: nat, j: nat, k: nat, connfd: int)
      requires db.Represents() && KnownFriends(db.model) && i < |db.model| && j < |db.model| && i != j
      requires k == Find(db.model[j].friends, db.model[i].name) < |db.model[j].friends|
      requires Mutual(db.model, i, j)
      modifies this`outbox, db`model, db.nodes
      ensures db.Represents()
      ensures var m, me, name := old(db.model), old(db.model)[i].name, old(db.model)[j].name;
              && db.model == WithFriends(WithFriends(m, j, SetStatus(m[j].friends, me, Friends)),
                                         i, SetStatus(m[i].friends, name, Friends))
              && outbox == old(outbox) + ([ToUser(me, connfd, StatusMsg(name, Friends, m[j].active))]
                                          + Tell(m[j], StatusMsg(me, Friends, m[i].active)))
    {
      hide KnownFriends;
      var requester, requested := db.ulist[i], db.ulist[j];
      assert db.Shows(requester, db.model[i]) && db.Shows(requested, db.model[j]);
      var rk := db.FriendNamed(i, requested.name);
      db.SetBoth(i, j, rk, k);
      TellBoth(i, j, connfd, StatusMsg(requested.name, Friends, requested.active),
               StatusMsg(requester.name, Friends, requester.active));
    }

    /** Asks: both users get an entry at the end of their list. */
    method AskFrom(i: nat, j: nat, connfd: int)
      requires db.Represents() && i < |db.model| && j < |db.model| && i != j
      requires Find(db.model[j].friends, db.model[i].name) == |db.model[j].friends|
      modifies this`outbox, db`model, db`nodes, db.ulist
      ensures db.Represents() && db.ulist == old(db.ulist) && fresh(db.nodes - old(db.nodes))
      ensures Did(RequestBetween(old(db.model), i, j, connfd), old(outbox), 0)
    {
      var me, name := db.ulist[i].name, db.ulist[j].name;
      assert db.Shows(db.ulist[i], db.model[i]) && db.Shows(db.ulist[j], db.model[j]);
      db.LinkBoth(i, j);
      TellBoth(i, j, connfd, StatusMsg(name, Requested, false), StatusMsg(me, ToAnswer, false));
    }

    method PartFrom(i: nat, j: nat, k: nat, connfd: int)
      requires db.Represents() && KnownFriends(db.model) && i < |db.model| && j < |db.model| && i != j
      requires k == Find(db.model[j].friends, db.model[i].name) < |db.model[j].friends|
      requires Mutual(db.model, i, j)
      modifies this`outbox, db`model, db.ulist
      ensures db.Represents()
      ensures var m, me, name := old(db.model), old(db.model)[i].name, old(db.model)[j].name;
              && db.model == WithFriends(WithFriends(m, j, Drop(m[j].friends, me)), i, Drop(m[i].friends, name))
              && outbox == old(outbox) + ([ToUser(me, connfd, StatusMsg(name, NotFriends, false))]
                                          + Tell(m[j], StatusMsg(me, NotFriends, false)))
    {
      hide KnownFriends;
      var me, name := db.ulist[i].name, db.ulist[j].name;
      assert db.Shows(db.ulist[i], db.model[i]) && db.Shows(db.ulist[j], db.model[j]);
      var rk := db.FriendNamed(i, name);
      db.UnlinkBoth(i, j, rk, k);
      TellBoth(i, j, connfd, StatusMsg(name, NotFriends, false), StatusMsg(me, NotFriends, false));
    }

    /** A request to a user who already has an entry for the requester. */
    method AnswerFrom(i: nat, j: nat, k: nat, connfd: int)
      requires db.Represents() && KnownFriends(db.model)
      requires i < |db.model| && j < |db.model| && i != j && Mutual(db.model, i, j)
      requires k == Find(db.model[j].friends, db.model[i].name) < |db.model[j].friends|
      modifies this`outbox, db`model, db.nodes
      ensures db.Represents() && db.ulist == old(db.ulist) && db.nodes == old(db.nodes)
      ensures Did(RequestBetween(old(db.model), i, j, connfd), old(outbox), 0)
    {
      var name := db.ulist[j].name;
      assert db.Shows(db.ulist[j], db.model[j]);
      var status := db.ulist[j].flist[k].status;
      assert status == StatusFor(db.model[j].friends, db.model[i].name);
      if status == ToAnswer {
        Send(ToConnection(connfd, Error(RequestedAlready, name)));
      } else if status == Requested {
        AcceptFrom(i, j, k, connfd);
      } else {
        Send(ToConnection(connfd, Error(FriendAlready, name)));
      }
    }

    method RemoveFrom(i: nat, j: nat, connfd: int) returns (ret: int)
      requires db.Represents() && KnownFriends(db.model)
      requires i < |db.model| && j < |db.model| && i != j && Mutual(db.model, i, j)
      modifies this`outbox, db`model, db.ulist
      ensures db.Represents() && db.ulist == old(db.ulist)
      ensures Did(RemoveBetween(old(db.model), i, j, connfd), old(outbox), ret)
    {
      hide KnownFriends, Mutual;
      var name := db.ulist[j].name;
      assert db.Shows(db.ulist[i], db.model[i]) && db.Shows(db.ulist[j], db.model[j]);
      var k := db.FriendNamed(j, db.ulist[i].name);
      if k == |db.ulist[j].flist| {
        ret := Refuse(connfd, NotFriend, name);
      } else {
        PartFrom(i, j, k, connfd);
        ret := 0;
      }
    }

    /** A request between two users. */
    method RequestFrom(i: nat, j: nat, connfd: int)
      requires db.Represents() && KnownFriends(db.model)
      requires i < |db.model| && j < |db.model| && i != j && Mutual(db.model, i, j)
      modifies this`outbox, db`model, db`nodes, db.ulist, db.nodes
      ensures db.Represents() && db.ulist == old(db.ulist) && fresh(db.nodes - old(db.nodes))
      ensures Did(RequestBetween(old(db.model), i, j, connfd), old(outbox), 0)
    {
      hide RequestBetween, KnownFriends, Mutual;
      assert db.Shows(db.ulist[i], db.model[i]) && db.Shows(db.ulist[j], db.model[j]);
      var k := db.FriendNamed(j, db.ulist[i].name);
      if k == |db.ulist[j].flist| { AskFrom(i, j, connfd); } else { AnswerFrom(i, j, k, connfd); }
    }

    method RequestTo(name: string, connfd: int) returns (ret: int)
      requires db.Represents() && KnownFriends(db.model) && AllMutual(db.model)
      modifies this`outbox, db`model, db`nodes, db.ulist, db.nodes
      ensures db.Represents() && db.ulist == old(db.ulist) && fresh(db.nodes - old(db.nodes))
      ensures Did(RequestStep(old(db.model), name, connfd), old(outbox), ret)
    {
      hide RequestBetween, KnownFriends, Mutual;
      var i := db.UserOn(connfd);
      var j := db.UserNamed(name);
      assert i < |db.ulist| ==> db.ulist[i].name == db.model[i].name by {
        assert i < |db.ulist| ==> db.Shows(db.ulist[i], db.model[i]);
      }
      assert |db.ulist| == |db.model|;
      hide Database.Represents;
      if i == |db.ulist| {
        ret := Refuse(connfd, ClientNotBound, "");
      } else if db.ulist[i].name == name {
        ret := Refuse(connfd, BadCommand, "");
      } else if j == |db.ulist| {
        ret := Refuse(connfd, UserDoesNotExist, "");
      } else {
        RequestFrom(i, j, connfd);
        ret := 0;
      }
    }

    method RequestFriend(name: string, connfd: int) returns (ret: int)
      requires Valid() && connfd >= 0
      modifies this`outbox, db`model, db`nodes, db.ulist, db.nodes
      ensures Valid() && db.ulist == old(db.ulist) && fresh(db.nodes - old(db.nodes))
      ensures Did(Step(old(db.model), Event(FriendRequest(name), connfd)), old(outbox), ret)
    {
      hide WellFormed, RequestStep, KnownFriends, AllMutual;
      Prepare(db.model);
      ret := RequestTo(name, connfd);
      Kept(old(db.model), Event(FriendRequest(name), connfd), db.model);
    }

    method RemoveTo(name: string, connfd: int) returns (ret: int)
      requires db.Represents() && KnownFriends(db.model) && AllMutual(db.model)
      modifies this`outbox, db`model, db.ulist
      ensures db.Represents() && db.ulist == old(db.ulist)
      ensures Did(RemoveStep(old(db.model), name, connfd), old(outbox), ret)
    {
      hide RemoveBetween, KnownFriends, Mutual;
      var i := db.UserOn(connfd);
      var j := db.UserNamed(name);
      assert i < |db.ulist| ==> db.ulist[i].name == db.model[i].name by {
        assert i < |db.ulist| ==> db.Shows(db.ulist[i], db.model[i]);
      }
      assert |db.ulist| == |db.model|;
      hide Database.Represents;
      if i == |db.ulist| {
        ret := Refuse(connfd, ClientNotBound, "");
      } else if db.ulist[i].name == name {
        ret := Refuse(connfd, BadCommand, "");
      } else if j == |db.ulist| {
        ret := Refuse(connfd, UserDoesNotExist, "");
      } else {
        ret := RemoveFrom(i, j, connfd);
      }
    }

    method RemoveFriend(name: string, connfd: int) returns (ret: int)
      requires Valid() && connfd >= 0
      modifies this`outbox, db`model, db.ulist
      ensures Valid() && db.ulist == old(db.ulist)
      ensures Did(Step(old(db.model), Event(FriendRemove(name), connfd)), old(outbox), ret)
    {
      hide WellFormed, RemoveStep, KnownFriends, AllMutual;
      Prepare(db.model);
      ret := RemoveTo(name, connfd);
      Kept(old(db.model), Event(FriendRemove(name), connfd), db.model);
    }

    /** One request, dispatched on its operation. */
    method Handle(ev: Event) returns (ret: int)
      requires Valid() && ev.fd >= 0
      modifies this`outbox, db`model, db`ulist, db`nodes, db.ulist, db.nodes
      ensures Valid() && fresh(db.nodes - old(db.nodes))
      ensures forall i :: 0 <= i < |db.ulist| ==> db.ulist[i] in old(db.ulist) || fresh(db.ulist[i])
      ensures Did(Step(old(db.model), ev), old(outbox), ret)
    {
      hide Step;
      match ev.op
      case Register(n) => ret := RegisterUser(n, ev.fd);
      case Login(n) => ret := LoginUser(n, ev.fd);
      case Logout => ret := LogoutUser(ev.fd);
      case FriendRequest(n) => ret := RequestFriend(n, ev.fd);
      case FriendRemove(n) => ret := RemoveFriend(n, ev.fd);
      case FriendList => ret := FriendListOf(ev.fd);
      case InstantMessage(n, t) => ret := ImUser(n, t, ev.fd);
    }

    /** One more request of a run. */
    method ServeNext(ev: Event, ghost m0: Accounts, ghost done: seq<Event>)
      requires Valid() && ev.fd >= 0 && RunFrom(m0, done) == Run(db.model, outbox)
      modifies this`outbox, db`model, db`ulist, db`nodes, db.ulist, db.nodes
      ensures Valid() && fresh(db.nodes - old(db.nodes))
      ensures forall i :: 0 <= i < |db.ulist| ==> db.ulist[i] in old(db.ulist) || fresh(db.ulist[i])
      ensures RunFrom(m0, done + [ev]) == Run(db.model, outbox)
    {
      RunNext(m0, done, ev);
      var ret := Handle(ev);
    }

    /** Any sequence of requests, each handled as one step. */
    method Serve(evs: seq<Event>)
      requires Valid() && outbox == [] && RealConnections(evs)
      modifies this`outbox, db`model, db`ulist, db`nodes, db.ulist, db.nodes
      ensures Valid()
      ensures RunFrom(old(db.model), evs) == Run(db.model, outbox)
    {
      assert RunFrom(db.model, []) == Run(db.model, []);
      hide Valid, RunFrom;
      ghost var m0 := db.model;
      ghost var us, ns := db.ulist, db.nodes;
      PrefixEnds(evs);
      for k := 0 to |evs|
        invariant Valid() && fresh(db.nodes - ns)
        invariant forall i :: 0 <= i < |db.ulist| ==> db.ulist[i] in us || fresh(db.ulist[i])
        invariant RunFrom(m0, evs[..k]) == Run(db.model, outbox)
      {
        PrefixNext(evs, k);
        ServeNext(evs[k], m0, evs[..k]);
      }
    }
  }
}
