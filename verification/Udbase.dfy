/** The user database in memory: user nodes and friend nodes that point back to users. */
module Udbase {
  import opened ImAccounts
  import opened DbText
  import opened Options

  class Friend {
    const friend: User?
    var status: Status
    ghost const owner: User

    constructor (friend: User?, status: Status, ghost owner: User)
      ensures this.friend == friend && this.status == status && this.owner == owner
    {
      this.friend := friend;
      this.status := status;
      this.owner := owner;
    }
  }

  class User {
    const name: string
    var active: bool
    var connfd: int
    var flist: seq<Friend>

    /** A new user is inactive, unconnected and friendless. */
    constructor (name: string)
      ensures this.name == name && !active && connfd == -1 && flist == []
    {
      this.name := name;
      active := false;
      connfd := -1;
      flist := [];
    }
  }

  class Database {
    var ulist: seq<User>
    var unum: nat
    ghost var model: Accounts
    /** At least the friend nodes in the lists. */
    ghost var nodes: set<Friend>

    /** The user a name stands for, as the linear search finds it. */
    ghost function Resolve(name: string): User?
      reads this
    {
      var k := ByName(model, name);
      if k < |model| && k < |ulist| then ulist[k] else null
    }

    /** A user node shows an account; its friend nodes belong to it alone and point to the users their
        entries name. */
    ghost predicate Shows(u: User, a: Account)
      reads this, u, nodes
    {
      && u.name == a.name && u.active == a.active && u.connfd == a.connfd && |u.flist| == |a.friends|
      && (forall k :: 0 <= k < |u.flist| ==>
            && u.flist[k] in nodes
            && u.flist[k].owner == u
            && u.flist[k].status == a.friends[k].status
            && u.flist[k].friend == Resolve(a.friends[k].who))
      && forall k, l :: 0 <= k < l < |u.flist| ==> u.flist[k] != u.flist[l]
    }

    ghost predicate Represents()
      reads this, ulist, nodes
    {
      && |model| == |ulist|
      && (forall i, j :: 0 <= i < j < |ulist| ==> ulist[i] != ulist[j])
      && forall i :: 0 <= i < |ulist| ==> Shows(ulist[i], model[i])
    }

    constructor ()
      ensures Represents() && model == [] && unum == 0
    {
      ulist := [];
      unum := 0;
      model := [];
      nodes := {};
    }

    lemma SameLength()
      requires Represents()
      ensures |ulist| == |model|
    {
    }

    // ----- searches

    method UserNamed(name: string) returns (k: nat)
      requires Represents()
      ensures k == ByName(model, name)
    {
      k := 0;
      while k < |ulist| && ulist[k].name != name
        invariant k <= |ulist|
        invariant forall i :: 0 <= i < k ==> model[i].name != name
      {
        assert Shows(ulist[k], model[k]);
        k := k + 1;
      }
      assert k < |ulist| ==> Shows(ulist[k], model[k]);
      ByNameIs(model, name, k);
    }

    method UserOn(connfd: int) returns (k: nat)
      requires Represents()
      ensures k == ByFd(model, connfd)
    {
      k := 0;
      while k < |ulist| && ulist[k].connfd != connfd
        invariant k <= |ulist|
        invariant forall i :: 0 <= i < k ==> model[i].connfd != connfd
      {
        assert Shows(ulist[k], model[k]);
        k := k + 1;
      }
      assert k < |ulist| ==> Shows(ulist[k], model[k]);
      ByFdIs(model, connfd, k);
    }

    lemma NodeAt(i: nat, k: nat)
      requires Represents() && KnownFriends(model) && i < |model| && k < |model[i].friends|
      ensures k < |ulist[i].flist| && ulist[i].flist[k].owner == ulist[i]
      ensures var f, e := ulist[i].flist[k], model[i].friends[k];
              var j := ByName(model, e.who);
              && f.status == e.status && f.friend == ulist[j] && f.friend.name == e.who
              && f.friend.active == ActiveNamed(model, e.who) && f.friend.connfd == FdOf(model, e.who)
    {
      assert Shows(ulist[i], model[i]);
      var j := ByName(model, model[i].friends[k].who);
      assert Shows(ulist[j], model[j]);
    }

    method FriendNamed(i: nat, name: string) returns (k: nat)
      requires Represents() && KnownFriends(model) && i < |model|
      ensures k == Find(model[i].friends, name)
    {
      var flist := ulist[i].flist;
      ghost var fs := model[i].friends;
      assert Shows(ulist[i], model[i]);
      k := 0;
      if k < |flist| { NodeAt(i, k); }
      while k < |flist| && flist[k].friend.name != name
        invariant k <= |flist|
        invariant k < |flist| ==> flist[k].friend != null && flist[k].friend.name == fs[k].who
        invariant forall j :: 0 <= j < k ==> fs[j].who != name
      {
        k := k + 1;
        if k < |flist| { NodeAt(i, k); }
      }
      FindIs(fs, name, k);
    }

    // ----- node creation

    /** A friend node pointing to the first user with the name, or to nobody. */
    method FriendInit(name: string, status: Status, ghost owner: User) returns (f: Friend)
      requires |model| == |ulist| && forall i :: 0 <= i < |ulist| ==> ulist[i].name == model[i].name
      ensures fresh(f) && f.friend == Resolve(name) && f.status == status && f.owner == owner
    {
      var k := 0;
      var friend: User? := null;
      while k < |ulist|
        invariant k <= |ulist| && friend == null
        invariant forall i :: 0 <= i < k ==> model[i].name != name
      {
        if ulist[k].name == name {
          friend := ulist[k];
          break;
        }
        k := k + 1;
      }
      ByNameIs(model, name, k);
      f := new Friend(friend, status, owner);
    }

    // ----- updates: each changes one place of the lists and the same place of the model

    method AddUser(name: string)
      requires Represents() && KnownFriends(model)
      modifies this`ulist, this`model
      ensures Represents() && model == old(model) + [Fresh(name)]
      ensures exists u :: fresh(u) && ulist == old(ulist) + [u]
    {
      ghost var before := model;
      var u := new User(name);
      ulist := ulist + [u];
      model := model + [Fresh(name)];
      forall who | ByName(before, who) < |before| ensures Resolve(who) == old(Resolve(who)) {
        AddKeepsName(before, name, who);
      }
      forall i | 0 <= i < |before| ensures Shows(ulist[i], model[i]) {
        hide Resolve;
        assert old(Shows(ulist[i], model[i]));
      }
    }

    method SetSession(i: nat, active: bool, connfd: int)
      requires Represents() && i < |model|
      modifies this`model, ulist[i]
      ensures Represents() && model == WithSession(old(model), i, active, connfd)
      ensures ulist[i].flist == old(ulist[i].flist)
    {
      ghost var before := model;
      var u := ulist[i];
      assert Shows(u, model[i]);
      u.active := active;
      u.connfd := connfd;
      model := WithSession(model, i, active, connfd);
      forall n ensures Resolve(n) == old(Resolve(n)) { NamesKept(before, model, n); }
      assert |model| == |before| && forall j :: 0 <= j < |before| && j != i ==> model[j] == before[j];
      hide Resolve;
      assert Shows(u, model[i]);
      forall j | 0 <= j < |ulist| && j != i ensures Shows(ulist[j], model[j]) {
        assert old(Shows(ulist[j], model[j]));
      }
    }

    method SetStatusAt(i: nat, k: nat, status: Status)
      requires Represents() && i < |model| && k < |model[i].friends|
      requires k < |ulist[i].flist|
      modifies this`model, ulist[i].flist[k]
      ensures Represents()
      ensures var fs := old(model)[i].friends;
              model == WithFriends(old(model), i, fs[k := fs[k].(status := status)])
    {
      ghost var before := model;
      assert Shows(ulist[i], model[i]);
      ulist[i].flist[k].status := status;
      model := WithFriends(model, i, model[i].friends[k := model[i].friends[k].(status := status)]);
      forall n ensures Resolve(n) == old(Resolve(n)) { NamesKept(before, model, n); }
      assert |model| == |before| && forall j :: 0 <= j < |before| && j != i ==> model[j] == before[j];
      hide Resolve;
      assert Shows(ulist[i], model[i]);
      forall j | 0 <= j < |ulist| && j != i ensures Shows(ulist[j], model[j]) {
        assert old(Shows(ulist[j], model[j]));
      }
    }

    /** Links a new node after the last one. */
    method Append(i: nat, f: Friend, ghost who: string)
      requires Represents() && i < |model|
      requires f.owner == ulist[i] && f.friend == Resolve(who) && f !in ulist[i].flist
      modifies this`model, this`nodes, (ulist[i] as User)`flist
      ensures Represents() && nodes == old(nodes) + {f}
      ensures model == WithFriends(old(model), i, old(model)[i].friends + [Entry(who, f.status)])
    {
      ghost var before := model;
      assert Shows(ulist[i], model[i]);
      ulist[i].flist := ulist[i].flist + [f];
      nodes := nodes + {f};
      model := WithFriends(model, i, model[i].friends + [Entry(who, f.status)]);
      forall n ensures Resolve(n) == old(Resolve(n)) { NamesKept(before, model, n); }
      assert |model| == |before| && forall j :: 0 <= j < |before| && j != i ==> model[j] == before[j];
      hide Resolve;
      assert Shows(ulist[i], model[i]);
      forall j | 0 <= j < |ulist| && j != i ensures Shows(ulist[j], model[j]) {
        assert old(Shows(ulist[j], model[j]));
      }
    }

    lemma RemovedDistinct<T>(s: seq<T>, k: nat)
      requires k < |s| && forall a, b :: 0 <= a < b < |s| ==> s[a] != s[b]
      ensures var r := s[..k] + s[k + 1..]; forall a, b :: 0 <= a < b < |r| ==> r[a] != r[b]
    {
      forall l | 0 <= l < |s| - 1
        ensures (s[..k] + s[k + 1..])[l] == if l < k then s[l] else s[l + 1]
      {
        DropAt(s, k, l);
      }
    }

    /** A list with node `k` taken out shows entries with entry `k` taken out. */
    lemma RemovedShows(u: User, a: Account, us: seq<Friend>, fs: seq<Entry>, k: nat)
      requires u.name == a.name && u.active == a.active && u.connfd == a.connfd
      requires k < |us| == |fs| && u.flist == us[..k] + us[k + 1..] && a.friends == fs[..k] + fs[k + 1..]
      requires forall l :: 0 <= l < |us| ==>
                 && us[l] in nodes && us[l].owner == u
                 && us[l].status == fs[l].status && us[l].friend == Resolve(fs[l].who)
      requires forall l, m :: 0 <= l < m < |us| ==> us[l] != us[m]
      ensures Shows(u, a)
    {
      hide Resolve;
      RemovedDistinct(us, k);
      forall l | 0 <= l < |us| - 1
        ensures u.flist[l] == (if l < k then us[l] else us[l + 1])
        ensures a.friends[l] == if l < k then fs[l] else fs[l + 1]
      {
        DropAt(us, k, l);
        DropAt(fs, k, l);
      }
    }

    /** Unlinks node `k`. */
    method Unlink(i: nat, k: nat)
      requires Represents() && i < |model| && k < |model[i].friends|
      modifies this`model, (ulist[i] as User)`flist
      ensures Represents()
      ensures model == WithFriends(old(model), i, old(model)[i].friends[..k] + old(model)[i].friends[k + 1..])
    {
      ghost var before := model;
      var u := ulist[i];
      ghost var us, fs := u.flist, before[i].friends;
      assert Shows(u, before[i]);
      u.flist := u.flist[..k] + u.flist[k + 1..];
      model := WithFriends(model, i, fs[..k] + fs[k + 1..]);
      forall n ensures Resolve(n) == old(Resolve(n)) { NamesKept(before, model, n); }
      assert |model| == |before| && forall j :: 0 <= j < |before| && j != i ==> model[j] == before[j];
      hide Resolve;
      RemovedShows(u, model[i], us, fs, k);
      forall j | 0 <= j < |ulist| && j != i ensures Shows(ulist[j], model[j]) {
        assert old(Shows(ulist[j], model[j]));
      }
    }

    // ----- both halves of an edge

    /** Both entries become friends. */
    method SetBoth(i: nat, j: nat, ki: nat, kj: nat)
      requires Represents() && i < |model| && j < |model| && i != j
      requires ki == Find(model[i].friends, model[j].name) < |model[i].friends|
      requires kj == Find(model[j].friends, model[i].name) < |model[j].friends|
      modifies this`model, nodes
      ensures Represents()
      ensures var m := old(model);
              model == WithFriends(WithFriends(m, j, SetStatus(m[j].friends, m[i].name, Friends)),
                                   i, SetStatus(m[i].friends, m[j].name, Friends))
    {
      assert Shows(ulist[j], model[j]) && Shows(ulist[i], model[i]);
      SetStatusAt(j, kj, Friends);
      assert Shows(ulist[i], model[i]);
      SetStatusAt(i, ki, Friends);
    }

    /** Creates a node for the named user and links it at the end of the list of user `i`. */
    method LinkOne(i: nat, who: string, status: Status)
      requires Represents() && i < |model|
      modifies this`model, this`nodes, (ulist[i] as User)`flist
      ensures Represents() && fresh(nodes - old(nodes))
      ensures model == WithFriends(old(model), i, old(model)[i].friends + [Entry(who, status)])
    {
      assert forall j :: 0 <= j < |ulist| ==> Shows(ulist[j], model[j]);
      var f := FriendInit(who, status, ulist[i]);
      Append(i, f, who);
    }

    /** A new edge: one entry to answer, one requested, each at the end of its list. */
    method LinkBoth(i: nat, j: nat)
      requires Represents() && i < |model| && j < |model| && i != j
      modifies this`model, this`nodes, (ulist[i] as User)`flist, (ulist[j] as User)`flist
      ensures Represents() && fresh(nodes - old(nodes))
      ensures var m := old(model);
              model == WithFriends(WithFriends(m, j, m[j].friends + [Entry(m[i].name, ToAnswer)]),
                                   i, m[i].friends + [Entry(m[j].name, Requested)])
    {
      assert Shows(ulist[j], model[j]) && Shows(ulist[i], model[i]);
      LinkOne(j, ulist[i].name, ToAnswer);
      LinkOne(i, ulist[j].name, Requested);
    }

    method UnlinkBoth(i: nat, j: nat, ki: nat, kj: nat)
      requires Represents() && i < |model| && j < |model| && i != j
      requires ki == Find(model[i].friends, model[j].name) < |model[i].friends|
      requires kj == Find(model[j].friends, model[i].name) < |model[j].friends|
      modifies this`model, (ulist[i] as User)`flist, (ulist[j] as User)`flist
      ensures Represents()
      ensures var m := old(model);
              model == WithFriends(WithFriends(m, j, Drop(m[j].friends, m[i].name)),
                                   i, Drop(m[i].friends, m[j].name))
    {
      ghost var m := model;
      hide Represents;
      Unlink(j, kj);
      assert model == WithFriends(m, j, Drop(m[j].friends, m[i].name));
      assert model[i] == m[i];
      Unlink(i, ki);
    }

    // ----- the file

    /** Writes the entries of user `i`. */
    method WriteEntries(i: nat) returns (out: string)
      requires Represents() && KnownFriends(model) && i < |model|
      ensures out == RenderEntries(model[i].friends)
    {
      ghost var fs := model[i].friends;
      assert Shows(ulist[i], model[i]);
      out := "";
      for k := 0 to |ulist[i].flist|
        invariant out + RenderEntries(fs[k..]) == RenderEntries(fs)
      {
        NodeAt(i, k);
        var f := ulist[i].flist[k];
        var line := "- " + f.friend.name;
        if f.status == Requested {
          line := line + " requested";
        } else if f.status == ToAnswer {
          line := line + " toanswer";
        }
        assert line == EntryLine(fs[k]);
        RenderEntriesNext(fs[k..], out);
        assert fs[k..][1..] == fs[k + 1..];
        out := out + (line + "\n");
      }
    }

    /** Writes the stored user count and then every user of the list. */
    method Write() returns (text: string)
      requires Represents() && KnownFriends(model)
      ensures text == Render(unum, model)
    {
      text := Decimal(unum) + " users:\n";
      assert model[0..] == model;
      for i := 0 to |ulist|
        invariant text + RenderUsers(model[i..]) == Render(unum, model)
      {
        assert Shows(ulist[i], model[i]);
        var entries := WriteEntries(i);
        RenderUsersNext(model[i..], text);
        assert model[i..][1..] == model[i + 1..];
        text := text + (ulist[i].name + "\n" + entries + ".\n");
      }
      assert RenderUsers(model[|ulist|..]) == "";
    }

    /** Reads lines up to and including the next ".". */
    method SkipLines(s0: string) returns (r: Option<string>)
      ensures r == SkipEntries(s0)
    {
      var s := s0;
      while true
        invariant SkipEntries(s) == SkipEntries(s0)
        decreases |s|
      {
        var line := GetLine(s, 1);
        if line.None? { return None; }
        if line.value.0 == "." { return Some(line.value.1); }
        s := line.value.1;
      }
    }

    /** First pass: a user node for each name, the friend lines skipped. */
    method ReadUsers(body: string, nuser: nat) returns (ok: bool)
      requires Represents() && model == []
      modifies this`ulist, this`model
      ensures Represents() && forall j :: 0 <= j < |ulist| ==> fresh(ulist[j])
      ensures ok <==> ReadNames(body, nuser).Some?
      ensures ok ==> Friendless(model) && UserNames(model) == ReadNames(body, nuser).value
    {
      hide Represents, ReadNames, MoreNames;
      SameLength();
      assert UserNames(model) == [];
      var s := body;
      ok := true;
      ghost var whole := ReadNames(body, nuser);
      MoreNamesStart(body, nuser);
      for ui := 0 to nuser
        invariant Represents() && Friendless(model)
        invariant forall j :: 0 <= j < |ulist| ==> fresh(ulist[j])
        invariant MoreNames(whole, UserNames(model), s, nuser - ui)
      {
        ok, s := NextName(s, whole, nuser - ui);
        if !ok { return; }
      }
      MoreNamesEnd(whole, UserNames(model), s);
    }

    /** One user of the first pass: takes the name and skips the friend lines. */
    method NextName(s: string, ghost whole: Option<seq<string>>, ghost n: nat) returns (ok: bool, rest: string)
      requires Represents() && Friendless(model) && n > 0
      requires MoreNames(whole, UserNames(model), s, n)
      modifies this`ulist, this`model
      ensures Represents() && Friendless(model)
      ensures ulist == old(ulist) || exists u :: fresh(u) && ulist == old(ulist) + [u]
      ensures !ok ==> whole.None?
      ensures ok ==> MoreNames(whole, UserNames(model), rest, n - 1)
    {
      ok, rest := false, "";
      MoreNamesNext(whole, UserNames(model), s, n);
      var line := GetLine(s, 1);
      if line.None? { return; }
      var skipped := SkipLines(line.value.1);
      if skipped.None? { return; }
      AddFriendless(line.value.0);
      ok, rest := true, skipped.value;
    }

    method AddFriendless(name: string)
      requires Represents() && Friendless(model)
      modifies this`ulist, this`model
      ensures Represents() && Friendless(model) && UserNames(model) == UserNames(old(model)) + [name]
      ensures exists u :: fresh(u) && ulist == old(ulist) + [u]
    {
      FriendlessAppend(model, name);
      AddUser(name);
    }

    /** Second pass, one user: a node for each friend line, linked in order.  The name buffer keeps the
        last name read; its overrun, or its use before any name was read, ends the run. */
    method ReadFriends(i: nat, s0: string) returns (r: ReadStatus, rest: string)
      requires Represents() && i < |model| && model[i].friends == []
      modifies this`model, this`nodes, ulist[i]
      ensures Represents() && fresh(nodes - old(nodes))
      ensures var e := ReadEntries(s0, None);
              match r
              case Bad => e.BadEntries?
              case Undef => e.UndefinedEntries?
              case Ok => e.Entries? && rest == e.rest && model == WithFriends(old(model), i, e.fs)
    {
      hide Represents, WithFriends;
      SameLength();
      FriendsAgain(model, i, [], []);
      var s, fname := s0, None;
      rest := "";
      ghost var m, fs: seq<Entry> := model, [];
      ghost var whole := ReadEntries(s0, None);
      while true
        invariant Represents() && fresh(nodes - old(nodes))
        invariant i < |m| && model == WithFriends(m, i, fs)
        invariant Continues(whole, fs, ReadEntries(s, fname))
        decreases |s|
      {
        var line := GetLine(s, 1);
        if line.None? { r := Bad; return; }
        var (text, s') := line.value;
        if text == "." {
          r, rest := Ok, s';
          assert fs + [] == fs;
          return;
        }
        var buffer, status := ScanLine(text, fname);
        ContinuesNext(whole, fs, s, fname);
        if buffer.None? { r := Undef; return; }
        fname := buffer;
        FriendsAgain(m, i, fs, fs + [Entry(fname.value, status)]);
        LinkOne(i, fname.value, status);
        fs := fs + [Entry(fname.value, status)];
        s := s';
      }
    }

    /** One user of the second pass: skips the name line and reads the user's entries. */
    method NextFriends(s: string, ghost m: Accounts, ghost ls: seq<seq<Entry>>, ghost whole: ListsResult, ui: nat)
      returns (r: ReadStatus, rest: string, ghost fs: seq<Entry>)
      requires Represents() && |ls| == ui < |m| && model == Filled(m, ls) && m[ui].friends == []
      requires MoreLists(whole, ls, s, |m| - ui)
      modifies this`model, this`nodes, ulist[ui]
      ensures Represents() && fresh(nodes - old(nodes))
      ensures r == Bad ==> whole.BadLists?
      ensures r == Undef ==> whole.UndefinedLists?
      ensures r == Ok ==> model == Filled(m, ls + [fs]) && MoreLists(whole, ls + [fs], rest, |m| - ui - 1)
    {
      hide Represents, Filled, MoreLists, ReadLists, ReadEntries;
      FilledAt(m, ls, ui);
      rest, fs := "", [];
      MoreListsNext(whole, ls, s, |m| - ui);
      var line := GetLine(s, 1);
      if line.None? { r := Bad; return; }
      r, rest := ReadFriends(ui, line.value.1);
      ghost var e := ReadEntries(line.value.1, None);
      if r == Ok {
        fs := e.fs;
        FilledNext(m, ls, fs);
      }
    }

    /** Second pass: every user's friend lines. */
    method ReadAllFriends(body: string) returns (r: ReadStatus)
      requires Represents() && Friendless(model)
      modifies this`model, this`nodes, ulist
      ensures Represents() && fresh(nodes - old(nodes))
      ensures var l := ReadLists(body, |old(model)|);
              match r
              case Bad => l.BadLists?
              case Undef => l.UndefinedLists?
              case Ok => l.Lists? && model == Filled(old(model), l.lists)
    {
      hide Represents, ReadLists, MoreLists;
      SameLength();
      var s := body;
      ghost var m := model;
      ghost var ls: seq<seq<Entry>> := [];
      ghost var whole := ReadLists(body, |m|);
      MoreListsStart(body, |m|);
      FilledStart(m);
      for ui := 0 to |ulist|
        invariant Represents() && |ulist| == |m| && fresh(nodes - old(nodes))
        invariant |ls| == ui && model == Filled(m, ls)
        invariant MoreLists(whole, ls, s, |m| - ui)
      {
        ghost var fs;
        r, s, fs := NextFriends(s, m, ls, whole, ui);
        if r != Ok { return; }
        ls := ls + [fs];
      }
      MoreListsEnd(whole, ls, s);
      r := Ok;
    }

    /** Reads a file: the stored count, then all users, then, from the top again, all friend lines, so
        that an entry may name a user listed later. */
    method Read(text: string) returns (r: ReadStatus)
      modifies this
      ensures r == Ok ==> fresh(nodes) && forall i :: 0 <= i < |ulist| ==> fresh(ulist[i])
      ensures match ReadDb(text)
              case Loaded(n, db) => r == Ok && Represents() && unum == n && model == db
              case Rejected => r == Bad
              case Undefined => r == Undef
    {
      hide ReadNames, ReadLists;
      var header := GetLine(text, 8);
      if header.None? { return Bad; }
      var n := ScanUnsigned(header.value.0);
      if n.None? { return Undef; }
      unum, ulist := n.value, [];
      model, nodes := [], {};
      var body := header.value.1;
      var ok := ReadUsers(body, unum);
      if !ok { return Bad; }
      ghost var named := model;
      r := ReadAllFriends(body);
      if r == Ok {
        AssembledIsFilled(named, ReadLists(body, unum).lists);
      }
    }

    /** The name buffer after one friend line, None when it is overrun or still unassigned, and the
        status the line gives. */
    method ScanLine(text: string, fname: Option<string>) returns (buffer: Option<string>, status: Status)
      ensures buffer == NextBuffer(text, fname) && status == StatusOf(FriendWords(text))
    {
      var ws := FriendWords(text);
      buffer := fname;
      if |ws| > 0 {
        buffer := if |ws[0]| >= FNAME_SIZE then None else Some(ws[0]);
      }
      if |ws| == 2 {
        if |ws[1]| >= FSTATUS_SIZE { buffer := None; }
        status := if ws[1] == "requested" then Requested else ToAnswer;
      } else {
        status := Friends;
      }
    }
  }

  function NextBuffer(text: string, fname: Option<string>): Option<string> {
    match Buffered(FriendWords(text), fname)
    case Some(b) => b
    case None => None
  }

  lemma {:induction false} ContinuesNext(whole: EntriesResult, fs: seq<Entry>, s: string, fname: Option<string>)
    requires Continues(whole, fs, ReadEntries(s, fname))
    requires GetLine(s, 1).Some? && GetLine(s, 1).value.0 != "."
    ensures var (text, rest) := GetLine(s, 1).value; var b := NextBuffer(text, fname);
            if b.None? then whole.UndefinedEntries?
            else Continues(whole, fs + [Entry(b.value, StatusOf(FriendWords(text)))], ReadEntries(rest, b))
  {
    var (text, rest) := GetLine(s, 1).value;
    var b := NextBuffer(text, fname);
    if b.Some? {
      var e := Entry(b.value, StatusOf(FriendWords(text)));
      var r := ReadEntries(rest, b);
      if r.Entries? { assert fs + [e] + r.fs == fs + ([e] + r.fs); }
    }
  }

  /** The first users with these lists, the others as they were. */
  ghost function Filled(m: Accounts, ls: seq<seq<Entry>>): Accounts {
    seq(|m|, j requires 0 <= j < |m| => if j < |ls| then m[j].(friends := ls[j]) else m[j])
  }

  lemma FilledStart(m: Accounts)
    ensures Filled(m, []) == m
  {
  }

  lemma FriendsAgain(m: Accounts, i: nat, fs: seq<Entry>, fs': seq<Entry>)
    requires i < |m|
    ensures |WithFriends(m, i, fs)| == |m| && WithFriends(m, i, fs)[i].friends == fs
    ensures WithFriends(WithFriends(m, i, fs), i, fs') == WithFriends(m, i, fs')
    ensures m[i].friends == fs ==> WithFriends(m, i, fs) == m
  {
  }

  lemma FilledAt(m: Accounts, ls: seq<seq<Entry>>, i: nat)
    requires |ls| <= i < |m|
    ensures |Filled(m, ls)| == |m| && Filled(m, ls)[i] == m[i]
  {
  }

  lemma FilledNext(m: Accounts, ls: seq<seq<Entry>>, fs: seq<Entry>)
    requires |ls| < |m|
    ensures WithFriends(Filled(m, ls), |ls|, fs) == Filled(m, ls + [fs])
  {
  }

  lemma {:induction false} AssembledIsFilled(m: Accounts, ls: seq<seq<Entry>>)
    requires Friendless(m) && |ls| == |m|
    ensures Filled(m, ls) == Assembled(UserNames(m), ls)
  {
    if m != [] {
      AssembledIsFilled(m[1..], ls[1..]);
      assert UserNames(m)[1..] == UserNames(m[1..]);
      assert Filled(m, ls) == [m[0].(friends := ls[0])] + Filled(m[1..], ls[1..]);
    }
  }

  /** The lists found in the whole pass, when `ls` were found so far and n users remain in `s`. */
  ghost predicate MoreLists(whole: ListsResult, ls: seq<seq<Entry>>, s: string, n: nat) {
    match ReadLists(s, n)
    case Lists(more) => whole == Lists(ls + more)
    case BadLists => whole.BadLists?
    case UndefinedLists => whole.UndefinedLists?
  }

  lemma {:induction false} MoreListsStart(s: string, n: nat)
    ensures MoreLists(ReadLists(s, n), [], s, n)
  {
    var r := ReadLists(s, n);
    if r.Lists? { assert [] + r.lists == r.lists; }
  }

  lemma MoreListsEnd(whole: ListsResult, ls: seq<seq<Entry>>, s: string)
    requires MoreLists(whole, ls, s, 0)
    ensures whole == Lists(ls)
  {
    assert ls + [] == ls;
  }

  lemma MoreListsNext(whole: ListsResult, ls: seq<seq<Entry>>, s: string, n: nat)
    requires n > 0 && MoreLists(whole, ls, s, n)
    ensures GetLine(s, 1).None? ==> whole.BadLists?
    ensures GetLine(s, 1).Some? ==>
              var e := ReadEntries(GetLine(s, 1).value.1, None);
              && (e.BadEntries? ==> whole.BadLists?)
              && (e.UndefinedEntries? ==> whole.UndefinedLists?)
              && (e.Entries? ==> MoreLists(whole, ls + [e.fs], e.rest, n - 1))
  {
    var line := GetLine(s, 1);
    if line.Some? && ReadEntries(line.value.1, None).Entries? {
      var e := ReadEntries(line.value.1, None);
      var r := ReadLists(e.rest, n - 1);
      if r.Lists? { assert ls + [e.fs] + r.lists == ls + ([e.fs] + r.lists); }
    }
  }

  /** The names found in the whole pass, when `names` were found so far and n users remain in `s`. */
  ghost predicate MoreNames(whole: Option<seq<string>>, names: seq<string>, s: string, n: nat) {
    match ReadNames(s, n)
    case None => whole.None?
    case Some(ns) => whole == Some(names + ns)
  }

  lemma {:induction false} MoreNamesStart(s: string, n: nat)
    ensures MoreNames(ReadNames(s, n), [], s, n)
  {
    var r := ReadNames(s, n);
    if r.Some? { assert [] + r.value == r.value; }
  }

  lemma MoreNamesEnd(whole: Option<seq<string>>, names: seq<string>, s: string)
    requires MoreNames(whole, names, s, 0)
    ensures whole == Some(names)
  {
    assert names + [] == names;
  }

  lemma MoreNamesNext(whole: Option<seq<string>>, names: seq<string>, s: string, n: nat)
    requires n > 0 && MoreNames(whole, names, s, n)
    ensures var line := GetLine(s, 1);
            if line.None? || SkipEntries(line.value.1).None? then whole.None?
            else MoreNames(whole, names + [line.value.0], SkipEntries(line.value.1).value, n - 1)
  {
    hide GetLine, SkipEntries;
    var line := GetLine(s, 1);
    if line.Some? && SkipEntries(line.value.1).Some? {
      var r := ReadNames(SkipEntries(line.value.1).value, n - 1);
      if r.Some? { assert names + [line.value.0] + r.value == names + ([line.value.0] + r.value); }
    }
  }

  /** The whole result, when `fs` was read so far and `rest` is what reading on gives. */
  ghost predicate Continues(whole: EntriesResult, fs: seq<Entry>, rest: EntriesResult) {
    match rest
    case Entries(more, end) => whole == Entries(fs + more, end)
    case BadEntries => whole.BadEntries?
    case UndefinedEntries => whole.UndefinedEntries?
  }

  datatype ReadStatus = Ok | Bad | Undef

  /** Users without entries yet. */
  ghost predicate Friendless(db: Accounts) {
    forall i :: 0 <= i < |db| ==> db[i] == Account(db[i].name, false, -1, [])
  }

  lemma {:induction false} FriendlessAppend(db: Accounts, name: string)
    requires Friendless(db)
    ensures KnownFriends(db)
    ensures var db' := db + [Account(name, false, -1, [])];
            Friendless(db') && UserNames(db') == UserNames(db) + [name]
  {
  }

  lemma {:induction false} RenderEntriesNext(fs: seq<Entry>, out: string)
    requires fs != []
    ensures out + RenderEntries(fs) == out + (EntryLine(fs[0]) + "\n") + RenderEntries(fs[1..])
  {
  }

  lemma {:induction false} RenderUsersNext(db: Accounts, out: string)
    requires db != []
    ensures out + RenderUsers(db) ==
            out + (db[0].name + "\n" + RenderEntries(db[0].friends) + ".\n") + RenderUsers(db[1..])
  {
  }
}
