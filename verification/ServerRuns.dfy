/** Whole lives of the server: a database saved and loaded again, and a file served and saved. */
module ServerRuns {
  import opened ImAccounts
  import opened ImProtocol
  import opened ImEdges
  import opened DbText
  import opened DbRoundTrip
  import opened Options
  import opened ImRestart
  import opened Udbase
  import opened ImServer

  /** The node behind entry `k` of user `i` of `d`, and the one in the same place of `l`: the same status,
      and pointers to users in the same place, or to nobody when that user is not among the first `n`. */
  ghost predicate SameNode(d: Database, l: Database, n: nat, i: nat, k: nat)
    reads d, l, d.ulist, l.ulist, set i, k | 0 <= i < |d.ulist| && 0 <= k < |d.ulist[i].flist| :: d.ulist[i].flist[k]
    reads set i, k | 0 <= i < |l.ulist| && 0 <= k < |l.ulist[i].flist| :: l.ulist[i].flist[k]
  {
    && i < n == |l.ulist| <= |d.ulist| && k < |d.ulist[i].flist| == |l.ulist[i].flist|
    && var f, g := d.ulist[i].flist[k], l.ulist[i].flist[k];
       && g.status == f.status
       && forall j :: 0 <= j < |d.ulist| && f.friend == d.ulist[j] ==>
            g.friend == if j < n then l.ulist[j] else null
  }

  /** `l` holds copies of the first `n` users of `d`, logged out, and of their friend nodes. */
  ghost predicate Copies(d: Database, l: Database, n: nat)
    reads d, l, d.ulist, l.ulist, set i, k | 0 <= i < |d.ulist| && 0 <= k < |d.ulist[i].flist| :: d.ulist[i].flist[k]
    reads set i, k | 0 <= i < |l.ulist| && 0 <= k < |l.ulist[i].flist| :: l.ulist[i].flist[k]
  {
    && n == |l.ulist| <= |d.ulist|
    && forall i :: 0 <= i < n ==>
         && l.ulist[i].name == d.ulist[i].name && !l.ulist[i].active && l.ulist[i].connfd == -1
         && |l.ulist[i].flist| == |d.ulist[i].flist|
         && forall k :: 0 <= k < |d.ulist[i].flist| ==> SameNode(d, l, n, i, k)
  }

  lemma ReloadedAt(n: nat, db: Accounts, i: nat)
    requires i < n <= |db|
    ensures |Reloaded(n, db)| == n && Reloaded(n, db)[i] == db[i].(active := false, connfd := -1)
  {
    RestartedLength(db[..n]);
  }

  /** Where the friend pointer of a node leads, and nowhere else. */
  lemma PointsTo(d: Database, i: nat, k: nat, j: nat)
    requires d.Represents() && KnownFriends(d.model) && i < |d.model| && k < |d.model[i].friends| && j < |d.ulist|
    ensures |d.ulist| == |d.model| && k < |d.ulist[i].flist|
    ensures d.ulist[i].flist[k].friend == d.ulist[j] <==> ByName(d.model, d.model[i].friends[k].who) == j
  {
    d.NodeAt(i, k);
  }

  lemma CopiedEntry(d: Database, l: Database, n: nat, i: nat, k: nat)
    requires d.Represents() && l.Represents()
    requires i < n <= |d.model| && l.model == Reloaded(n, d.model) && k < |d.model[i].friends|
    ensures |l.ulist| == n && |d.ulist| == |d.model| && k < |d.ulist[i].flist| == |l.ulist[i].flist|
    ensures l.ulist[i].flist[k].status == d.ulist[i].flist[k].status
    ensures l.ulist[i].flist[k].friend == l.Resolve(d.model[i].friends[k].who)
  {
    ReloadedAt(n, d.model, i);
    assert d.Shows(d.ulist[i], d.model[i]) && l.Shows(l.ulist[i], l.model[i]);
  }

  lemma CopiedNode(d: Database, l: Database, n: nat, i: nat, k: nat)
    requires d.Represents() && KnownFriends(d.model) && l.Represents()
    requires i < n <= |d.model| && l.model == Reloaded(n, d.model) && k < |d.model[i].friends|
    ensures |l.ulist| == n && |d.ulist| == |d.model|
    ensures k < |d.ulist[i].flist| == |l.ulist[i].flist| && SameNode(d, l, n, i, k)
  {
    CopiedEntry(d, l, n, i, k);
    RestartedLength(d.model[..n]);
    hide Database.Represents, KnownFriends;
    var who := d.model[i].friends[k].who;
    NameRestarted(d.model[..n], who);
    ByNamePrefix(d.model, n, who);
    forall j | 0 <= j < |d.ulist| && d.ulist[i].flist[k].friend == d.ulist[j]
      ensures l.ulist[i].flist[k].friend == if j < n then l.ulist[j] else null
    {
      PointsTo(d, i, k, j);
    }
  }

  /** What a loaded database holds is a copy, whatever names come first. */
  lemma CopiesReloaded(d: Database, l: Database, n: nat)
    requires d.Represents() && KnownFriends(d.model) && l.Represents()
    requires n <= |d.model| && l.model == Reloaded(n, d.model)
    ensures Copies(d, l, n)
  {
    RestartedLength(d.model[..n]);
    forall i | 0 <= i < n
      ensures l.ulist[i].name == d.ulist[i].name && !l.ulist[i].active && l.ulist[i].connfd == -1
      ensures |l.ulist[i].flist| == |d.ulist[i].flist| == |d.model[i].friends|
    {
      ReloadedAt(n, d.model, i);
      assert d.Shows(d.ulist[i], d.model[i]) && l.Shows(l.ulist[i], l.model[i]);
    }
    forall i, k | 0 <= i < n && 0 <= k < |d.ulist[i].flist| ensures SameNode(d, l, n, i, k) {
      CopiedNode(d, l, n, i, k);
    }
  }

  /** A loaded copy of the whole database has all its users. */
  lemma {:induction false} LoadsItsCount(unum: nat, db: Accounts)
    requires unum < UNSIGNED_RANGE
    ensures var r := ReadDb(Render(unum, db));
            r.Loaded? && r.db == Restarted(db) ==> r.unum == |db|
  {
    if ReadDb(Render(unum, db)).Loaded? { LoadedIsClean(Render(unum, db)); }
    RestartedLength(db);
  }

  /** Saves a database and loads it into a new one, which then shows what the written text says.  When names
      are clean, the counted users come back with all their nodes, each pointing to the copy of the user it
      pointed to, users listed later included.  The whole database comes back exactly when all users are
      counted, user names are lines, and friend names are words that fit. */
  method SaveAndLoad(d: Database) returns (r: ReadStatus, l: Database)
    requires d.Represents() && KnownFriends(d.model) && d.unum < UNSIGNED_RANGE
    ensures fresh(l) && d.model == old(d.model) && d.unum == old(d.unum)
    ensures r == Ok <==> ReadDb(Render(d.unum, d.model)).Loaded?
    ensures r == Ok ==> l.Represents() && Loaded(l.unum, l.model) == ReadDb(Render(d.unum, d.model))
    ensures CleanDb(d.model) && d.unum > |d.model| ==> r == Bad
    ensures CleanDb(d.model) && d.unum <= |d.model| && !Fits(d.model[..d.unum]) ==> r == Undef
    ensures CleanDb(d.model) && d.unum <= |d.model| && Fits(d.model[..d.unum]) ==>
              r == Ok && l.unum == d.unum && Copies(d, l, d.unum)
    ensures r == Ok && l.model == Restarted(d.model) <==>
              d.unum == |d.model| && CleanDb(d.model) && Fits(d.model)
  {
    var text := d.Write();
    l := new Database();
    r := l.Read(text);
    RoundTripIff(d.unum, d.model);
    LoadsItsCount(d.unum, d.model);
    if CleanDb(d.model) {
      ReadWritten(d.unum, d.model);
      if r == Ok { CopiesReloaded(d, l, d.unum); }
    }
  }

  /** Loads a file, serves any requests and saves: the new file states the old count and the database of
      the run. */
  method ServeFile(text: string, evs: seq<Event>) returns (saved: Option<string>, sent: seq<Sent>)
    requires RealConnections(evs)
    requires ReadDb(text).Loaded? ==> WellFormed(ReadDb(text).db)
    ensures !ReadDb(text).Loaded? ==> saved == None && sent == []
    ensures ReadDb(text).Loaded? ==>
              var run := RunFrom(ReadDb(text).db, evs);
              saved == Some(Render(ReadDb(text).unum, run.db)) && sent == run.log
  {
    saved, sent := None, [];
    var db := new Database();
    var r := db.Read(text);
    if r == Ok {
      var server := new Server(db);
      server.Serve(evs);
      WellFormedKnows(db.model);
      var out := db.Write();
      saved, sent := Some(out), server.outbox;
    }
  }
}
