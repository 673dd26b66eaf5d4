/** The comparator's sorting and comparing loops over arrays of users. */
module Cndb {
  import opened Sorting
  import opened Canonical

  /** The library sort: only its contract matters here, a sorted rearrangement in place. */
  method QSort<T(!new)>(a: array<T>, le: (T, T) -> bool)
    requires TotalPreorder(le)
    modifies a
    ensures Sorted(a[..], le) && multiset(a[..]) == multiset(old(a[..]))
  {
    var s := Sort(a[..], le);
    SortSorted(a[..], le);
    SameElements(s, a[..]);
    for i := 0 to a.Length
      invariant a[..i] == s[..i]
    {
      a[i] := s[i];
    }
    assert a[..] == s;
  }

  /** Sorts the friend lines of one user. */
  method SortLinesOf(u: DbUser) returns (v: DbUser)
    ensures v == LinesSorted(u)
    ensures v.name == u.name && multiset(v.flines) == multiset(u.flines) && Dictionary(v.flines)
  {
    StringsOrdered();
    var flines := new string[|u.flines|](i requires 0 <= i < |u.flines| => u.flines[i]);
    assert flines[..] == u.flines;
    QSort(flines, StrLe);
    SortSorted(u.flines, StrLe);
    SortedUnique(flines[..], Sort(u.flines, StrLe), StrLe);
    SortedIsDictionary(flines[..]);
    v := DbUser(u.name, flines[..]);
  }

  method SortAllLines(user: array<DbUser>)
    modifies user
    ensures user[..] == Map(LinesSorted, old(user[..]))
  {
    ghost var raw := user[..];
    ghost var m := Map(LinesSorted, raw);
    for ui := 0 to user.Length
      invariant forall k :: 0 <= k < user.Length ==> user[k] == if k < ui then m[k] else raw[k]
    {
      var v := SortLinesOf(user[ui]);
      user[ui] := v;
    }
  }

  /** Sorts every user's lines and then the users by name, in place. */
  method SortDb(user: array<DbUser>)
    modifies user
    ensures IsCanonical(old(user[..]), user[..])
    ensures Dictionary(NamesIn(user[..])) && forall u :: u in user[..] ==> Dictionary(u.flines)
    ensures Reordering(old(user[..]), user[..])
  {
    ghost var raw := user[..];
    SortAllLines(user);
    StringsOrdered();
    QSort(user, NameLe);
    CanonicalIsDictionary(raw, user[..]);
    CanonicalReorders(raw, user[..]);
  }

  /** The first difference found, with its place. */
  datatype Difference =
    | NoDifference
    | UserCount
    | UserName(ui: nat)
    | LineCount(ui: nat)
    | FriendLine(ui: nat, li: nat)

  /** The two databases agree on their first `n` users. */
  ghost predicate AgreeTo(a: seq<DbUser>, b: seq<DbUser>, n: nat) {
    n <= |a| && n <= |b| && a[..n] == b[..n]
  }

  /** A reported difference is real, and everything before it agrees. */
  ghost predicate Reported(a: seq<DbUser>, b: seq<DbUser>, d: Difference) {
    match d
    case NoDifference => a == b
    case UserCount => |a| != |b|
    case UserName(ui) => AgreeTo(a, b, ui) && ui < |a| == |b| && a[ui].name != b[ui].name
    case LineCount(ui) =>
      AgreeTo(a, b, ui) && ui < |a| == |b| && a[ui].name == b[ui].name && |a[ui].flines| != |b[ui].flines|
    case FriendLine(ui, li) =>
      && AgreeTo(a, b, ui) && ui < |a| == |b| && a[ui].name == b[ui].name
      && li < |a[ui].flines| == |b[ui].flines|
      && a[ui].flines[..li] == b[ui].flines[..li] && a[ui].flines[li] != b[ui].flines[li]
  }

  method Compare(db: array<DbUser>, comp: array<DbUser>) returns (d: Difference)
    ensures Reported(db[..], comp[..], d)
  {
    if db.Length != comp.Length { return UserCount; }
    for ui := 0 to db.Length
      invariant db[..ui] == comp[..ui]
    {
      var u, v := db[ui], comp[ui];
      if u.name != v.name { return UserName(ui); }
      if |u.flines| != |v.flines| { return LineCount(ui); }
      for li := 0 to |u.flines|
        invariant u.flines[..li] == v.flines[..li]
      {
        if u.flines[li] != v.flines[li] { return FriendLine(ui, li); }
      }
      assert u.flines == v.flines;
    }
    d := NoDifference;
  }

  lemma ReportsNothingIff(a: seq<DbUser>, b: seq<DbUser>, d: Difference)
    requires Reported(a, b, d)
    ensures d == NoDifference <==> a == b
  {
  }

  /** The whole comparison: no difference is reported only for reorderings, and for every reordering
      when names decide the users of the first database. */
  method CompareDbs(db: array<DbUser>, comp: array<DbUser>) returns (d: Difference)
    requires db != comp
    modifies db, comp
    ensures d == NoDifference ==> Reordering(old(db[..]), old(comp[..]))
    ensures NamesDecide(old(db[..])) && Reordering(old(db[..]), old(comp[..])) ==> d == NoDifference
  {
    ghost var a, b := db[..], comp[..];
    SortDb(db);
    SortDb(comp);
    d := Compare(db, comp);
    ReportsNothingIff(db[..], comp[..], d);
    ComparisonExact(a, b, db[..], comp[..]);
  }
}
