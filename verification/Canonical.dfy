/** The database comparator: user names and friend lines sorted, then compared place by place. */
module Canonical {
  import opened Sorting

  datatype DbUser = DbUser(name: string, flines: seq<string>)

  // ----- string comparison, byte by byte

  function StrCmp(a: string, b: string): int {
    if a == "" && b == "" then 0
    else if a == "" then -1
    else if b == "" then 1
    else if a[0] < b[0] then -1
    else if b[0] < a[0] then 1
    else StrCmp(a[1..], b[1..])
  }

  predicate StrLe(a: string, b: string) { StrCmp(a, b) <= 0 }

  predicate NameLe(u: DbUser, v: DbUser) { StrCmp(u.name, v.name) <= 0 }

  lemma {:induction false} StrCmpAntisymmetric(a: string, b: string)
    ensures StrCmp(b, a) == -StrCmp(a, b)
    ensures StrCmp(a, b) == 0 <==> a == b
  {
    if a != "" && b != "" {
      StrCmpAntisymmetric(a[1..], b[1..]);
      if a[0] == b[0] { assert a == [a[0]] + a[1..] && b == [b[0]] + b[1..]; }
    }
  }

  lemma {:induction false} StrLeTransitive(a: string, b: string, c: string)
    requires StrLe(a, b) && StrLe(b, c)
    ensures StrLe(a, c)
  {
    if a != "" && b != "" && c != "" && a[0] == b[0] == c[0] {
      StrLeTransitive(a[1..], b[1..], c[1..]);
    }
  }

  /** Dictionary order: a proper prefix comes first, otherwise the first place that differs decides. */
  ghost predicate Before(a: string, b: string) {
    || (|a| < |b| && a == b[..|a|])
    || exists k :: 0 <= k < |a| && k < |b| && a[..k] == b[..k] && a[k] < b[k]
  }

  lemma BeforeCons(c: char, a: string, b: string)
    requires Before(a, b)
    ensures Before([c] + a, [c] + b)
  {
    var x, y := [c] + a, [c] + b;
    if |a| < |b| && a == b[..|a|] {
      assert x == y[..|x|];
    } else {
      var k :| 0 <= k < |a| && k < |b| && a[..k] == b[..k] && a[k] < b[k];
      assert x[..k + 1] == [c] + a[..k] && y[..k + 1] == [c] + b[..k];
      assert x[k + 1] < y[k + 1];
    }
  }

  lemma BeforeTail(c: char, a: string, b: string)
    requires Before([c] + a, [c] + b)
    ensures Before(a, b)
  {
    var x, y := [c] + a, [c] + b;
    if |x| < |y| && x == y[..|x|] {
      assert a == x[1..] && b[..|a|] == y[..|x|][1..];
    } else {
      var k :| 0 <= k < |x| && k < |y| && x[..k] == y[..k] && x[k] < y[k];
      assert a[..k - 1] == x[..k][1..] && b[..k - 1] == y[..k][1..];
      assert a[k - 1] < b[k - 1];
    }
  }

  /** The comparison is negative exactly for strings in dictionary order. */
  lemma {:induction false} StrCmpIsBefore(a: string, b: string)
    ensures StrCmp(a, b) < 0 <==> Before(a, b)
  {
    if a == "" {
      assert b != "" ==> b[..0] == a;
    } else if b != "" {
      if a[0] == b[0] {
        assert a == [a[0]] + a[1..] && b == [a[0]] + b[1..];
        StrCmpIsBefore(a[1..], b[1..]);
        if Before(a[1..], b[1..]) { BeforeCons(a[0], a[1..], b[1..]); }
        if Before(a, b) { BeforeTail(a[0], a[1..], b[1..]); }
      } else {
        assert a[..0] == b[..0];
        if Before(a, b) { assert a[0] < b[0]; }
      }
    }
  }

  /** Strings in dictionary order, equal ones next to each other. */
  ghost predicate Dictionary(s: seq<string>) {
    forall i, j :: 0 <= i < j < |s| ==> s[i] == s[j] || Before(s[i], s[j])
  }

  lemma SortedIsDictionary(s: seq<string>)
    requires Sorted(s, StrLe)
    ensures Dictionary(s)
  {
    forall i, j | 0 <= i < j < |s| ensures s[i] == s[j] || Before(s[i], s[j]) {
      assert StrLe(s[i], s[j]);
      StrCmpIsBefore(s[i], s[j]);
      StrCmpAntisymmetric(s[i], s[j]);
    }
  }

  lemma StringsOrdered()
    ensures TotalPreorder(StrLe) && TotalPreorder(NameLe)
    ensures forall s: seq<string> :: Told(s, StrLe)
  {
    forall a, b ensures StrCmp(b, a) == -StrCmp(a, b) && (StrCmp(a, b) == 0 <==> a == b) {
      StrCmpAntisymmetric(a, b);
    }
    forall a, b, c | StrLe(a, b) && StrLe(b, c) ensures StrLe(a, c) { StrLeTransitive(a, b, c); }
    forall u: DbUser, v, w | NameLe(u, v) && NameLe(v, w) ensures NameLe(u, w) {
      StrLeTransitive(u.name, v.name, w.name);
    }
  }

  // ----- canonical form

  /** A user with its friend lines sorted. */
  function LinesSorted(u: DbUser): DbUser {
    DbUser(u.name, Sort(u.flines, StrLe))
  }

  /** What reading may leave: every user's lines sorted and the users in some order sorted by name;
      the library sort is free to order users with the same name as it likes. */
  ghost predicate IsCanonical(raw: seq<DbUser>, c: seq<DbUser>) {
    Sorted(c, NameLe) && multiset(c) == multiset(Map(LinesSorted, raw))
  }

  /** A user up to the order of its friend lines. */
  ghost function Shape(u: DbUser): (string, multiset<string>) {
    (u.name, multiset(u.flines))
  }

  /** One database is a reordering of the other's users and of each user's friend lines. */
  ghost predicate Reordering(a: seq<DbUser>, b: seq<DbUser>) {
    multiset(Map(Shape, a)) == multiset(Map(Shape, b))
  }

  ghost predicate DistinctNames(a: seq<DbUser>) {
    forall i, j :: 0 <= i < j < |a| ==> a[i].name != a[j].name
  }

  /** Users with the same name have the same friend lines, in some order. */
  ghost predicate NamesDecide(a: seq<DbUser>) {
    forall i, j :: 0 <= i < |a| && 0 <= j < |a| && a[i].name == a[j].name ==> Shape(a[i]) == Shape(a[j])
  }

  lemma SortByShape(u: DbUser, v: DbUser)
    requires Shape(u) == Shape(v)
    ensures LinesSorted(u) == LinesSorted(v)
  {
    StringsOrdered();
    SortSorted(u.flines, StrLe);
    SortSorted(v.flines, StrLe);
    SortedUnique(Sort(u.flines, StrLe), Sort(v.flines, StrLe), StrLe);
  }

  lemma ShapeOfSorted(u: DbUser)
    ensures Shape(LinesSorted(u)) == Shape(u)
  {
  }

  lemma {:induction false} ShapesOfSorted(a: seq<DbUser>)
    ensures Map(Shape, Map(LinesSorted, a)) == Map(Shape, a)
  {
    forall i | 0 <= i < |a| ensures Shape(LinesSorted(a[i])) == Shape(a[i]) { ShapeOfSorted(a[i]); }
  }

  lemma ShapeTellsSorted(u: DbUser, v: DbUser)
    requires Shape(LinesSorted(u)) == Shape(LinesSorted(v))
    ensures LinesSorted(u) == LinesSorted(v)
  {
    ShapeOfSorted(u);
    ShapeOfSorted(v);
    SortByShape(u, v);
  }

  lemma SortedFrom(a: seq<DbUser>, x: DbUser) returns (i: nat)
    requires x in Map(LinesSorted, a)
    ensures i < |a| && x == LinesSorted(a[i])
  {
    i :| 0 <= i < |a| && Map(LinesSorted, a)[i] == x;
  }

  ghost function NamesIn(users: seq<DbUser>): (r: seq<string>)
    ensures |r| == |users| && forall i :: 0 <= i < |users| ==> r[i] == users[i].name
  {
    seq(|users|, i requires 0 <= i < |users| => users[i].name)
  }

  /** The users of a canonical form are in dictionary order, and so are the lines of each. */
  lemma CanonicalIsDictionary(raw: seq<DbUser>, c: seq<DbUser>)
    requires IsCanonical(raw, c)
    ensures Dictionary(NamesIn(c)) && forall u :: u in c ==> Dictionary(u.flines)
  {
    var ns := NamesIn(c);
    forall i, j | 0 <= i < j < |ns| ensures StrLe(ns[i], ns[j]) { assert NameLe(c[i], c[j]); }
    SortedIsDictionary(ns);
    StringsOrdered();
    SameElements(c, Map(LinesSorted, raw));
    forall u | u in c ensures Dictionary(u.flines) {
      var i := SortedFrom(raw, u);
      SortSorted(raw[i].flines, StrLe);
      SortedIsDictionary(u.flines);
    }
  }

  lemma {:induction false} ShapesTellApart(a: seq<DbUser>, b: seq<DbUser>)
    ensures forall x, y :: x in Map(LinesSorted, a) && y in Map(LinesSorted, b) && Shape(x) == Shape(y) ==> x == y
  {
    forall x, y | x in Map(LinesSorted, a) && y in Map(LinesSorted, b) && Shape(x) == Shape(y) ensures x == y {
      var i := SortedFrom(a, x);
      var j := SortedFrom(b, y);
      ShapeTellsSorted(a[i], b[j]);
    }
  }

  /** Sorting the lines of every user makes reorderings of one another into rearrangements. */
  lemma {:induction false} ReorderingIff(a: seq<DbUser>, b: seq<DbUser>)
    ensures Reordering(a, b) <==> multiset(Map(LinesSorted, a)) == multiset(Map(LinesSorted, b))
  {
    var s, t := Map(LinesSorted, a), Map(LinesSorted, b);
    ShapesOfSorted(a);
    ShapesOfSorted(b);
    if multiset(s) == multiset(t) {
      MapRearranged(Shape, s, t);
    } else if Reordering(a, b) {
      ShapesTellApart(a, b);
      MapReflects(Shape, s, t);
    }
  }

  /** A canonical form is a reordering of what it was made from. */
  lemma CanonicalReorders(raw: seq<DbUser>, c: seq<DbUser>)
    requires IsCanonical(raw, c)
    ensures Reordering(raw, c)
  {
    MapRearranged(Shape, c, Map(LinesSorted, raw));
    ShapesOfSorted(raw);
  }

  lemma CanonicalTold(raw: seq<DbUser>, c: seq<DbUser>)
    requires IsCanonical(raw, c) && NamesDecide(raw)
    ensures Told(c, NameLe)
  {
    var s := Map(LinesSorted, raw);
    SameElements(c, s);
    forall x, y | x in c && y in c && NameLe(x, y) && NameLe(y, x) ensures x == y {
      StrCmpAntisymmetric(x.name, y.name);
      var i := SortedFrom(raw, x);
      var j := SortedFrom(raw, y);
      SortByShape(raw[i], raw[j]);
    }
  }

  lemma DistinctNamesDecide(a: seq<DbUser>)
    requires DistinctNames(a)
    ensures NamesDecide(a)
  {
  }

  /** The comparison is exact: equal canonical forms come from reorderings only, and when names decide
      users in one database, any canonical forms of it and of a reordering are equal. */
  lemma ComparisonExact(a: seq<DbUser>, b: seq<DbUser>, ca: seq<DbUser>, cb: seq<DbUser>)
    requires IsCanonical(a, ca) && IsCanonical(b, cb)
    ensures ca == cb ==> Reordering(a, b)
    ensures NamesDecide(a) && Reordering(a, b) ==> ca == cb
    ensures DistinctNames(a) ==> (ca == cb <==> Reordering(a, b))
  {
    ReorderingIff(a, b);
    if DistinctNames(a) { DistinctNamesDecide(a); }
    if NamesDecide(a) && Reordering(a, b) {
      CanonicalTold(a, ca);
      SortedUnique(ca, cb, NameLe);
    }
  }

  /** Without that the outcome is up to the library sort: a database has only one canonical form
      exactly when names decide its users. */
  lemma CanonicalFormUniqueIff(a: seq<DbUser>)
    ensures (forall c, d :: IsCanonical(a, c) && IsCanonical(a, d) ==> c == d) <==> NamesDecide(a)
  {
    if NamesDecide(a) {
      forall c, d | IsCanonical(a, c) && IsCanonical(a, d) ensures c == d {
        ComparisonExact(a, a, c, d);
      }
    } else {
      var i, j :| 0 <= i < |a| && 0 <= j < |a| && a[i].name == a[j].name && Shape(a[i]) != Shape(a[j]);
      var c, d := TwoForms(a, i, j);
    }
  }

  lemma TwoForms(a: seq<DbUser>, i: nat, j: nat) returns (c: seq<DbUser>, d: seq<DbUser>)
    requires i < |a| && j < |a| && a[i].name == a[j].name && Shape(a[i]) != Shape(a[j])
    ensures IsCanonical(a, c) && IsCanonical(a, d) && c != d
  {
    StringsOrdered();
    var s := Map(LinesSorted, a);
    c := Sort(s, NameLe);
    SortSorted(s, NameLe);
    var x, y := LinesSorted(a[i]), LinesSorted(a[j]);
    ShapeOfSorted(a[i]);
    ShapeOfSorted(a[j]);
    assert s[i] == x && s[j] == y;
    var p := FindIn(x, s, c);
    var q := FindIn(y, s, c);
    d := c[p := c[q]][q := c[p]];
    SwapRearranged(c, p, q);
    SwapSorted(c, p, q);
    assert d[p] == y;
  }

  lemma SwapSorted(c: seq<DbUser>, p: nat, q: nat)
    requires Sorted(c, NameLe) && p < |c| && q < |c| && c[p].name == c[q].name
    ensures Sorted(c[p := c[q]][q := c[p]], NameLe)
  {
    var d := c[p := c[q]][q := c[p]];
    forall k | 0 <= k < |c| ensures d[k].name == c[k].name { }
    forall k, l | 0 <= k < l < |d| ensures NameLe(d[k], d[l]) {
      assert NameLe(c[k], c[l]);
    }
  }
}
