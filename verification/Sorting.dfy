/** Orders, sorted sequences and rearrangements. */
module Sorting {
  ghost predicate Sorted<T>(s: seq<T>, le: (T, T) -> bool) {
    forall i, j :: 0 <= i < j < |s| ==> le(s[i], s[j])
  }

  ghost predicate TotalPreorder<T(!new)>(le: (T, T) -> bool) {
    && (forall x, y :: le(x, y) || le(y, x))
    && (forall x, y, z :: le(x, y) && le(y, z) ==> le(x, z))
  }

  /** Elements of `s` that the order does not tell apart are equal. */
  ghost predicate Told<T>(s: seq<T>, le: (T, T) -> bool) {
    forall x, y :: x in s && y in s && le(x, y) && le(y, x) ==> x == y
  }

  // ----- what the library sort may leave: a sorted rearrangement

  function Insert<T>(x: T, s: seq<T>, le: (T, T) -> bool): (r: seq<T>)
    ensures multiset(r) == multiset(s) + multiset{x}
  {
    if s == [] || le(x, s[0]) then [x] + s
    else
      var r := [s[0]] + Insert(x, s[1..], le);
      assert s == [s[0]] + s[1..];
      r
  }

  function Sort<T>(s: seq<T>, le: (T, T) -> bool): (r: seq<T>)
    ensures multiset(r) == multiset(s)
  {
    if s == [] then []
    else
      assert s == [s[0]] + s[1..];
      Insert(s[0], Sort(s[1..], le), le)
  }

  lemma {:induction false} InsertSorted<T(!new)>(x: T, s: seq<T>, le: (T, T) -> bool)
    requires TotalPreorder(le) && Sorted(s, le)
    ensures Sorted(Insert(x, s, le), le)
  {
    if s == [] {
    } else if le(x, s[0]) {
      assert forall i :: 0 <= i < |s| ==> le(s[0], s[i]);
    } else {
      InsertSorted(x, s[1..], le);
      var r := Insert(x, s[1..], le);
      forall y | y in r ensures le(s[0], y) {
        assert y in multiset(r);
        assert y == x || y in s[1..];
      }
    }
  }

  lemma {:induction false} SortSorted<T(!new)>(s: seq<T>, le: (T, T) -> bool)
    requires TotalPreorder(le)
    ensures Sorted(Sort(s, le), le)
  {
    if s != [] {
      SortSorted(s[1..], le);
      InsertSorted(s[0], Sort(s[1..], le), le);
    }
  }

  // ----- uniqueness

  lemma SameElements<T>(s: seq<T>, t: seq<T>)
    requires multiset(s) == multiset(t)
    ensures |s| == |t| && forall x :: x in s <==> x in t
  {
    assert |multiset(s)| == |s| && |multiset(t)| == |t|;
    forall x ensures x in s <==> x in t {
      assert x in s <==> x in multiset(s);
      assert x in t <==> x in multiset(t);
    }
  }

  /** The least elements of two sorted rearrangements agree. */
  lemma SameHead<T>(s: seq<T>, t: seq<T>, le: (T, T) -> bool)
    requires Sorted(s, le) && Sorted(t, le) && multiset(s) == multiset(t) && Told(s, le) && s != []
    ensures t != [] && s[0] == t[0]
  {
    SameElements(s, t);
    var x, y := s[0], t[0];
    assert x in t && y in s;
    var i :| 0 <= i < |t| && t[i] == x;
    var j :| 0 <= j < |s| && s[j] == y;
    assert i == 0 || le(y, x);
    assert j == 0 || le(x, y);
  }

  /** Taking an equal element out of two rearrangements leaves rearrangements. */
  lemma Cancel<T>(a: multiset<T>, b: multiset<T>, x: T)
    requires a + multiset{x} == b + multiset{x}
    ensures a == b
  {
    assert (a + multiset{x}) - multiset{x} == a && (b + multiset{x}) - multiset{x} == b;
  }

  lemma TailMultiset<T>(s: seq<T>)
    requires s != []
    ensures s == [s[0]] + s[1..] && multiset(s) == multiset(s[1..]) + multiset{s[0]}
  {
    assert s == [s[0]] + s[1..];
  }

  /** A sequence has one sorted rearrangement when the order tells its elements apart. */
  lemma {:induction false} SortedUnique<T>(s: seq<T>, t: seq<T>, le: (T, T) -> bool)
    requires Sorted(s, le) && Sorted(t, le) && multiset(s) == multiset(t) && Told(s, le)
    ensures s == t
  {
    if s == [] {
      SameElements(s, t);
    } else {
      SameHead(s, t, le);
      TailMultiset(s);
      TailMultiset(t);
      Cancel(multiset(s[1..]), multiset(t[1..]), s[0]);
      SortedUnique(s[1..], t[1..], le);
    }
  }

  lemma SwapRearranged<T>(s: seq<T>, p: nat, q: nat)
    requires p < |s| && q < |s|
    ensures multiset(s[p := s[q]][q := s[p]]) == multiset(s)
  {
  }

  // ----- images

  function Map<T, U>(f: T -> U, s: seq<T>): (r: seq<U>)
    ensures |r| == |s| && forall i :: 0 <= i < |s| ==> r[i] == f(s[i])
  {
    if s == [] then [] else [f(s[0])] + Map(f, s[1..])
  }

  /** A sequence without its element `j`, and its image. */
  lemma Removal<T, U>(f: T -> U, s: seq<T>, j: nat) returns (r: seq<T>)
    requires j < |s|
    ensures |r| == |s| - 1 && forall y :: y in r ==> y in s
    ensures multiset(s) == multiset(r) + multiset{s[j]}
    ensures multiset(Map(f, s)) == multiset(Map(f, r)) + multiset{f(s[j])}
  {
    r := TakeOut(s, j);
    var m := Map(f, s);
    assert Map(f, r) == m[..j] + m[j + 1..];
    var q := TakeOut(m, j);
  }

  lemma TakeOut<T>(s: seq<T>, j: nat) returns (r: seq<T>)
    requires j < |s|
    ensures r == s[..j] + s[j + 1..] && multiset(s) == multiset(r) + multiset{s[j]}
  {
    r := s[..j] + s[j + 1..];
    assert s == s[..j] + [s[j]] + s[j + 1..];
  }

  lemma FindIn<T>(x: T, s: seq<T>, t: seq<T>) returns (j: nat)
    requires x in s && multiset(s) == multiset(t)
    ensures j < |t| && t[j] == x
  {
    SameElements(s, t);
    j :| 0 <= j < |t| && t[j] == x;
  }

  lemma Lengths<T>(s: seq<T>, t: seq<T>)
    requires multiset(s) == multiset(t)
    ensures |s| == |t|
  {
    SameElements(s, t);
  }

  /** Images of rearrangements are rearrangements. */
  lemma {:induction false} MapRearranged<T, U>(f: T -> U, s: seq<T>, t: seq<T>)
    requires multiset(s) == multiset(t)
    ensures multiset(Map(f, s)) == multiset(Map(f, t))
    decreases |s|
  {
    Lengths(s, t);
    if s != [] {
      var x := s[0];
      var j := FindIn(x, s, t);
      var s' := Removal(f, s, 0);
      var t' := Removal(f, t, j);
      Cancel(multiset(s'), multiset(t'), x);
      MapRearranged(f, s', t');
    }
  }

  lemma FindImage<T, U>(f: T -> U, s: seq<T>, t: seq<T>, x: T) returns (j: nat)
    requires x in s && multiset(Map(f, s)) == multiset(Map(f, t))
    ensures j < |t| && f(t[j]) == f(x)
  {
    var i :| 0 <= i < |s| && s[i] == x;
    assert Map(f, s)[i] == f(x);
    j := FindIn(f(x), Map(f, s), Map(f, t));
  }

  /** Images under a function that keeps elements apart are rearrangements only of rearrangements. */
  lemma {:induction false} MapReflects<T, U>(f: T -> U, s: seq<T>, t: seq<T>)
    requires forall x, y :: x in s && y in t && f(x) == f(y) ==> x == y
    requires multiset(Map(f, s)) == multiset(Map(f, t))
    ensures multiset(s) == multiset(t)
    decreases |s|
  {
    Lengths(Map(f, s), Map(f, t));
    if s != [] {
      var x := s[0];
      var j := FindImage(f, s, t, x);
      assert x in s && t[j] in t;
      var s' := Removal(f, s, 0);
      var t' := Removal(f, t, j);
      Cancel(multiset(Map(f, s')), multiset(Map(f, t')), f(x));
      MapReflects(f, s', t');
    }
  }
}
