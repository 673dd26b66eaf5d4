/** Least-recently-used replacement, stated on the access history of one cache set.

    A history lists the tags accessed in the set, oldest first.  `Lru` is the textbook policy: a
    recency list of at most E tags, the most recent first.  `Stack` is the same list without a
    bound, and `Age` counts the accesses since a tag was last used. */
module Recency {
  type Tag = nat

  function Without(s: seq<Tag>, t: Tag): (r: seq<Tag>)
    ensures t !in r
    ensures forall x :: x in r <==> x in s && x != t
    ensures |r| <= |s|
    ensures t !in s ==> r == s
  {
    if s == [] then []
    else if s[0] == t then Without(s[1..], t)
    else [s[0]] + Without(s[1..], t)
  }

  function Take(s: seq<Tag>, n: nat): seq<Tag> {
    if |s| <= n then s else s[..n]
  }

  /** One access: the tag moves to the front and what falls off the end is evicted. */
  function Touch(E: nat, r: seq<Tag>, t: Tag): seq<Tag> {
    Take([t] + Without(r, t), E)
  }

  function Lru(E: nat, h: seq<Tag>): seq<Tag> {
    if h == [] then [] else Touch(E, Lru(E, h[..|h|-1]), h[|h|-1])
  }

  function Stack(h: seq<Tag>): seq<Tag> {
    if h == [] then [] else [h[|h|-1]] + Without(Stack(h[..|h|-1]), h[|h|-1])
  }

  /** The number of accesses since `t` was last used (the whole length if it never was). */
  function Age(h: seq<Tag>, t: Tag): nat {
    if h == [] || h[|h|-1] == t then 0 else 1 + Age(h[..|h|-1], t)
  }

  /** The tags accessed since `t` was last used. */
  function Since(h: seq<Tag>, t: Tag): set<Tag> {
    if h == [] || h[|h|-1] == t then {} else {h[|h|-1]} + Since(h[..|h|-1], t)
  }

  ghost predicate Distinct(s: seq<Tag>) {
    forall i, j :: 0 <= i < j < |s| ==> s[i] != s[j]
  }

  // ----- the recency list is a prefix of the unbounded stack

  lemma DistinctCons(t: Tag, s: seq<Tag>)
    ensures Distinct([t] + s) <==> t !in s && Distinct(s)
  {
    var c := [t] + s;
    if Distinct(c) {
      forall i, j | 0 <= i < j < |s| ensures s[i] != s[j] { assert c[i + 1] != c[j + 1]; }
      forall i | 0 <= i < |s| ensures s[i] != t { assert c[0] != c[i + 1]; }
    }
  }

  lemma {:induction false} WithoutDistinct(s: seq<Tag>, t: Tag)
    requires Distinct(s)
    ensures Distinct(Without(s, t))
    ensures t in s ==> |Without(s, t)| == |s| - 1
  {
    if s != [] {
      assert s == [s[0]] + s[1..];
      DistinctCons(s[0], s[1..]);
      WithoutDistinct(s[1..], t);
      DistinctCons(s[0], Without(s[1..], t));
    }
  }

  lemma TakeCons(t: Tag, s: seq<Tag>, E: nat)
    requires E > 0
    ensures Take([t] + s, E) == [t] + Take(s, E - 1)
  {
  }

  /** Cutting at n + 1 before removing a tag and cutting at n loses nothing. */
  lemma {:induction false} TakeWithout(s: seq<Tag>, t: Tag, n: nat)
    requires Distinct(s)
    ensures Take(Without(Take(s, n + 1), t), n) == Take(Without(s, t), n)
    decreases |s|
  {
    if |s| > n + 1 {
      var x, rest := s[0], s[1..];
      assert s == [x] + rest;
      DistinctCons(x, rest);
      TakeCons(x, rest, n + 1);
      assert ([x] + Take(rest, n))[1..] == Take(rest, n);
      if x != t && n > 0 {
        TakeWithout(rest, t, n - 1);
        TakeCons(x, Without(Take(rest, n), t), n);
        TakeCons(x, Without(rest, t), n);
      }
    }
  }

  lemma {:induction false} StackDistinct(h: seq<Tag>)
    ensures Distinct(Stack(h))
    ensures forall t :: t in Stack(h) <==> t in h
  {
    if h != [] {
      var init, t := h[..|h|-1], h[|h|-1];
      StackDistinct(init);
      WithoutDistinct(Stack(init), t);
      assert h == init + [t];
    }
  }

  lemma {:induction false} TouchTake(E: nat, s: seq<Tag>, t: Tag)
    requires E > 0 && Distinct(s)
    ensures Touch(E, Take(s, E), t) == Take([t] + Without(s, t), E)
  {
    TakeWithout(s, t, E - 1);
    TakeCons(t, Without(Take(s, E), t), E);
    TakeCons(t, Without(s, t), E);
  }

  lemma AllButLast(r: seq<Tag>, E: nat)
    requires 0 < E == |r| && Distinct(r)
    ensures forall x :: x in r[..E - 1] <==> x in r && x != r[E - 1]
  {
    forall x ensures x in r[..E - 1] <==> x in r && x != r[E - 1] {
      if x in r && x != r[E - 1] {
        var k :| 0 <= k < |r| && r[k] == x;
        assert r[..E - 1][k] == x;
      }
    }
  }

  /** The bounded recency list is the top E entries of the unbounded one. */
  lemma {:induction false} LruIsStackPrefix(E: nat, h: seq<Tag>)
    ensures Lru(E, h) == Take(Stack(h), E)
  {
    if h != [] && E > 0 {
      var init, t := h[..|h|-1], h[|h|-1];
      LruIsStackPrefix(E, init);
      StackDistinct(init);
      TouchTake(E, Stack(init), t);
    }
  }

  lemma {:induction false} LruDistinct(E: nat, h: seq<Tag>)
    ensures Distinct(Lru(E, h)) && |Lru(E, h)| <= E
    ensures forall t :: t in Lru(E, h) ==> t in h
    ensures |Lru(E, h)| < E ==> forall t :: t in h ==> t in Lru(E, h)
  {
    LruIsStackPrefix(E, h);
    StackDistinct(h);
  }

  // ----- ages order the list

  ghost predicate Increasing(s: seq<Tag>, f: Tag -> int) {
    forall i, j :: 0 <= i < j < |s| ==> f(s[i]) < f(s[j])
  }

  lemma IncreasingCons(t: Tag, s: seq<Tag>, f: Tag -> int)
    ensures Increasing([t] + s, f) <==> Increasing(s, f) && forall x :: x in s ==> f(t) < f(x)
  {
    var c := [t] + s;
    if Increasing(c, f) {
      forall i, j | 0 <= i < j < |s| ensures f(s[i]) < f(s[j]) {
        assert c[i + 1] == s[i] && c[j + 1] == s[j];
      }
      forall x | x in s ensures f(t) < f(x) {
        var i :| 0 <= i < |s| && s[i] == x;
        assert c[0] == t && c[i + 1] == x;
      }
    }
  }

  lemma {:induction false} IncreasingWithout(s: seq<Tag>, f: Tag -> int, t: Tag)
    requires Increasing(s, f)
    ensures Increasing(Without(s, t), f)
  {
    if s != [] {
      assert s == [s[0]] + s[1..];
      IncreasingCons(s[0], s[1..], f);
      IncreasingWithout(s[1..], f, t);
      IncreasingCons(s[0], Without(s[1..], t), f);
    }
  }

  function AgeIn(h: seq<Tag>): Tag -> int {
    (t: Tag) => Age(h, t)
  }

  ghost predicate AgeSorted(s: seq<Tag>, h: seq<Tag>) {
    Increasing(s, AgeIn(h))
  }

  lemma AgesShift(w: seq<Tag>, h: seq<Tag>)
    requires h != [] && h[|h|-1] !in w && AgeSorted(w, h[..|h|-1])
    ensures AgeSorted(w, h)
  {
    var f, g := AgeIn(h[..|h|-1]), AgeIn(h);
    assert forall i :: 0 <= i < |w| ==> w[i] in w && g(w[i]) == 1 + f(w[i]);
  }

  /** Along the recency list the number of accesses since last use strictly grows. */
  lemma {:induction false} StackAges(h: seq<Tag>)
    ensures AgeSorted(Stack(h), h)
  {
    if h != [] {
      var init, t := h[..|h|-1], h[|h|-1];
      var w := Without(Stack(init), t);
      StackAges(init);
      IncreasingWithout(Stack(init), AgeIn(init), t);
      AgesShift(w, h);
      assert AgeIn(h)(t) == 0;
      assert forall x :: x in w ==> AgeIn(h)(x) > 0;
      IncreasingCons(t, w, AgeIn(h));
    }
  }

  /** Further down the recency list means older. */
  lemma {:induction false} LruAges(E: nat, h: seq<Tag>, i: nat, j: nat)
    requires i < j < |Lru(E, h)|
    ensures Age(h, Lru(E, h)[i]) < Age(h, Lru(E, h)[j])
  {
    LruIsStackPrefix(E, h);
    StackAges(h);
    assert AgeIn(h)(Stack(h)[i]) < AgeIn(h)(Stack(h)[j]);
  }

  /** The last entry of the recency list is the least recently used one. */
  lemma {:induction false} LastIsOldest(E: nat, h: seq<Tag>, x: Tag)
    requires x in Lru(E, h) && x != Lru(E, h)[|Lru(E, h)| - 1]
    ensures Age(h, x) < Age(h, Lru(E, h)[|Lru(E, h)| - 1])
  {
    var k :| 0 <= k < |Lru(E, h)| && Lru(E, h)[k] == x;
    LruAges(E, h, k, |Lru(E, h)| - 1);
  }

  // ----- stack inclusion and reuse distance

  /** Stack inclusion: whatever E lines hold, E + 1 lines hold as well, in the same order. */
  lemma StackInclusion(E: nat, h: seq<Tag>)
    ensures Lru(E, h) <= Lru(E + 1, h)
    ensures forall t :: t in Lru(E, h) ==> t in Lru(E + 1, h)
  {
    LruIsStackPrefix(E, h);
    LruIsStackPrefix(E + 1, h);
  }

  function Elems(s: seq<Tag>): set<Tag> {
    set x | x in s
  }

  lemma {:induction false} ElemsCard(s: seq<Tag>)
    requires Distinct(s)
    ensures |Elems(s)| == |s|
  {
    if s != [] {
      ElemsCard(s[1..]);
      assert Elems(s) == {s[0]} + Elems(s[1..]);
    }
  }

  lemma ElemsCons(t: Tag, s: seq<Tag>)
    ensures Elems([t] + s) == {t} + Elems(s)
  {
  }

  lemma PrefixCons(t: Tag, w: seq<Tag>, k: nat)
    requires 0 < k <= |w| + 1
    ensures Elems(([t] + w)[..k]) == {t} + Elems(w[..k - 1])
  {
    assert ([t] + w)[..k] == [t] + w[..k - 1];
    ElemsCons(t, w[..k - 1]);
  }

  lemma {:induction false} WithoutPosition(s: seq<Tag>, t: Tag, k: nat) returns (m: nat)
    requires k < |s| && s[k] != t
    ensures m < |Without(s, t)| && Without(s, t)[m] == s[k]
    ensures Elems(Without(s, t)[..m]) == Elems(s[..k]) - {t}
  {
    if k == 0 {
      m := 0;
    } else {
      var m' := WithoutPosition(s[1..], t, k - 1);
      var w := Without(s[1..], t);
      assert Without(s, t) == if s[0] == t then w else [s[0]] + w;
      assert s == [s[0]] + s[1..];
      hide Without, Elems;
      PrefixCons(s[0], s[1..], k);
      if s[0] == t {
        m := m';
      } else {
        m := m' + 1;
        PrefixCons(s[0], w, m);
      }
    }
  }

  /** Below the top, a place in the stack was a place in the stack before the last access. */
  lemma PlaceBefore(s: seq<Tag>, t: Tag, k: nat) returns (k': nat)
    requires Distinct(s) && k < |Without(s, t)|
    ensures k' < |s| && s[k'] == Without(s, t)[k] && Elems(Without(s, t)[..k]) == Elems(s[..k']) - {t}
  {
    WithoutDistinct(s, t);
    assert Without(s, t)[k] in Without(s, t);
    k' :| 0 <= k' < |s| && s[k'] == Without(s, t)[k];
    var m := WithoutPosition(s, t, k');
    assert m == k;
  }

  lemma {:induction false} StackNext(h: seq<Tag>)
    requires Stack(h) != []
    ensures h != []
    ensures Stack(h) == [h[|h|-1]] + Without(Stack(h[..|h|-1]), h[|h|-1])
  {
  }

  lemma SinceNext(h: seq<Tag>, x: Tag)
    requires h != []
    ensures var init, t := h[..|h|-1], h[|h|-1];
            Since(h, x) == if x == t then {} else {t} + (Since(init, x) - {t})
  {
  }

  lemma NothingAbove(s: seq<Tag>)
    ensures Elems(s[..0]) == {}
  {
  }

  /** The entries above a tag in the recency list are the tags used since its last use. */
  lemma {:induction false} SinceIsAbove(h: seq<Tag>, k: nat)
    requires k < |Stack(h)|
    ensures Since(h, Stack(h)[k]) == Elems(Stack(h)[..k])
  {
    hide Stack, Since, Without, Elems, Distinct;
    StackNext(h);
    var init, t := h[..|h|-1], h[|h|-1];
    SinceNext(h, Stack(h)[k]);
    if k == 0 {
      NothingAbove(Stack(h));
    } else {
      var s := Stack(init);
      StackDistinct(init);
      var k' := PlaceBefore(s, t, k - 1);
      SinceIsAbove(init, k');
      PrefixCons(t, Without(s, t), k);
      assert Without(s, t)[k - 1] in Without(s, t);
    }
  }

  /** Reuse distance decides hits: a tag is in the cache exactly when it was used before and fewer
      than E other tags were used since. */
  lemma {:induction false} ReuseDistance(E: nat, h: seq<Tag>, t: Tag)
    ensures t in Lru(E, h) <==> t in h && |Since(h, t)| < E
    ensures t !in Since(h, t)
  {
    LruIsStackPrefix(E, h);
    StackDistinct(h);
    if t in h {
      var k :| 0 <= k < |Stack(h)| && Stack(h)[k] == t;
      SinceIsAbove(h, k);
      ElemsCard(Stack(h)[..k]);
    }
    SinceExcludes(h, t);
  }

  lemma {:induction false} SinceExcludes(h: seq<Tag>, t: Tag)
    ensures t !in Since(h, t)
  {
    if h != [] && h[|h|-1] != t { SinceExcludes(h[..|h|-1], t); }
  }
}
