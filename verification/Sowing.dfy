/** Sowing stones round a ring of pits, one pit left out, and its closed forms. */
module Sowing {
  /** The list with element `i` replaced; as in the source, nothing for an empty list, and an index
      past the end appends. */
  function Replace<T>(xs: seq<T>, i: int, a: T): seq<T> {
    var k := if i < 0 then 0 else if i > |xs| then |xs| else i;
    if xs == [] then []
    else xs[..k] + [a] + (if k == |xs| then [] else xs[k + 1..])
  }

  lemma ReplaceInRange<T>(xs: seq<T>, i: int, a: T)
    requires 0 <= i < |xs|
    ensures Replace(xs, i, a) == xs[i := a]
  {
  }

  /** From position `i`, one stone into each next position round the ring, position `j` skipped. */
  function PlaceStones(pits: seq<int>, i: int, j: int, n: nat): (r: seq<int>)
    requires |pits| >= 2 && n >= 1
    ensures |r| == |pits|
    decreases n, if (i + 1) % |pits| == j then 1 else 0
  {
    var next := (i + 1) % |pits|;
    ReplaceInRange(pits, next, pits[next] + 1);
    if next == j then PlaceStones(pits, next, j, n)
    else if n == 1 then Replace(pits, next, pits[next] + 1)
    else PlaceStones(Replace(pits, next, pits[next] + 1), next, j, n - 1)
  }

  /** Where the last of `n` stones is said to land. */
  function LandIndex(l: int, i: int, j: int, n: nat): int
    requires l >= 2
  {
    var x := n % (l - 1);
    if x >= (j - i) % l then (i + x + 1) % l else (i + x) % l
  }

  // ----- where the stones fall

  /** The positions in the order the stones fall, by the recursion of `PlaceStones`. */
  function Drops(l: int, i: int, j: int, n: nat): (ps: seq<int>)
    requires l >= 2
    ensures |ps| == n
    decreases n, if (i + 1) % l == j then 1 else 0
  {
    var next := (i + 1) % l;
    if n == 0 then []
    else if next == j then Drops(l, next, j, n)
    else [next] + Drops(l, next, j, n - 1)
  }

  function Count(ps: seq<int>, p: int): nat {
    if ps == [] then 0 else (if ps[0] == p then 1 else 0) + Count(ps[1..], p)
  }

  lemma {:induction false} CountCons(x: int, ps: seq<int>, p: int)
    ensures Count([x] + ps, p) == (if x == p then 1 else 0) + Count(ps, p)
  {
    assert ([x] + ps)[1..] == ps;
  }

  lemma PlaceOne(pits: seq<int>, i: int, j: int, n: nat)
    requires |pits| >= 2 && n >= 1 && (i + 1) % |pits| != j
    ensures var l, next := |pits|, (i + 1) % |pits|;
            var pits' := pits[next := pits[next] + 1];
            && PlaceStones(pits, i, j, n) == (if n == 1 then pits' else PlaceStones(pits', next, j, n - 1))
            && Drops(l, i, j, n) == [next] + Drops(l, next, j, n - 1)
  {
    var next := (i + 1) % |pits|;
    ReplaceInRange(pits, next, pits[next] + 1);
  }

  lemma {:induction false} PlaceSkip(pits: seq<int>, i: int, j: int, n: nat)
    requires |pits| >= 2 && n >= 1 && (i + 1) % |pits| == j
    ensures PlaceStones(pits, i, j, n) == PlaceStones(pits, j, j, n)
    ensures Drops(|pits|, i, j, n) == Drops(|pits|, j, j, n)
  {
  }

  /** Placing stones adds to each position as many stones as fall there. */
  lemma {:induction false} PlacedAreDrops(pits: seq<int>, i: int, j: int, n: nat, p: int)
    requires |pits| >= 2 && n >= 1 && 0 <= p < |pits|
    ensures PlaceStones(pits, i, j, n)[p] == pits[p] + Count(Drops(|pits|, i, j, n), p)
    decreases n, if (i + 1) % |pits| == j then 1 else 0
  {
    hide PlaceStones, Drops;
    var l := |pits|;
    var next := (i + 1) % l;
    if next == j {
      PlacedAreDrops(pits, next, j, n, p);
      PlaceSkip(pits, i, j, n);
    } else {
      PlaceOne(pits, i, j, n);
      CountCons(next, Drops(l, next, j, n - 1), p);
      if n > 1 { PlacedAreDrops(pits[next := pits[next] + 1], next, j, n - 1, p); }
    }
  }

  // ----- modular arithmetic

  lemma ModSmall(x: int, l: int)
    requires l > 0 && 0 <= x < 2 * l
    ensures x % l == if x < l then x else x - l
  {
  }

  lemma AtLeastOnce(x: int, q: int)
    requires x >= 1 && q > 0
    ensures x * q >= q
  {
    assert x * q == (x - 1) * q + q;
    assert (x - 1) * q >= 0;
  }

  lemma DivModIs(n: int, q: int, a: int, b: int)
    requires q > 0 && n == a * q + b && 0 <= b < q
    ensures n / q == a && n % q == b
  {
    var a', b' := n / q, n % q;
    var d := a' - a;
    assert d * q == b - b' by {
      assert n == a' * q + b';
      assert a' * q - a * q == d * q;
    }
    if d > 0 { AtLeastOnce(d, q); }
    if d < 0 { AtLeastOnce(-d, q); }
  }

  lemma DivModStep(n: int, q: int)
    requires n >= 1 && q >= 1
    ensures (n - 1) % q == q - 1 ==> n / q == (n - 1) / q + 1 && n % q == 0
    ensures (n - 1) % q < q - 1 ==> n / q == (n - 1) / q && n % q == (n - 1) % q + 1
  {
    var a, b := (n - 1) / q, (n - 1) % q;
    assert n - 1 == a * q + b;
    if b == q - 1 {
      assert (a + 1) * q == a * q + q;
      DivModIs(n, q, a + 1, 0);
    } else {
      DivModIs(n, q, a, b + 1);
    }
  }

  // ----- the k-th stone

  ghost predicate Ring(l: int, i: int, j: int) {
    l >= 2 && 0 <= i < l && 0 <= j < l
  }

  /** How many steps after `i` position `p` is, from 1 to l. */
  function Ahead(l: int, i: int, p: int): int {
    if p > i then p - i else p - i + l
  }

  /** The place of stone `k` (from 1) in its round, from 1 to l - 1. */
  function InRound(l: int, k: nat): int
    requires l >= 2 && k >= 1
  {
    (k - 1) % (l - 1) + 1
  }

  /** Where stone `k` falls: positions before the skipped one are reached in as many steps, those
      behind it in one more. */
  function Nth(l: int, i: int, j: int, k: nat): int
    requires l >= 2 && k >= 1
  {
    var m := InRound(l, k);
    if m < Ahead(l, i, j) then (i + m) % l else (i + m + 1) % l
  }

  lemma InRoundStep(l: int, k: nat)
    requires l >= 2 && k >= 2
    ensures InRound(l, k) == if InRound(l, k - 1) == l - 1 then 1 else InRound(l, k - 1) + 1
    ensures 1 <= InRound(l, k) <= l - 1 && 1 <= InRound(l, k - 1) <= l - 1
  {
    DivModStep(k - 1, l - 1);
  }

  lemma NthFromNext(l: int, i: int, j: int, k: nat)
    requires Ring(l, i, j) && k >= 2 && (i + 1) % l != j
    ensures Nth(l, i, j, k) == Nth(l, (i + 1) % l, j, k - 1)
  {
    var m, m' := InRound(l, k), InRound(l, k - 1);
    InRoundStep(l, k);
    ModSmall(i + 1, l);
    var next := (i + 1) % l;
    ModSmall(i + m, l);
    ModSmall(i + m + 1, l);
    ModSmall(next + m', l);
    ModSmall(next + m' + 1, l);
  }

  lemma NthFromSkipped(l: int, i: int, j: int, k: nat)
    requires Ring(l, i, j) && k >= 1 && (i + 1) % l == j
    ensures Nth(l, i, j, k) == Nth(l, j, j, k)
  {
    var m := InRound(l, k);
    assert 1 <= m <= l - 1;
    ModSmall(i + 1, l);
    ModSmall(i + m + 1, l);
    ModSmall(j + m, l);
  }

  /** Stone by stone the recursion follows the closed form. */
  lemma {:induction false} DropsAreNth(l: int, i: int, j: int, n: nat, k: nat)
    requires Ring(l, i, j) && 1 <= k <= n
    ensures Drops(l, i, j, n)[k - 1] == Nth(l, i, j, k)
    decreases n, if (i + 1) % l == j then 1 else 0
  {
    var next := (i + 1) % l;
    ModSmall(i + 1, l);
    if next == j {
      DropsAreNth(l, next, j, n, k);
      NthFromSkipped(l, i, j, k);
    } else if k == 1 {
      assert InRound(l, 1) == 1;
    } else {
      DropsAreNth(l, next, j, n - 1, k - 1);
      NthFromNext(l, i, j, k);
    }
  }

  lemma ModShift(x: int, l: int)
    requires l > 0 && -l < x < 0
    ensures x % l == x + l
  {
    DivModIs(x, l, -1, x + l);
  }

  lemma SkippedAhead(l: int, i: int, j: int)
    requires Ring(l, i, j) && i != j
    ensures (j - i) % l == Ahead(l, i, j) && 1 <= Ahead(l, i, j) <= l - 1
  {
    if j < i { ModShift(j - i, l); } else { ModSmall(j - i, l); }
  }

  lemma {:induction false} LandIsLastDrop(l: int, i: int, j: int, n: nat)
    requires Ring(l, i, j) && i != j && n >= 1
    ensures LandIndex(l, i, j, n) == Drops(l, i, j, n)[n - 1]
  {
    DropsAreNth(l, i, j, n, n);
    SkippedAhead(l, i, j);
    DivModStep(n, l - 1);
    var x, m := n % (l - 1), InRound(l, n);
    if m == l - 1 {
      assert x == 0;
      ModSmall(i, l);
      ModSmall(i + l, l);
      assert LandIndex(l, i, j, n) == i == Nth(l, i, j, n);
    } else {
      assert x == m;
    }
  }

  /** The pits after `n` stones, none of them for n == 0. */
  function Sown(pits: seq<int>, i: int, j: int, n: nat): (r: seq<int>)
    requires |pits| >= 2
    ensures |r| == |pits|
  {
    if n == 0 then pits else PlaceStones(pits, i, j, n)
  }

  function OneMore(pits: seq<int>, p: int): seq<int>
    requires 0 <= p < |pits|
  {
    pits[p := pits[p] + 1]
  }

  lemma OneMoreTells(pits: seq<int>, p: int, q: int)
    requires 0 <= p < |pits| && 0 <= q < |pits|
    ensures OneMore(pits, p)[q] == pits[q] + if p == q then 1 else 0
    ensures OneMore(pits, p) == OneMore(pits, q) <==> p == q
  {
    if p != q { assert OneMore(pits, p)[p] != OneMore(pits, q)[p]; }
  }

  lemma SownNext(pits: seq<int>, i: int, j: int, n: nat)
    requires |pits| >= 2 && n >= 1 && (i + 1) % |pits| != j
    ensures Sown(pits, i, j, n) == Sown(OneMore(pits, (i + 1) % |pits|), (i + 1) % |pits|, j, n - 1)
  {
    PlaceOne(pits, i, j, n);
  }

  /** The last of `n` stones goes where the recursion drops it; the others are placed as without it. */
  lemma {:induction false} LastStoneDrops(pits: seq<int>, i: int, j: int, n: nat)
    requires |pits| >= 2 && n >= 1
    ensures var d := Drops(|pits|, i, j, n)[n - 1];
            0 <= d < |pits| && Sown(pits, i, j, n) == OneMore(Sown(pits, i, j, n - 1), d)
    decreases n, if (i + 1) % |pits| == j then 1 else 0
  {
    hide PlaceStones, Drops;
    var next := (i + 1) % |pits|;
    if next == j {
      LastStoneDrops(pits, next, j, n);
      PlaceSkip(pits, i, j, n);
      if n > 1 { PlaceSkip(pits, i, j, n - 1); }
    } else {
      SownNext(pits, i, j, n);
      PlaceOne(pits, i, j, n);
      if n > 1 {
        LastStoneDrops(OneMore(pits, next), next, j, n - 1);
        SownNext(pits, i, j, n - 1);
      }
    }
  }

  /** Stone k goes to the k-th position of the closed form: the sowing of k stones is the sowing of
      k - 1 with one more stone there. */
  lemma KthStone(pits: seq<int>, i: int, j: int, k: nat)
    requires Ring(|pits|, i, j) && k >= 1
    ensures var p := Nth(|pits|, i, j, k);
            0 <= p < |pits| && Sown(pits, i, j, k) == OneMore(Sown(pits, i, j, k - 1), p)
  {
    LastStoneDrops(pits, i, j, k);
    DropsAreNth(|pits|, i, j, k, k);
  }

  /** Closed-form landing: on a ring of at least two positions and from a start that is not the
      skipped position, the formula gives the position where the sowing puts its last stone. */
  lemma {:induction false} LandsWhereSown(pits: seq<int>, i: int, j: int, n: nat)
    requires Ring(|pits|, i, j) && i != j && n >= 1
    ensures var p := LandIndex(|pits|, i, j, n);
            0 <= p < |pits| && PlaceStones(pits, i, j, n) == OneMore(Sown(pits, i, j, n - 1), p)
  {
    LastStoneDrops(pits, i, j, n);
    LandIsLastDrop(|pits|, i, j, n);
  }

  // ----- how many stones fall where

  /** The positions from i + 1 to i + k round the ring, the skipped one left out. */
  function Round(l: int, i: int, j: int, k: nat): seq<int>
    requires l >= 2
  {
    if k == 0 then []
    else if (i + k) % l == j then Round(l, i, j, k - 1)
    else Round(l, i, j, k - 1) + [(i + k) % l]
  }

  /** The m-th position of a round is where stone m falls; a whole round has l - 1 positions. */
  lemma {:induction false} RoundIsNth(l: int, i: int, j: int, k: nat)
    requires Ring(l, i, j) && k <= l
    ensures |Round(l, i, j, k)| == if k < Ahead(l, i, j) then k else k - 1
    ensures forall m :: 0 <= m < |Round(l, i, j, k)| && m < l - 1 ==> Round(l, i, j, k)[m] == Nth(l, i, j, m + 1)
  {
    if k > 0 {
      RoundIsNth(l, i, j, k - 1);
      var d := Ahead(l, i, j);
      ModSmall(i + k, l);
      assert (i + k) % l == j <==> k == d;
      var r := Round(l, i, j, k - 1);
      var m := |r| + 1;
      if k != d && m <= l - 1 {
        ModSmall(m - 1, l - 1);
        assert InRound(l, m) == m;
      }
    }
  }

  /** The place of position `p` in the round. */
  function Rank(l: int, i: int, j: int, p: int): int {
    if Ahead(l, i, p) < Ahead(l, i, j) then Ahead(l, i, p) else Ahead(l, i, p) - 1
  }

  lemma NthIsRank(l: int, i: int, j: int, p: int, k: nat)
    requires Ring(l, i, j) && i != j && 0 <= p < l && p != j && k >= 1
    ensures 1 <= Rank(l, i, j, p) <= l - 1
    ensures Nth(l, i, j, k) == p <==> InRound(l, k) == Rank(l, i, j, p)
  {
    var m := InRound(l, k);
    assert 1 <= m <= l - 1;
    ModSmall(i + m, l);
    ModSmall(i + m + 1, l);
  }

  /** A position is among the first x of its round exactly when its rank is at most x. */
  lemma {:induction false} InFirst(l: int, i: int, j: int, p: int, x: nat)
    requires Ring(l, i, j) && i != j && 0 <= p < l && p != j && x <= l - 1
    ensures |Round(l, i, j, l)| == l - 1
    ensures p in Round(l, i, j, l)[..x] <==> Rank(l, i, j, p) <= x
  {
    var r, k := Round(l, i, j, l), Rank(l, i, j, p);
    RoundIsNth(l, i, j, l);
    SkippedAhead(l, i, j);
    NthIsRank(l, i, j, p, 1);
    forall m | 0 <= m < l - 1 ensures r[m] == p <==> m + 1 == k { RoundPlace(l, i, j, p, m); }
    if k <= x { assert r[..x][k - 1] == p; }
  }

  lemma {:induction false} RoundPlace(l: int, i: int, j: int, p: int, m: nat)
    requires Ring(l, i, j) && i != j && 0 <= p < l && p != j && m < l - 1
    ensures |Round(l, i, j, l)| == l - 1
    ensures Round(l, i, j, l)[m] == p <==> m + 1 == Rank(l, i, j, p)
  {
    RoundIsNth(l, i, j, l);
    SkippedAhead(l, i, j);
    NthIsRank(l, i, j, p, m + 1);
    ModSmall(m, l - 1);
  }

  lemma {:induction false} CountSnoc(ps: seq<int>, x: int, p: int)
    ensures Count(ps + [x], p) == Count(ps, p) + if x == p then 1 else 0
  {
    if ps == [] {
      CountCons(x, [], p);
      assert ps + [x] == [x] + [];
    } else {
      CountSnoc(ps[1..], x, p);
      assert (ps + [x])[1..] == ps[1..] + [x];
    }
  }

  lemma DropsLast(l: int, i: int, j: int, n: nat, p: int)
    requires Ring(l, i, j) && n >= 1
    ensures Count(Drops(l, i, j, n), p) ==
            Count(Drops(l, i, j, n - 1), p) + if Nth(l, i, j, n) == p then 1 else 0
  {
    var ps, qs := Drops(l, i, j, n), Drops(l, i, j, n - 1);
    forall k | 0 <= k < n ensures ps[k] == Nth(l, i, j, k + 1) { DropsAreNth(l, i, j, n, k + 1); }
    forall k | 0 <= k < n - 1 ensures qs[k] == Nth(l, i, j, k + 1) { DropsAreNth(l, i, j, n - 1, k + 1); }
    assert ps == qs + [Nth(l, i, j, n)];
    CountSnoc(qs, Nth(l, i, j, n), p);
  }

  lemma {:induction false} CountByRank(l: int, i: int, j: int, n: nat, p: int)
    requires Ring(l, i, j) && i != j && 0 <= p < l && p != j
    ensures Count(Drops(l, i, j, n), p) == n / (l - 1) + if Rank(l, i, j, p) <= n % (l - 1) then 1 else 0
  {
    NthIsRank(l, i, j, p, 1);
    if n > 0 {
      CountByRank(l, i, j, n - 1, p);
      DropsLast(l, i, j, n, p);
      NthIsRank(l, i, j, p, n);
      DivModStep(n, l - 1);
    } else {
      DivModIs(0, l - 1, 0, 0);
    }
  }

  lemma {:induction false} SkippedGetsNone(l: int, i: int, j: int, n: nat)
    requires l >= 2
    ensures Count(Drops(l, i, j, n), j) == 0
    decreases n, if (i + 1) % l == j then 1 else 0
  {
    var next := (i + 1) % l;
    if n > 0 {
      if next == j { SkippedGetsNone(l, next, j, n); }
      else {
        SkippedGetsNone(l, next, j, n - 1);
        CountCons(next, Drops(l, next, j, n - 1), j);
      }
    }
  }

  /** Closed-form sowing: every position but the skipped one gains one stone for each whole round, and
      one more if it is among the first of the last round; the skipped one gains none. */
  lemma {:induction false} SownByRounds(pits: seq<int>, i: int, j: int, n: nat, p: int)
    requires Ring(|pits|, i, j) && i != j && n >= 1 && 0 <= p < |pits|
    ensures var l := |pits|;
            var x := n % (l - 1);
            && 0 <= x <= |Round(l, i, j, l)| == l - 1
            && PlaceStones(pits, i, j, n)[p] ==
               if p == j then pits[p]
               else pits[p] + n / (l - 1) + if p in Round(l, i, j, l)[..x] then 1 else 0
  {
    var l := |pits|;
    PlacedAreDrops(pits, i, j, n, p);
    RoundIsNth(l, i, j, l);
    SkippedAhead(l, i, j);
    if p == j {
      SkippedGetsNone(l, i, j, n);
    } else {
      CountByRank(l, i, j, n, p);
      InFirst(l, i, j, p, n % (l - 1));
    }
  }

  // ----- conservation

  function Total(xs: seq<int>): int {
    if xs == [] then 0 else xs[0] + Total(xs[1..])
  }

  lemma {:induction false} TotalUpdate(xs: seq<int>, i: nat, a: int)
    requires i < |xs|
    ensures Total(xs[i := a]) == Total(xs) - xs[i] + a
  {
    if i > 0 {
      TotalUpdate(xs[1..], i - 1, a);
      assert xs[i := a][1..] == xs[1..][i - 1 := a];
    } else {
      assert xs[0 := a][1..] == xs[1..];
    }
  }

  lemma {:induction false} PlacingAddsAll(pits: seq<int>, i: int, j: int, n: nat)
    requires |pits| >= 2 && n >= 1
    ensures Total(PlaceStones(pits, i, j, n)) == Total(pits) + n
    decreases n, if (i + 1) % |pits| == j then 1 else 0
  {
    var next := (i + 1) % |pits|;
    ReplaceInRange(pits, next, pits[next] + 1);
    TotalUpdate(pits, next, pits[next] + 1);
    if next == j { PlacingAddsAll(pits, next, j, n); }
    else if n > 1 { PlacingAddsAll(pits[next := pits[next] + 1], next, j, n - 1); }
  }
}
