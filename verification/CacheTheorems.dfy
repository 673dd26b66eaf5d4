/** Laws of the counters over arbitrary traces. */
module CacheTheorems {
  import opened Recency
  import opened CacheTrace

  // ----- sums over the sets of a cache

  function Sum(n: nat, f: nat -> int): int {
    if n == 0 then 0 else Sum(n - 1, f) + f(n - 1)
  }

  /** Sums that differ at one point only. */
  lemma {:induction false} SumUpdate(n: nat, f: nat -> int, g: nat -> int, k: nat)
    requires forall i: nat :: i != k ==> f(i) == g(i)
    ensures Sum(n, g) == Sum(n, f) + if k < n then g(k) - f(k) else 0
  {
    if n > 0 { SumUpdate(n - 1, f, g, k); }
  }

  lemma {:induction false} SumZero(n: nat, f: nat -> int)
    requires forall i: nat :: f(i) == 0
    ensures Sum(n, f) == 0
  {
    if n > 0 { SumZero(n - 1, f); }
  }

  lemma {:induction false} SumBound(n: nat, f: nat -> int, b: nat)
    requires forall i: nat :: f(i) <= b
    ensures Sum(n, f) <= n * b
  {
    if n > 0 { SumBound(n - 1, f, b); }
  }

  lemma CostCases(E: nat, r: seq<Tag>, op: char, t: Tag)
    ensures var c := Cost(E, r, op, t);
            && c.misses == (if t in r then 0 else 1)
            && c.evictions == (if t in r || |r| < E then 0 else 1)
            && c.hits + c.misses == if op == 'M' then 2 else 1
  {
  }

  // ----- reuse distance and associativity

  /** An access misses exactly unless its tag was used before in its set with fewer than E other tags
      of that set used since. */
  lemma {:induction false} MissByReuseDistance(E: nat, tr: seq<Entry>, e: Entry)
    requires e.op != 'I'
    ensures var h := History(tr, e.index);
            EntryCost(E, tr, e).misses == if e.tag in h && |Since(h, e.tag)| < E then 0 else 1
  {
    var h := History(tr, e.index);
    ReuseDistance(E, h, e.tag);
    CostCases(E, Lru(E, h), e.op, e.tag);
  }

  /** More lines per set never lose a hit and never add a miss. */
  lemma {:induction false} MoreLinesNeverHurt(E: nat, tr: seq<Entry>)
    ensures Totals(E, tr).hits <= Totals(E + 1, tr).hits
    ensures Totals(E, tr).misses >= Totals(E + 1, tr).misses
  {
    if tr != [] {
      var init, e := tr[..|tr|-1], tr[|tr|-1];
      MoreLinesNeverHurt(E, init);
      var h := History(init, e.index);
      StackInclusion(E, h);
      CostCases(E, Lru(E, h), e.op, e.tag);
      CostCases(E + 1, Lru(E + 1, h), e.op, e.tag);
      var c, c' := EntryCost(E, init, e), EntryCost(E + 1, init, e);
      assert c.hits <= c'.hits && c.misses >= c'.misses;
    }
  }

  // ----- conservation

  /** The accesses a trace makes: one for a load or store, two for a modify, none for a fetch. */
  function Accesses(tr: seq<Entry>): nat {
    if tr == [] then 0
    else Accesses(tr[..|tr|-1]) + match tr[|tr|-1].op { case 'I' => 0 case 'M' => 2 case _ => 1 }
  }

  function Held(E: nat, tr: seq<Entry>): nat -> int {
    (s: nat) => |Lru(E, History(tr, s))|
  }

  ghost predicate InRange(tr: seq<Entry>, S: nat) {
    forall e :: e in tr && e.op != 'I' ==> e.index < S
  }

  lemma {:induction false} HitsPlusMisses(E: nat, tr: seq<Entry>)
    ensures Totals(E, tr).hits + Totals(E, tr).misses == Accesses(tr)
  {
    if tr != [] {
      var init, e := tr[..|tr|-1], tr[|tr|-1];
      HitsPlusMisses(E, init);
      var c := EntryCost(E, init, e);
      assert c.hits + c.misses == match e.op { case 'I' => 0 case 'M' => 2 case _ => 1 };
    }
  }

  /** One access changes how many lines of its set are valid by its misses minus its evictions. */
  lemma {:induction false} TouchSize(E: nat, h: seq<Tag>, op: char, t: Tag)
    requires E > 0
    ensures var c := Cost(E, Lru(E, h), op, t);
            |Touch(E, Lru(E, h), t)| == |Lru(E, h)| + c.misses - c.evictions
  {
    var r := Lru(E, h);
    LruDistinct(E, h);
    WithoutDistinct(r, t);
    CostCases(E, r, op, t);
    var n := |Without(r, t)|;
    assert n == if t in r then |r| - 1 else |r|;
    assert |Touch(E, r, t)| == if n + 1 <= E then n + 1 else E;
  }

  lemma {:induction false} HeldStep(E: nat, S: nat, tr: seq<Entry>, e: Entry)
    requires E > 0 && (e.op != 'I' ==> e.index < S)
    ensures var c := EntryCost(E, tr, e);
            Sum(S, Held(E, tr + [e])) == Sum(S, Held(E, tr)) + c.misses - c.evictions
  {
    var f, g := Held(E, tr), Held(E, tr + [e]);
    forall s: nat ensures e.op == 'I' || s != e.index ==> f(s) == g(s) {
      HistoryAppend(tr, e, s);
    }
    SumUpdate(S, f, g, e.index);
    if e.op != 'I' {
      var h := History(tr, e.index);
      HistoryAppend(tr, e, e.index);
      LruAppend(E, h, e.tag);
      TouchSize(E, h, e.op, e.tag);
    }
  }

  /** Misses minus evictions is the number of valid lines in the whole cache, which never exceeds its
      capacity. */
  lemma {:induction false} MissesMinusEvictions(E: nat, S: nat, tr: seq<Entry>)
    requires E > 0 && InRange(tr, S)
    ensures Totals(E, tr).misses - Totals(E, tr).evictions == Sum(S, Held(E, tr))
    ensures Sum(S, Held(E, tr)) <= S * E
  {
    if tr == [] {
      SumZero(S, Held(E, tr));
    } else {
      var init, e := tr[..|tr|-1], tr[|tr|-1];
      assert tr == init + [e];
      MissesMinusEvictions(E, S, init);
      HeldStep(E, S, init, e);
    }
    forall s: nat ensures Held(E, tr)(s) <= E { LruDistinct(E, History(tr, s)); }
    SumBound(S, Held(E, tr), E);
  }

  // ----- trace transformations

  /** Every modify written as a load followed by a store of the same address. */
  function Expanded(tr: seq<Entry>): seq<Entry> {
    if tr == [] then []
    else
      var e := tr[|tr|-1];
      Expanded(tr[..|tr|-1]) + if e.op == 'M' then [e.(op := 'L'), e.(op := 'S')] else [e]
  }

  function WithoutFetches(tr: seq<Entry>): seq<Entry> {
    if tr == [] then []
    else
      var e := tr[|tr|-1];
      WithoutFetches(tr[..|tr|-1]) + if e.op == 'I' then [] else [e]
  }

  function ForSet(tr: seq<Entry>, index: nat): seq<Entry> {
    if tr == [] then []
    else
      var e := tr[|tr|-1];
      ForSet(tr[..|tr|-1], index) + if e.index == index then [e] else []
  }

  lemma TouchAgain(E: nat, r: seq<Tag>, t: Tag)
    requires E > 0 && |r| <= E && Distinct(r)
    ensures t in Touch(E, r, t)
    ensures Touch(E, Touch(E, r, t), t) == Touch(E, r, t)
  {
    TakeCons(t, Without(r, t), E);
    var q := Take(Without(r, t), E - 1);
    assert t !in q;
    assert Without([t] + q, t) == q by { assert ([t] + q)[1..] == q; }
    TakeCons(t, q, E);
  }

  /** A modify costs what its load and its store cost together. */
  lemma ModifyCost(E: nat, tr: seq<Entry>, e: Entry)
    requires E > 0 && e.op == 'M'
    ensures var l, s := e.(op := 'L'), e.(op := 'S');
            EntryCost(E, tr, e) == EntryCost(E, tr, l).Plus(EntryCost(E, tr + [l], s))
  {
    var l, s := e.(op := 'L'), e.(op := 'S');
    var h := History(tr, e.index);
    var r := Lru(E, h);
    LruDistinct(E, h);
    TouchAgain(E, r, e.tag);
    LruAppend(E, h, e.tag);
    HistoryAppend(tr, l, e.index);
    assert EntryCost(E, tr + [l], s) == Counts(1, 0, 0);
  }

  /** A modify leaves the recency lists its load and its store leave. */
  lemma {:induction false} ModifyRecency(E: nat, tr: seq<Entry>, e: Entry, i: nat)
    requires E > 0 && e.op == 'M'
    ensures Lru(E, History(tr + [e.(op := 'L')] + [e.(op := 'S')], i)) == Lru(E, History(tr + [e], i))
  {
    var l, s := e.(op := 'L'), e.(op := 'S');
    var h := History(tr, i);
    HistoryAppend(tr, l, i);
    HistoryAppend(tr + [l], s, i);
    HistoryAppend(tr, e, i);
    if e.index == i {
      LruDistinct(E, h);
      TouchAgain(E, Lru(E, h), e.tag);
      LruAppend(E, h, e.tag);
      LruAppend(E, h + [e.tag], e.tag);
    }
  }

  /** Two traces with the same recency lists stay alike under the same next entry. */
  ghost predicate Alike(E: nat, tr: seq<Entry>, tr': seq<Entry>) {
    && Totals(E, tr) == Totals(E, tr')
    && forall i: nat :: Lru(E, History(tr, i)) == Lru(E, History(tr', i))
  }

  lemma AlikeStep(E: nat, tr: seq<Entry>, tr': seq<Entry>, e: Entry)
    requires Alike(E, tr, tr')
    ensures Alike(E, tr + [e], tr' + [e])
  {
    TotalsAppend(E, tr, e);
    TotalsAppend(E, tr', e);
    forall i: nat ensures Lru(E, History(tr + [e], i)) == Lru(E, History(tr' + [e], i)) {
      HistoryAppend(tr, e, i);
      HistoryAppend(tr', e, i);
      LruAppend(E, History(tr, i), e.tag);
      LruAppend(E, History(tr', i), e.tag);
    }
  }

  lemma PlusAssociates(a: Counts, b: Counts, c: Counts)
    ensures a.Plus(b).Plus(c) == a.Plus(b.Plus(c))
  {
  }

  /** A modify adds to the totals what its load and its store add. */
  lemma {:induction false} PairTotals(E: nat, tr: seq<Entry>, l: Entry, s: Entry, e: Entry)
    requires E > 0 && e.op == 'M' && l == e.(op := 'L') && s == e.(op := 'S')
    ensures Totals(E, tr + [l] + [s]) == Totals(E, tr + [e])
  {
    ModifyCost(E, tr, e);
    var a, b := EntryCost(E, tr, l), EntryCost(E, tr + [l], s);
    TotalsAppend(E, tr, l);
    TotalsAppend(E, tr + [l], s);
    TotalsAppend(E, tr, e);
    PlusAssociates(Totals(E, tr), a, b);
  }

  lemma PairIsModify(E: nat, tr: seq<Entry>, l: Entry, s: Entry, e: Entry)
    requires E > 0 && e.op == 'M' && l == e.(op := 'L') && s == e.(op := 'S')
    ensures Alike(E, tr + [l] + [s], tr + [e])
  {
    PairTotals(E, tr, l, s, e);
    forall i: nat ensures Lru(E, History(tr + [l] + [s], i)) == Lru(E, History(tr + [e], i)) {
      ModifyRecency(E, tr, e, i);
    }
  }

  /** Writing modifies out as loads and stores changes no counter and no recency list. */
  lemma {:induction false} ExpandingModifies(E: nat, tr: seq<Entry>)
    requires E > 0
    ensures Alike(E, Expanded(tr), tr)
  {
    if tr != [] {
      var init, e := tr[..|tr|-1], tr[|tr|-1];
      assert tr == init + [e];
      ExpandingModifies(E, init);
      var x := Expanded(init);
      AlikeStep(E, x, init, e);
      if e.op == 'M' {
        var l, s := e.(op := 'L'), e.(op := 'S');
        assert Expanded(tr) == x + [l] + [s] by { assert x + [l, s] == x + [l] + [s]; }
        PairIsModify(E, x, l, s, e);
      }
    }
  }

  lemma PlusZero(c: Counts)
    ensures c.Plus(ZERO) == c
  {
  }

  lemma {:induction false} FetchCosts(E: nat, tr: seq<Entry>, e: Entry)
    requires e.op == 'I'
    ensures Totals(E, tr + [e]) == Totals(E, tr)
  {
    TotalsAppend(E, tr, e);
    PlusZero(Totals(E, tr));
  }

  lemma FetchIsFree(E: nat, tr: seq<Entry>, e: Entry)
    requires e.op == 'I'
    ensures Alike(E, tr + [e], tr)
  {
    FetchCosts(E, tr, e);
    forall i: nat ensures History(tr + [e], i) == History(tr, i) { HistoryAppend(tr, e, i); }
  }

  /** Erasing instruction fetches changes no counter and no recency list. */
  lemma {:induction false} ErasingFetches(E: nat, tr: seq<Entry>)
    ensures Alike(E, WithoutFetches(tr), tr)
  {
    if tr != [] {
      var init, e := tr[..|tr|-1], tr[|tr|-1];
      assert tr == init + [e];
      ErasingFetches(E, init);
      if e.op == 'I' {
        FetchIsFree(E, init, e);
        assert WithoutFetches(tr) == WithoutFetches(init);
      } else {
        AlikeStep(E, WithoutFetches(init), init, e);
      }
    }
  }

  // ----- the sets are independent

  lemma {:induction false} HistoryForSet(tr: seq<Entry>, i: nat)
    ensures History(ForSet(tr, i), i) == History(tr, i)
  {
    if tr != [] {
      var init, e := tr[..|tr|-1], tr[|tr|-1];
      HistoryForSet(init, i);
      HistoryAppend(ForSet(init, i), e, i);
      assert ForSet(init, i) + [] == ForSet(init, i);
    }
  }

  datatype Counter = Hits | Misses | Evictions

  function Count(c: Counts, k: Counter): nat {
    match k case Hits => c.hits case Misses => c.misses case Evictions => c.evictions
  }

  function PerSet(E: nat, tr: seq<Entry>, k: Counter): nat -> int {
    (s: nat) => Count(Totals(E, ForSet(tr, s)), k)
  }

  /** Each counter is the sum, over the sets, of simulating the part of the trace that maps there. */
  lemma {:induction false} TotalsSumOverSets(E: nat, S: nat, tr: seq<Entry>, k: Counter)
    requires InRange(tr, S)
    ensures Count(Totals(E, tr), k) == Sum(S, PerSet(E, tr, k))
  {
    if tr == [] {
      SumZero(S, PerSet(E, tr, k));
    } else {
      var init, e := tr[..|tr|-1], tr[|tr|-1];
      TotalsSumOverSets(E, S, init, k);
      var f, g := PerSet(E, init, k), PerSet(E, tr, k);
      forall s: nat ensures f(s) + (if s == e.index then Count(EntryCost(E, init, e), k) else 0) == g(s) {
        TotalsAppend(E, ForSet(init, s), e);
        HistoryForSet(init, s);
        assert ForSet(init, s) + [] == ForSet(init, s);
      }
      SumUpdate(S, f, g, e.index);
    }
  }
}
