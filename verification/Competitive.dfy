/** LRU against every other demand replacement policy. */
module Competitive {
  import opened Recency
  import opened CacheTrace
  import opened CacheTheorems

  // ----- what another policy may do

  /** A demand policy changes nothing on a hit; on a miss it loads the tag, into a free line or in
      place of one tag of its choice. */
  ghost predicate DemandStep(E: nat, c: set<Tag>, t: Tag, c': set<Tag>) {
    if t in c then c' == c
    else
      || (|c| < E && c' == c + {t})
      || exists v :: v in c && c' == c - {v} + {t}
  }

  /** One trace entry: only the set it maps to changes, and an instruction fetch changes none. */
  ghost predicate PolicyStep(E: nat, S: nat, cs: seq<set<Tag>>, e: Entry, cs': seq<set<Tag>>) {
    && |cs| == |cs'| == S
    && (e.op != 'I' ==> e.index < S && DemandStep(E, cs[e.index], e.tag, cs'[e.index]))
    && forall s :: 0 <= s < S && (e.op == 'I' || s != e.index) ==> cs'[s] == cs[s]
  }

  /** `run[k]` is what each of the S sets of the other cache holds after k trace entries; all start
      empty. */
  ghost predicate PolicyRun(E: nat, S: nat, tr: seq<Entry>, run: seq<seq<set<Tag>>>) {
    && |run| == |tr| + 1
    && if tr == [] then |run[0]| == S && forall s :: 0 <= s < S ==> run[0][s] == {}
       else PolicyRun(E, S, tr[..|tr|-1], run[..|tr|]) && PolicyStep(E, S, run[|tr|-1], tr[|tr|-1], run[|tr|])
  }

  function MissOf(cs: seq<set<Tag>>, e: Entry): nat {
    if e.op != 'I' && e.index < |cs| && e.tag !in cs[e.index] then 1 else 0
  }

  function PolicyMisses(tr: seq<Entry>, run: seq<seq<set<Tag>>>): nat
    requires |run| == |tr| + 1
  {
    if tr == [] then 0
    else PolicyMisses(tr[..|tr|-1], run[..|tr|]) + MissOf(run[|tr|-1], tr[|tr|-1])
  }

  /** LRU is itself one of these policies. */
  lemma {:induction false} LruIsDemandPolicy(E: nat, h: seq<Tag>, t: Tag)
    requires E > 0
    ensures DemandStep(E, Elems(Lru(E, h)), t, Elems(Lru(E, h + [t])))
  {
    var r := Lru(E, h);
    LruDistinct(E, h);
    var q := LruStep(E, h, t);
    ElemsCons(t, q);
    ElemsCard(r);
    if t in r {
      assert Elems(q) == Elems(r) - {t};
    } else if |r| == E {
      AllButLast(r, E);
      assert Elems(q) == Elems(r) - {r[E - 1]};
      assert r[E - 1] in Elems(r);
    }
  }

  // ----- the potential of one set

  /** Tags that LRU holds and the other policy does not, each weighted by how long LRU keeps it:
      E for the most recent entry, one less for each entry further down. */
  function Potential(E: nat, r: seq<Tag>, c: set<Tag>): nat
    requires |r| <= E
  {
    if r == [] then 0 else (if r[0] in c then 0 else E) + Potential(E - 1, r[1..], c)
  }

  function Missing(r: seq<Tag>, c: set<Tag>): nat {
    if r == [] then 0 else (if r[0] in c then 0 else 1) + Missing(r[1..], c)
  }

  /** Moving every entry one place down takes one unit from each weighted entry. */
  lemma {:induction false} PotentialShift(E: nat, r: seq<Tag>, c: set<Tag>)
    requires 0 < E && |r| <= E
    ensures Potential(E - 1, Take(r, E - 1), c) + Missing(r, c) == Potential(E, r, c)
  {
    if r != [] {
      if E == 1 {
        assert r[1..] == [];
      } else {
        PotentialShift(E - 1, r[1..], c);
        assert Take(r, E - 1)[1..] == Take(r[1..], E - 2);
      }
    }
  }

  lemma {:induction false} PotentialCons(E: nat, x: Tag, r: seq<Tag>, c: set<Tag>)
    requires 0 < E && |r| <= E - 1
    ensures Potential(E, [x] + r, c) == (if x in c then 0 else E) + Potential(E - 1, r, c)
  {
    assert ([x] + r)[1..] == r;
  }

  lemma {:induction false} WithoutCons(x: Tag, rest: seq<Tag>, t: Tag)
    ensures Without([x] + rest, t) == if x == t then Without(rest, t) else [x] + Without(rest, t)
    ensures t !in rest ==> Without(rest, t) == rest
  {
    assert ([x] + rest)[1..] == rest;
  }

  /** One entry of the list: either the tag itself or one that moves up. */
  lemma {:induction false} PotentialWithoutCons(E: nat, x: Tag, rest: seq<Tag>, t: Tag, c: set<Tag>)
    requires 0 < E && |rest| <= E - 1 && (t == x ==> t !in rest)
    requires t != x ==> |Without(rest, t)| + 2 <= E
    requires t != x ==> Potential(E - 2, Without(rest, t), c) <= Potential(E - 1, rest, c)
    ensures |Without([x] + rest, t)| <= E - 1
    ensures Potential(E - 1, Without([x] + rest, t), c) <= Potential(E, [x] + rest, c)
  {
    hide Potential, Without;
    WithoutCons(x, rest, t);
    PotentialCons(E, x, rest, c);
    if x != t { PotentialCons(E - 1, x, Without(rest, t), c); }
  }

  lemma {:induction false} PotentialWithout(E: nat, r: seq<Tag>, t: Tag, c: set<Tag>)
    requires 0 < E && |r| <= E && t in r && Distinct(r)
    ensures |Without(r, t)| <= E - 1
    ensures Potential(E - 1, Without(r, t), c) <= Potential(E, r, c)
  {
    hide Potential, Without, Distinct;
    var x, rest := r[0], r[1..];
    assert r == [x] + rest;
    DistinctCons(x, rest);
    if x != t { PotentialWithout(E - 1, rest, t, c); }
    PotentialWithoutCons(E, x, rest, t, c);
  }

  /** Giving up one tag adds at most one weight. */
  lemma {:induction false} PotentialEvict(E: nat, r: seq<Tag>, c: set<Tag>, v: Tag)
    requires |r| <= E && Distinct(r)
    ensures Potential(E, r, c - {v}) <= Potential(E, r, c) + E
    ensures v !in r ==> Potential(E, r, c - {v}) == Potential(E, r, c)
  {
    if r != [] {
      assert r == [r[0]] + r[1..];
      DistinctCons(r[0], r[1..]);
      PotentialEvict(E - 1, r[1..], c, v);
    }
  }

  lemma {:induction false} PotentialLoad(E: nat, r: seq<Tag>, c: set<Tag>, t: Tag)
    requires |r| <= E && t !in r
    ensures Potential(E, r, c + {t}) == Potential(E, r, c)
  {
    if r != [] {
      assert r == [r[0]] + r[1..];
      PotentialLoad(E - 1, r[1..], c, t);
    }
  }

  /** The other policy's move costs at most E - 1 of potential, and nothing on a hit. */
  lemma {:induction false} PolicyMove(E: nat, q: seq<Tag>, c: set<Tag>, t: Tag, c': set<Tag>)
    requires 0 < E && |q| <= E - 1 && Distinct(q) && t !in q && DemandStep(E, c, t, c')
    ensures Potential(E - 1, q, c') <= Potential(E - 1, q, c) + if t in c then 0 else E - 1
  {
    if t !in c {
      if |c| < E && c' == c + {t} {
        PotentialLoad(E - 1, q, c, t);
      } else {
        var v :| v in c && c' == c - {v} + {t};
        PotentialEvict(E - 1, q, c, v);
        PotentialLoad(E - 1, q, c - {v}, t);
      }
    }
  }

  lemma {:induction false} MissingNone(r: seq<Tag>, c: set<Tag>)
    requires Missing(r, c) == 0
    ensures forall x :: x in r ==> x in c
  {
    if r != [] {
      MissingNone(r[1..], c);
      assert r == [r[0]] + r[1..];
    }
  }

  /** When LRU misses what the other policy holds, LRU holds something the other does not. */
  lemma {:induction false} SomethingMissing(E: nat, r: seq<Tag>, c: set<Tag>, t: Tag)
    requires Distinct(r) && |r| == E && |c| <= E && t in c && t !in r
    ensures Missing(r, c) >= 1
  {
    if Missing(r, c) == 0 {
      MissingNone(r, c);
      ElemsCard(r);
      assert Elems(r) + {t} <= c;
      SubsetCard(Elems(r) + {t}, c);
    }
  }

  lemma {:induction false} SubsetCard(a: set<Tag>, b: set<Tag>)
    requires a <= b
    ensures |a| <= |b|
  {
    if a != {} {
      var x :| x in a;
      SubsetCard(a - {x}, b - {x});
    }
  }

  /** What relates LRU's list and the other policy's set after the same accesses. */
  ghost predicate Coupled(E: nat, h: seq<Tag>, c: set<Tag>) {
    |c| <= E && forall x :: x in c ==> x in h
  }

  /** One access of one set: LRU's miss plus the growth of the potential is paid for by E times the
      other policy's miss. */
  lemma {:induction false} Amortized(E: nat, h: seq<Tag>, c: set<Tag>, t: Tag, c': set<Tag>)
    requires E > 0 && Coupled(E, h, c) && DemandStep(E, c, t, c')
    ensures Coupled(E, h + [t], c')
    ensures |Lru(E, h)| <= E && |Lru(E, h + [t])| <= E
    ensures (if t in Lru(E, h) then 0 else 1) + Potential(E, Lru(E, h + [t]), c')
         <= Potential(E, Lru(E, h), c) + if t in c then 0 else E
  {
    var r := Lru(E, h);
    LruDistinct(E, h);
    LruDistinct(E, h + [t]);
    var q := LruStep(E, h, t);
    PotentialCons(E, t, q, c');
    PolicyMove(E, q, c, t, c');
    if t in r {
      PotentialWithout(E, r, t, c);
    } else {
      PotentialShift(E, r, c);
      if t in c { SomethingMissing(E, r, c, t); }
    }
  }

  // ----- the whole cache

  function PotentialAt(E: nat, tr: seq<Entry>, cs: seq<set<Tag>>): nat -> int {
    (s: nat) =>
      if s < |cs| && |Lru(E, History(tr, s))| <= E then Potential(E, Lru(E, History(tr, s)), cs[s]) else 0
  }

  ghost predicate AllCoupled(E: nat, tr: seq<Entry>, cs: seq<set<Tag>>) {
    forall s :: 0 <= s < |cs| ==> Coupled(E, History(tr, s), cs[s])
  }

  lemma {:induction false} AmortizedStep(E: nat, S: nat, tr: seq<Entry>, e: Entry,
                                         cs: seq<set<Tag>>, cs': seq<set<Tag>>)
    requires E > 0 && |cs| == |cs'| == S && AllCoupled(E, tr, cs) && PolicyStep(E, S, cs, e, cs')
    ensures AllCoupled(E, tr + [e], cs')
    ensures EntryCost(E, tr, e).misses + Sum(S, PotentialAt(E, tr + [e], cs'))
         <= Sum(S, PotentialAt(E, tr, cs)) + if MissOf(cs, e) == 1 then E else 0
  {
    var f, g := PotentialAt(E, tr, cs), PotentialAt(E, tr + [e], cs');
    forall s: nat ensures e.op == 'I' || s != e.index ==> f(s) == g(s) && History(tr + [e], s) == History(tr, s) {
      HistoryAppend(tr, e, s);
    }
    SumUpdate(S, f, g, e.index);
    if e.op != 'I' {
      var s := e.index;
      var h := History(tr, s);
      HistoryAppend(tr, e, s);
      Amortized(E, h, cs[s], e.tag, cs'[s]);
      CostCases(E, Lru(E, h), e.op, e.tag);
      assert f(s) == Potential(E, Lru(E, h), cs[s]);
      assert g(s) == Potential(E, Lru(E, h + [e.tag]), cs'[s]);
    }
  }

  /** The books after one more access, when its cost and the growth of the potential are paid for. */
  lemma Settle(E: nat, paid: nat, was: int, m: nat, cost: nat, now: int, x: nat)
    requires x <= 1 && paid + was <= E * m && cost + now <= was + if x == 1 then E else 0
    ensures paid + cost + now <= E * (m + x)
  {
    if x == 0 { assert m + x == m; }
  }

  lemma {:induction false} Competes(E: nat, S: nat, tr: seq<Entry>, run: seq<seq<set<Tag>>>)
    requires E > 0 && PolicyRun(E, S, tr, run)
    ensures AllCoupled(E, tr, run[|tr|])
    ensures Totals(E, tr).misses + Sum(S, PotentialAt(E, tr, run[|tr|])) <= E * PolicyMisses(tr, run)
  {
    if tr == [] {
      SumZero(S, PotentialAt(E, tr, run[0]));
    } else {
      var n := |tr| - 1;
      var init, e := tr[..n], tr[n];
      assert tr == init + [e];
      Competes(E, S, init, run[..|tr|]);
      AmortizedStep(E, S, init, e, run[n], run[n + 1]);
      TotalsGrow(E, init, e);
      Settle(E, Totals(E, init).misses, Sum(S, PotentialAt(E, init, run[n])), PolicyMisses(init, run[..|tr|]),
        EntryCost(E, init, e).misses, Sum(S, PotentialAt(E, tr, run[n + 1])), MissOf(run[n], e));
    }
  }

  lemma {:induction false} SumNonNegative(n: nat, f: nat -> int)
    requires forall i: nat :: f(i) >= 0
    ensures Sum(n, f) >= 0
  {
    if n > 0 { SumNonNegative(n - 1, f); }
  }

  /** LRU with E lines per set misses at most E times as often as any other demand policy with the
      same sets, on every trace, both starting empty. */
  lemma {:induction false} LruIsCompetitive(E: nat, S: nat, tr: seq<Entry>, run: seq<seq<set<Tag>>>)
    requires E > 0 && PolicyRun(E, S, tr, run)
    ensures Totals(E, tr).misses <= E * PolicyMisses(tr, run)
  {
    Competes(E, S, tr, run);
    SumNonNegative(S, PotentialAt(E, tr, run[|tr|]));
  }
}
