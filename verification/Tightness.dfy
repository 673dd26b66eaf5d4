/** The factor E is the best possible: on requests that go round E + 1 tags LRU always misses, and another
    policy misses once in E requests. */
module Tightness {
  import opened Recency
  import opened CacheTrace
  import opened Competitive

  // ----- requests that go round the tags 0 to E

  function Up(E: nat, t: Tag): Tag { if t >= E then 0 else t + 1 }

  function Down(E: nat, t: Tag): Tag { if t == 0 then E else t - 1 }

  function Request(E: nat, n: nat): (t: Tag)
    ensures t <= E
  {
    if n == 0 then 0 else Up(E, Request(E, n - 1))
  }

  function Loop(E: nat, n: nat): (tr: seq<Entry>)
    ensures |tr| == n
  {
    if n == 0 then [] else Loop(E, n - 1) + [Ask(E, n - 1)]
  }

  function Ask(E: nat, n: nat): Entry { Entry('L', 0, Request(E, n)) }

  lemma LoopPrefix(E: nat, n: nat)
    ensures Loop(E, n + 1) == Loop(E, n) + [Ask(E, n)]
    ensures Loop(E, n + 1)[..n] == Loop(E, n) && Loop(E, n + 1)[n] == Ask(E, n)
  {
  }

  lemma {:induction false} LoopEmpty(E: nat)
    ensures Loop(E, 0) == [] && History(Loop(E, 0), 0) == [] && Totals(E, Loop(E, 0)).misses == 0
    ensures Lru(E, []) == []
  {
  }

  // ----- LRU never has the next tag

  /** The last k tags requested up to `t`, the latest first. */
  function Recent(E: nat, t: Tag, k: nat): (r: seq<Tag>)
    requires t <= E && k <= E + 1
    ensures |r| == k && forall i :: 0 <= i < k ==> r[i] == if i <= t then t - i else t - i + E + 1
  {
    seq(k, i requires 0 <= i < k => if i <= t then t - i else t - i + E + 1)
  }

  lemma NextNotRecent(E: nat, t: Tag, k: nat)
    requires t <= E && k <= E
    ensures t !in Recent(E, Down(E, t), k)
  {
  }

  lemma RecentCons(E: nat, t: Tag, k: nat)
    requires t <= E && k <= E
    ensures [t] + Recent(E, Down(E, t), k) == Recent(E, t, k + 1)
  {
  }

  lemma RecentCut(E: nat, t: Tag, k: nat)
    requires t <= E && k <= E
    ensures Take(Recent(E, t, k + 1), E) == Recent(E, t, if k < E then k + 1 else E)
  {
  }

  lemma RecentTouched(E: nat, t: Tag, k: nat)
    requires t <= E && k <= E
    ensures Touch(E, Recent(E, Down(E, t), k), t) == Recent(E, t, if k < E then k + 1 else E)
  {
    hide Recent, Without, Take;
    NextNotRecent(E, t, k);
    RecentCons(E, t, k);
    RecentCut(E, t, k);
  }

  function LastTouched(E: nat, n: nat): (r: seq<Tag>)
    ensures |r| == if n < E then n else E
  {
    Recent(E, Down(E, Request(E, n)), if n < E then n else E)
  }

  lemma LastTouchedNext(E: nat, n: nat)
    ensures Touch(E, LastTouched(E, n), Request(E, n)) == LastTouched(E, n + 1)
    ensures Request(E, n) !in LastTouched(E, n)
  {
    RecentTouched(E, Request(E, n), if n < E then n else E);
    NextNotRecent(E, Request(E, n), if n < E then n else E);
    assert Down(E, Request(E, n + 1)) == Request(E, n);
  }

  lemma NoneTouched(E: nat)
    ensures LastTouched(E, 0) == []
  {
  }

  lemma {:induction false} LruOfLoop(E: nat, n: nat)
    ensures Lru(E, History(Loop(E, n), 0)) == LastTouched(E, n)
  {
    hide Lru, History, Loop, LastTouched, Touch, Request;
    if n == 0 {
      LoopEmpty(E);
      NoneTouched(E);
    } else {
      LruOfLoop(E, n - 1);
      LoopPrefix(E, n - 1);
      HistoryAppend(Loop(E, n - 1), Ask(E, n - 1), 0);
      LruAppend(E, History(Loop(E, n - 1), 0), Request(E, n - 1));
      LastTouchedNext(E, n - 1);
    }
  }

  /** The next request misses. */
  lemma {:induction false} NextMisses(E: nat, n: nat)
    ensures EntryCost(E, Loop(E, n), Ask(E, n)).misses == 1
  {
    hide Lru, History, Loop, LastTouched, Request;
    LruOfLoop(E, n);
    LastTouchedNext(E, n);
  }

  /** LRU misses every request. */
  lemma {:induction false} LruMissesAll(E: nat, n: nat)
    ensures Totals(E, Loop(E, n)).misses == n
  {
    hide Loop, Totals, EntryCost, Ask;
    if n == 0 {
      LoopEmpty(E);
    } else {
      LruMissesAll(E, n - 1);
      LoopPrefix(E, n - 1);
      NextMisses(E, n - 1);
      TotalsGrow(E, Loop(E, n - 1), Ask(E, n - 1));
    }
  }

  // ----- a policy that gives up the tag it used last

  function Kept(E: nat, n: nat): set<Tag> {
    if n == 0 then {}
    else
      var c, t := Kept(E, n - 1), Request(E, n - 1);
      if t in c then c else if |c| < E then c + {t} else c - {Down(E, t)} + {t}
  }

  function KeptRun(E: nat, n: nat): (run: seq<seq<set<Tag>>>)
    ensures |run| == n + 1 && run[n] == [Kept(E, n)]
  {
    if n == 0 then [[Kept(E, 0)]] else KeptRun(E, n - 1) + [[Kept(E, n)]]
  }

  function Below(n: nat): (r: set<Tag>)
    ensures |r| == n && forall x: Tag :: x in r <==> x < n
  {
    if n == 0 then {} else Below(n - 1) + {n - 1}
  }

  lemma {:induction false} FirstRequests(E: nat, n: nat)
    requires n <= E
    ensures Request(E, n) == n && Kept(E, n) == Below(n)
  {
    if n > 0 { FirstRequests(E, n - 1); }
  }

  /** The one tag the full cache lacks. */
  function Gone(E: nat, n: nat): (g: Tag)
    requires n >= E
    ensures g <= E
  {
    if n == E then E
    else if Request(E, n - 1) == Gone(E, n - 1) then Down(E, Request(E, n - 1))
    else Gone(E, n - 1)
  }

  lemma SwapOut(a: set<Tag>, t: Tag, d: Tag)
    requires t in a && t != d
    ensures a - {t} - {d} + {t} == a - {d}
  {
  }

  /** One request of the full cache. */
  lemma KeptNext(E: nat, n: nat)
    requires n >= E > 0 && Kept(E, n) == Below(E + 1) - {Gone(E, n)}
    ensures Kept(E, n + 1) == Below(E + 1) - {Gone(E, n + 1)}
  {
    AllButOne(E, Gone(E, n));
    var c, t := Kept(E, n), Request(E, n);
    assert t in c <==> t != Gone(E, n);
    hide Kept, Request, Below;
    if t !in c { SwapOut(Below(E + 1), t, Down(E, t)); }
  }

  lemma AllButOne(E: nat, g: Tag)
    requires g <= E
    ensures |Below(E + 1) - {g}| == E
  {
  }

  lemma {:induction false} FullAtFirst(E: nat)
    ensures Kept(E, E) == Below(E + 1) - {Gone(E, E)}
  {
    FirstRequests(E, E);
    assert Below(E + 1) - {E} == Below(E);
  }

  lemma {:induction false} LaterRequests(E: nat, n: nat)
    requires n >= E > 0
    ensures Kept(E, n) == Below(E + 1) - {Gone(E, n)} && |Kept(E, n)| == E
  {
    hide Kept, Gone, Below;
    if n == E {
      FullAtFirst(E);
    } else {
      LaterRequests(E, n - 1);
      KeptNext(E, n - 1);
    }
    AllButOne(E, Gone(E, n));
  }

  lemma KeptIsDemand(E: nat, n: nat)
    requires E > 0
    ensures DemandStep(E, Kept(E, n), Request(E, n), Kept(E, n + 1))
  {
    if n < E {
      FirstRequests(E, n);
    } else {
      LaterRequests(E, n);
      var c, t := Kept(E, n), Request(E, n);
      if t !in c { assert Down(E, t) in c; }
    }
  }

  lemma {:induction false} KeptRuns(E: nat, n: nat)
    requires E > 0
    ensures PolicyRun(E, 1, Loop(E, n), KeptRun(E, n))
  {
    if n > 0 {
      KeptRuns(E, n - 1);
      KeptIsDemand(E, n - 1);
      LoopPrefix(E, n - 1);
      assert KeptRun(E, n)[..n] == KeptRun(E, n - 1);
    }
  }

  // ----- how often it misses

  function KeptMisses(E: nat, n: nat): nat { PolicyMisses(Loop(E, n), KeptRun(E, n)) }

  lemma MissesNext(E: nat, n: nat)
    ensures KeptMisses(E, n + 1) == KeptMisses(E, n) + if Request(E, n) in Kept(E, n) then 0 else 1
  {
    LoopPrefix(E, n);
    assert KeptRun(E, n + 1)[..n + 1] == KeptRun(E, n);
  }

  lemma {:induction false} FirstMiss(E: nat, n: nat)
    requires n < E
    ensures Request(E, n) !in Kept(E, n)
  {
    FirstRequests(E, n);
  }

  lemma NoMissesYet(E: nat)
    ensures KeptMisses(E, 0) == 0
  {
  }

  lemma {:induction false} FirstMisses(E: nat, n: nat)
    requires n <= E
    ensures KeptMisses(E, n) == n
  {
    hide KeptMisses, Kept, Request;
    if n == 0 {
      NoMissesYet(E);
    } else {
      FirstMisses(E, n - 1);
      FirstMiss(E, n - 1);
      MissesNext(E, n - 1);
    }
  }

  /** How many requests come before the missing tag is requested. */
  function Gap(E: nat, n: nat): int
    requires n >= E
  {
    var t, g := Request(E, n), Gone(E, n);
    if g >= t then g - t else g - t + E + 1
  }

  lemma GapCloses(E: nat, n: nat)
    requires n >= E > 0
    ensures 0 <= Gap(E, n) <= E && (Gap(E, n) == 0 <==> Request(E, n) == Gone(E, n))
    ensures Gap(E, n + 1) == if Gap(E, n) == 0 then E - 1 else Gap(E, n) - 1
  {
    assert Request(E, n + 1) == Up(E, Request(E, n));
    assert Gone(E, n + 1) == if Request(E, n) == Gone(E, n) then Down(E, Request(E, n)) else Gone(E, n);
    hide Request, Gone;
  }

  lemma {:induction false} MissedWhenGone(E: nat, n: nat)
    requires n >= E > 0
    ensures Request(E, n) in Kept(E, n) <==> Request(E, n) != Gone(E, n)
  {
    hide Request, Kept, Gone;
    LaterRequests(E, n);
  }

  lemma GapNext(E: nat, n: nat)
    requires n >= E > 0
    ensures Gap(E, n + 1) == if Gap(E, n) == 0 then E - 1 else Gap(E, n) - 1
    ensures KeptMisses(E, n + 1) == KeptMisses(E, n) + if Gap(E, n) == 0 then 1 else 0
  {
    hide Gap, KeptMisses, Request, Kept, Gone;
    GapCloses(E, n);
    MissedWhenGone(E, n);
    MissesNext(E, n);
  }

  lemma {:induction false} HitsUntilGone(E: nat, n: nat, j: nat)
    requires n >= E > 0 && j <= Gap(E, n)
    ensures Gap(E, n + j) == Gap(E, n) - j && KeptMisses(E, n + j) == KeptMisses(E, n)
  {
    hide Gap, KeptMisses;
    if j > 0 {
      HitsUntilGone(E, n, j - 1);
      GapNext(E, n + j - 1);
    }
  }

  /** The length of the trace after k rounds of E requests. */
  function Length(E: nat, k: nat): (n: nat)
    ensures n >= E && n == E * (k + 1)
  {
    if k == 0 then E else Length(E, k - 1) + E
  }

  lemma FirstRound(E: nat)
    requires E > 0
    ensures Gap(E, E) == 0 && KeptMisses(E, E) == E
  {
    hide KeptMisses;
    FirstRequests(E, E);
    FirstMisses(E, E);
  }

  lemma NextRound(E: nat, n: nat)
    requires n >= E > 0 && Gap(E, n) == 0
    ensures Gap(E, n + E) == 0 && KeptMisses(E, n + E) == KeptMisses(E, n) + 1
  {
    hide Gap, KeptMisses;
    GapNext(E, n);
    HitsUntilGone(E, n + 1, E - 1);
    assert n + 1 + (E - 1) == n + E;
  }

  lemma {:induction false} OneMissARound(E: nat, k: nat)
    requires E > 0
    ensures Gap(E, Length(E, k)) == 0 && KeptMisses(E, Length(E, k)) == E + k
  {
    hide Gap, KeptMisses;
    if k == 0 {
      FirstRound(E);
    } else {
      OneMissARound(E, k - 1);
      NextRound(E, Length(E, k - 1));
    }
  }

  /** For every E there are traces, as long as one likes, on which LRU misses E times as often as another
      demand policy, up to a constant: E * (k + 1) misses against E + k. */
  lemma FactorIsReached(E: nat, k: nat) returns (n: nat)
    requires E > 0
    ensures n == E * (k + 1) && PolicyRun(E, 1, Loop(E, n), KeptRun(E, n))
    ensures Totals(E, Loop(E, n)).misses == n && PolicyMisses(Loop(E, n), KeptRun(E, n)) == E + k
  {
    hide Loop, KeptRun, Totals, PolicyRun, PolicyMisses, Gap;
    n := Length(E, k);
    KeptRuns(E, n);
    LruMissesAll(E, n);
    OneMissARound(E, k);
  }

  lemma Exceeds(E: nat, p: nat, q: nat, d: nat, k: nat, n: nat, m: nat)
    requires p < q * E && k == p * E + d + 1 && n == E * (k + 1) && m == E + k
    ensures q * n > p * m + d
  {
    var s := q * E - p;
    assert q * n == (p + s) * (k + 1);
    assert (p + s) * (k + 1) == p * (k + 1) + s * (k + 1);
    AtLeast(s, k + 1);
    assert p * (E + k) == p * E + p * k && p * (k + 1) == p * k + p;
  }

  lemma AtLeast(s: nat, m: nat)
    requires s >= 1
    ensures s * m >= m
  {
    assert s * m == (s - 1) * m + m;
  }

  /** No factor p / q below E bounds LRU's misses by another policy's, whatever constant is added. */
  lemma NoSmallerFactor(E: nat, p: nat, q: nat, d: nat) returns (tr: seq<Entry>, run: seq<seq<set<Tag>>>)
    requires E > 0 && p < q * E
    ensures PolicyRun(E, 1, tr, run)
    ensures q * Totals(E, tr).misses > p * PolicyMisses(tr, run) + d
  {
    hide Loop, KeptRun, Totals, PolicyRun, PolicyMisses;
    var k := p * E + d + 1;
    var n := FactorIsReached(E, k);
    tr, run := Loop(E, n), KeptRun(E, n);
    Exceeds(E, p, q, d, k, Totals(E, tr).misses, PolicyMisses(tr, run));
  }
}
