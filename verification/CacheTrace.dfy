/** What a whole trace costs: hits, misses and evictions of LRU sets of E lines, as a function of
    the trace alone. */
module CacheTrace {
  import opened Recency

  /** One trace line after address decoding: the operation letter, the set index and the tag. */
  datatype Entry = Entry(op: char, index: nat, tag: Tag)

  datatype Counts = Counts(hits: nat, misses: nat, evictions: nat) {
    function Plus(c: Counts): Counts {
      Counts(hits + c.hits, misses + c.misses, evictions + c.evictions)
    }
  }

  const ZERO := Counts(0, 0, 0)

  /** The accesses that reach one set: instruction fetches are skipped. */
  function History(tr: seq<Entry>, index: nat): seq<Tag> {
    if tr == [] then []
    else
      var e := tr[|tr|-1];
      var h := History(tr[..|tr|-1], index);
      if e.op != 'I' && e.index == index then h + [e.tag] else h
  }

  /** What one access costs when the set's recency list is `r`; a modify is a load and a store, and
      its store always hits. */
  function Cost(E: nat, r: seq<Tag>, op: char, t: Tag): Counts {
    var again := if op == 'M' then 1 else 0;
    var miss := if t in r then 0 else 1;
    Counts(again + 1 - miss, miss, if t in r || |r| < E then 0 else 1)
  }

  function EntryCost(E: nat, tr: seq<Entry>, e: Entry): Counts {
    if e.op == 'I' then ZERO else Cost(E, Lru(E, History(tr, e.index)), e.op, e.tag)
  }

  function Totals(E: nat, tr: seq<Entry>): Counts {
    if tr == [] then ZERO
    else Totals(E, tr[..|tr|-1]).Plus(EntryCost(E, tr[..|tr|-1], tr[|tr|-1]))
  }

  lemma {:induction false} HistoryAppend(tr: seq<Entry>, e: Entry, index: nat)
    ensures History(tr + [e], index) ==
            History(tr, index) + if e.op != 'I' && e.index == index then [e.tag] else []
  {
    assert (tr + [e])[..|tr|] == tr;
  }

  lemma {:induction false} TotalsAppend(E: nat, tr: seq<Entry>, e: Entry)
    ensures Totals(E, tr + [e]) == Totals(E, tr).Plus(EntryCost(E, tr, e))
  {
    assert (tr + [e])[..|tr|] == tr;
  }

  lemma {:induction false} TotalsGrow(E: nat, tr: seq<Entry>, e: Entry)
    ensures var t, c, t' := Totals(E, tr), EntryCost(E, tr, e), Totals(E, tr + [e]);
            && t'.hits == t.hits + c.hits
            && t'.misses == t.misses + c.misses
            && t'.evictions == t.evictions + c.evictions
  {
    TotalsAppend(E, tr, e);
  }

  lemma {:induction false} LruAppend(E: nat, h: seq<Tag>, t: Tag)
    ensures Lru(E, h + [t]) == Touch(E, Lru(E, h), t)
  {
    assert (h + [t])[..|h|] == h;
  }

  /** The recency list after an access: the tag, then what stays of the others. */
  lemma LruStep(E: nat, h: seq<Tag>, t: Tag) returns (q: seq<Tag>)
    requires E > 0
    ensures Lru(E, h + [t]) == [t] + q && |q| <= E - 1 && Distinct(q) && t !in q
    ensures q == Take(Without(Lru(E, h), t), E - 1)
    ensures t in Lru(E, h) ==> q == Without(Lru(E, h), t)
    ensures t !in Lru(E, h) ==> q == Take(Lru(E, h), E - 1)
  {
    var r := Lru(E, h);
    LruDistinct(E, h);
    LruAppend(E, h, t);
    WithoutDistinct(r, t);
    TakeCons(t, Without(r, t), E);
    q := Take(Without(r, t), E - 1);
  }

  // ----- which runs are defined

  /** An access that the victim scan does not leave undefined: it evicts nothing, or the set has two
      lines or more. */
  predicate Safe(E: nat, r: seq<Tag>, t: Tag) {
    E >= 2 || Cost(E, r, ' ', t).evictions == 0
  }

  /** Every access of the trace is safe when its turn comes. */
  predicate SafeRun(E: nat, tr: seq<Entry>) {
    if tr == [] then true
    else
      var init, e := tr[..|tr|-1], tr[|tr|-1];
      SafeRun(E, init) && (e.op == 'I' || Safe(E, Lru(E, History(init, e.index)), e.tag))
  }

  lemma {:induction false} SafeAppend(E: nat, tr: seq<Entry>, e: Entry)
    ensures SafeRun(E, tr + [e]) <==>
            SafeRun(E, tr) && (e.op == 'I' || Safe(E, Lru(E, History(tr, e.index)), e.tag))
  {
    assert (tr + [e])[..|tr|] == tr;
  }

  lemma {:induction false} SafePrefix(E: nat, tr: seq<Entry>, k: nat)
    requires SafeRun(E, tr) && k <= |tr|
    ensures SafeRun(E, tr[..k])
  {
    if k == |tr| {
      assert tr[..k] == tr;
    } else {
      SafePrefix(E, tr[..|tr|-1], k);
      assert tr[..|tr|-1][..k] == tr[..k];
    }
  }

  /** No two accesses of the trace go to the same set with different tags. */
  predicate OneTagPerSet(tr: seq<Entry>) {
    forall i, j :: 0 <= i < |tr| && 0 <= j < |tr| && tr[i].op != 'I' && tr[j].op != 'I' && tr[i].index == tr[j].index
                   ==> tr[i].tag == tr[j].tag
  }

  predicate OnlyFetches(tr: seq<Entry>) {
    forall i :: 0 <= i < |tr| ==> tr[i].op == 'I'
  }

  /** Whether the source defines what happens on the trace, read off the trace alone: with two lines per
      set always, with one line when no set ever sees two tags, without lines when nothing is accessed. */
  predicate Defined(E: nat, tr: seq<Entry>) {
    if E >= 2 then true else if E == 1 then OneTagPerSet(tr) else OnlyFetches(tr)
  }

  /** The entry adds no second tag to its set. */
  predicate Agrees(tr: seq<Entry>, e: Entry) {
    forall i :: 0 <= i < |tr| && tr[i].op != 'I' && tr[i].index == e.index ==> tr[i].tag == e.tag
  }

  lemma OneTagAppend(tr: seq<Entry>, e: Entry)
    ensures OneTagPerSet(tr + [e]) <==> OneTagPerSet(tr) && (e.op == 'I' || Agrees(tr, e))
  {
    var all := tr + [e];
    assert all[|tr|] == e && forall i :: 0 <= i < |tr| ==> all[i] == tr[i];
    if OneTagPerSet(all) && e.op != 'I' {
      forall i | 0 <= i < |tr| && tr[i].op != 'I' && tr[i].index == e.index ensures tr[i].tag == e.tag {
        assert all[i].tag == all[|tr|].tag;
      }
    }
  }

  lemma OnlyFetchesAppend(tr: seq<Entry>, e: Entry)
    ensures OnlyFetches(tr + [e]) <==> OnlyFetches(tr) && e.op == 'I'
  {
    var all := tr + [e];
    assert all[|tr|] == e && forall i :: 0 <= i < |tr| ==> all[i] == tr[i];
  }

  lemma AgreesAppend(tr: seq<Entry>, last: Entry, e: Entry)
    ensures Agrees(tr + [last], e) <==> Agrees(tr, e) && (last.op == 'I' || last.index != e.index || last.tag == e.tag)
  {
    var all := tr + [last];
    assert all[|tr|] == last && forall i :: 0 <= i < |tr| ==> all[i] == tr[i];
  }

  lemma AgreesAgain(tr: seq<Entry>, last: Entry, e: Entry)
    requires Agrees(tr, last) && last.index == e.index && last.tag == e.tag
    ensures Agrees(tr, e)
  {
  }

  /** Over a trace without second tags, an entry adds one unless it repeats its set's last tag. */
  lemma {:induction false} AgreesByLast(tr: seq<Entry>, e: Entry)
    requires OneTagPerSet(tr)
    ensures var h := History(tr, e.index); Agrees(tr, e) <==> h == [] || h[|h|-1] == e.tag
  {
    if tr != [] {
      var init, last := tr[..|tr|-1], tr[|tr|-1];
      assert tr == init + [last];
      OneTagAppend(init, last);
      AgreesByLast(init, e);
      HistoryAppend(init, last, e.index);
      AgreesAppend(init, last, e);
      if last.op != 'I' && last.index == e.index && last.tag == e.tag { AgreesAgain(init, last, e); }
    }
  }

  /** With one line the recency list is the last tag. */
  lemma {:induction false} SafeWithOneLine(h: seq<Tag>, t: Tag)
    ensures Safe(1, Lru(1, h), t) <==> h == [] || h[|h|-1] == t
  {
    if h != [] { assert Lru(1, h) == [h[|h|-1]]; }
  }

  /** Every access finds its victim defined exactly when the trace says so. */
  lemma {:induction false} SafeRunIff(E: nat, tr: seq<Entry>)
    ensures SafeRun(E, tr) <==> Defined(E, tr)
  {
    if tr != [] {
      var init, e := tr[..|tr|-1], tr[|tr|-1];
      assert tr == init + [e];
      SafeRunIff(E, init);
      SafeAppend(E, init, e);
      OneTagAppend(init, e);
      OnlyFetchesAppend(init, e);
      if E == 1 {
        SafeWithOneLine(History(init, e.index), e.tag);
        if OneTagPerSet(init) { AgreesByLast(init, e); }
      }
    }
  }

  /** Equivalently, with fewer than two lines, the simulation counts no eviction. */
  lemma {:induction false} DefinedByEvictions(E: nat, tr: seq<Entry>)
    ensures SafeRun(E, tr) <==> E >= 2 || Totals(E, tr).evictions == 0
  {
    if tr != [] { DefinedByEvictions(E, tr[..|tr|-1]); }
  }

  /** In a defined run the next access is safe. */
  lemma {:induction false} NextIsSafe(E: nat, tr: seq<Entry>, k: nat)
    requires Defined(E, tr) && k < |tr| && tr[k].op != 'I'
    ensures Safe(E, Lru(E, History(tr[..k], tr[k].index)), tr[k].tag)
  {
    SafeRunIff(E, tr);
    SafePrefix(E, tr, k + 1);
    assert tr[..k + 1] == tr[..k] + [tr[k]];
    SafeAppend(E, tr[..k], tr[k]);
  }

  /** Two different tags in a one-line set: the second access evicts, and that is not safe. */
  lemma OneLineTrace(a: Tag, b: Tag)
    requires a != b
    ensures !SafeRun(1, [Entry('L', 0, a), Entry('L', 0, b)])
  {
    var x, y := Entry('L', 0, a), Entry('L', 0, b);
    HistoryAppend([], x, 0);
    LruAppend(1, [], a);
    assert [] + [x] == [x] && [] + [a] == [a];
    assert Lru(1, History([x], 0)) == [a];
    SafeAppend(1, [x], y);
    assert [x] + [y] == [x, y];
  }
}
