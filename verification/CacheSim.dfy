/** The simulator: the lines of each set are updated in place and scanned on every access. */
module CacheSim {
  import opened Options
  import opened Recency
  import opened CacheTrace
  import opened CacheLines
  import opened CacheTheorems

  class CacheSet {
    const lines: array<Line>
    ghost var history: seq<Tag>

    ghost predicate Valid()
      reads this, lines
    {
      Represents(lines[..], history)
    }

    constructor (E: nat)
      ensures Valid() && history == [] && lines.Length == E && fresh(lines)
    {
      lines := new Line[E];
      history := [];
      new;
      for i := 0 to E
        modifies lines
        invariant forall k :: 0 <= k < i ==> lines[k] == Line(false, 0, 0)
      {
        lines[i] := Line(false, 0, 0);
      }
      EmptySet(lines[..]);
    }

    /** The first valid line with the tag, or -1. */
    method FindLine(tag: Tag) returns (i: int)
      ensures -1 <= i < lines.Length
      ensures forall k :: 0 <= k < (if i == -1 then lines.Length else i) ==> !(lines[k].valid && lines[k].tag == tag)
      ensures i >= 0 ==> lines[i].valid && lines[i].tag == tag
    {
      i := 0;
      while i < lines.Length
        invariant 0 <= i <= lines.Length
        invariant forall k :: 0 <= k < i ==> !(lines[k].valid && lines[k].tag == tag)
      {
        if lines[i].valid && lines[i].tag == tag { return; }
        i := i + 1;
      }
      i := -1;
    }

    /** The first invalid line, or -1. */
    method FindEmptyLine() returns (i: int)
      ensures -1 <= i < lines.Length
      ensures forall k :: 0 <= k < (if i == -1 then lines.Length else i) ==> lines[k].valid
      ensures i >= 0 ==> !lines[i].valid
    {
      i := 0;
      while i < lines.Length
        invariant 0 <= i <= lines.Length
        invariant forall k :: 0 <= k < i ==> lines[k].valid
      {
        if !lines[i].valid { return; }
        i := i + 1;
      }
      i := -1;
    }

    /** The first line with the largest counter; None when the scan never assigns its result because
        no counter is above 0. */
    method FindLruLine() returns (m: Option<nat>)
      ensures m.None? <==> forall k :: 0 <= k < lines.Length ==> lines[k].usage == 0
      ensures m.Some? ==> IsMaxUsage(lines[..], m.value)
      ensures m.Some? ==> forall k :: 0 <= k < m.value ==> lines[k].usage < lines[m.value].usage
    {
      m := None;
      var max := 0;
      for i := 0 to lines.Length
        invariant m.None? ==> max == 0
        invariant m.Some? ==> m.value < i && lines[m.value].usage == max > 0
        invariant m.Some? ==> forall k :: 0 <= k < m.value ==> lines[k].usage < max
        invariant forall k :: 0 <= k < i ==> lines[k].usage <= max
      {
        var u := lines[i].usage;
        if u > max {
          max := u;
          m := Some(i);
        }
      }
    }

    /** Raises every counter and resets the one of line `i`. */
    method Age(i: nat)
      requires i < lines.Length
      modifies lines
      ensures lines[..] == Bumped(old(lines[..]), i)
    {
      for j := 0 to lines.Length
        invariant forall k :: 0 <= k < j ==> lines[k] == Aged(old(lines[k]))
        invariant forall k :: j <= k < lines.Length ==> lines[k] == old(lines[k])
      {
        lines[j] := Aged(lines[j]);
      }
      lines[i] := lines[i].(usage := 0);
    }

    /** Finds the line for the tag, taking over a free line or the victim on a miss. */
    method Place(tag: Tag) returns (i: nat, r: nat)
      requires Valid() && Safe(lines.Length, Lru(lines.Length, history), tag)
      modifies lines
      ensures i < lines.Length
      ensures Represents(Bumped(lines[..], i), history + [tag])
      ensures r == Code(lines.Length, Lru(lines.Length, history), ' ', tag)
    {
      hide Represents, Lru, Bumped, Cost;
      r := 0;
      ghost var before := lines[..];
      var k := FindLine(tag);
      if k == -1 {
        NotHeld(before, history, tag);
        r := r + 1;
        k := FindEmptyLine();
        FreeLine(before, history, k);
        if k == -1 {
          r := r + 1;
          SafeIff(before, history, tag);
          var m := FindLruLine();
          k := m.value;
          RepresentsEvict(before, history, k, tag);
        } else {
          RepresentsFill(before, history, k, tag);
          lines[k] := lines[k].(valid := true);
        }
        lines[k] := lines[k].(tag := tag);
        assert lines[..] == before[k := before[k].(valid := true, tag := tag)];
      } else {
        HeldTag(before, history, k);
        RepresentsHit(before, history, k);
      }
      i := k;
    }

    /** One access.  In a full set of one line the victim scan assigns nothing, so there the source is
        defined for hits only. */
    method MemoryOp(tag: Tag, op: char) returns (r: nat)
      requires Valid() && Safe(lines.Length, Lru(lines.Length, history), tag)
      modifies this, lines
      ensures Valid() && history == old(history) + [tag]
      ensures r == Code(lines.Length, Lru(lines.Length, old(history)), op, tag)
    {
      var i;
      i, r := Place(tag);
      Age(i);
      history := history + [tag];
      if op == 'M' {
        r := r + 3;
      }
    }
  }

  /** The result code of an access: 0 hit, 1 fill, 2 eviction, and 3 more for a modify. */
  function Code(E: nat, r: seq<Tag>, op: char, t: Tag): nat {
    (if t in r then 0 else if |r| < E then 1 else 2) + if op == 'M' then 3 else 0
  }

  lemma {:induction false} NotHeld(lines: seq<Line>, h: seq<Tag>, t: Tag)
    requires Represents(lines, h)
    requires forall k :: 0 <= k < |lines| ==> !(lines[k].valid && lines[k].tag == t)
    ensures t !in Lru(|lines|, h)
  {
    if t in Lru(|lines|, h) {
      var k := InTags(lines, |Lru(|lines|, h)|, t);
    }
  }

  lemma {:induction false} HeldTag(lines: seq<Line>, h: seq<Tag>, k: nat)
    requires Represents(lines, h) && k < |lines| && lines[k].valid
    ensures lines[k].tag in Lru(|lines|, h)
  {
  }

  /** The first invalid line sits right after the lines of the recency list. */
  lemma {:induction false} FreeLine(lines: seq<Line>, h: seq<Tag>, k: int)
    requires Represents(lines, h) && -1 <= k < |lines|
    requires forall j :: 0 <= j < (if k == -1 then |lines| else k) ==> lines[j].valid
    requires k >= 0 ==> !lines[k].valid
    ensures |Lru(|lines|, h)| == if k == -1 then |lines| else k
  {
    var n := |Lru(|lines|, h)|;
    assert n < |lines| ==> !lines[n].valid;
  }

  class Cache {
    const sets: seq<CacheSet>
    const E: nat

    /** Every set has E lines and represents the part of the trace that maps to it. */
    ghost predicate Valid(tr: seq<Entry>)
      reads this, sets, set c | c in sets :: c.lines
    {
      && (forall s :: 0 <= s < |sets| ==>
            sets[s].lines.Length == E && sets[s].history == History(tr, s) && sets[s].Valid())
      && (forall s, s' :: 0 <= s < s' < |sets| ==> sets[s] != sets[s'] && sets[s].lines != sets[s'].lines)
    }

    constructor (S: nat, E: nat)
      ensures Valid([]) && |sets| == S && this.E == E
      ensures fresh(sets) && fresh(set c | c in sets :: c.lines)
    {
      var cs: seq<CacheSet> := [];
      for i := 0 to S
        invariant |cs| == i
        invariant forall c :: c in cs ==> fresh(c) && fresh(c.lines)
        invariant forall s :: 0 <= s < i ==> cs[s].lines.Length == E && cs[s].history == [] && cs[s].Valid()
        invariant forall s, s' :: 0 <= s < s' < i ==> cs[s] != cs[s'] && cs[s].lines != cs[s'].lines
      {
        var c := new CacheSet(E);
        cs := cs + [c];
      }
      sets := cs;
      this.E := E;
    }

    /** One data access and what it adds to the three counters. */
    method Access(x: Entry, ghost tr: seq<Entry>) returns (h: nat, m: nat, e: nat)
      requires Valid(tr) && x.op != 'I' && x.index < |sets|
      requires Safe(E, Lru(E, History(tr, x.index)), x.tag)
      modifies sets[x.index], sets[x.index].lines
      ensures Valid(tr + [x])
      ensures Counts(h, m, e) == EntryCost(E, tr, x)
    {
      hide Lru, Represents;
      h, m, e := 0, 0, 0;
      forall s ensures History(tr + [x], s) == History(tr, s) + if x.index == s then [x.tag] else [] {
        HistoryAppend(tr, x, s);
      }
      var r := sets[x.index].MemoryOp(x.tag, x.op);
      match r {
        case 0 => h := 1;
        case 1 => m := 1;
        case 2 => m, e := 1, 1;
        case 3 => h := 2;
        case 4 => m, h := 1, 1;
        case 5 => m, e, h := 1, 1, 1;
        case _ =>
      }
    }

    /** Handles one trace line: fetches are ignored. */
    method Step(x: Entry, ghost tr: seq<Entry>) returns (h: nat, m: nat, e: nat)
      requires Valid(tr)
      requires x.op != 'I' ==> x.index < |sets| && Safe(E, Lru(E, History(tr, x.index)), x.tag)
      modifies sets, set c | c in sets :: c.lines
      ensures Valid(tr + [x])
      ensures Counts(h, m, e) == EntryCost(E, tr, x)
    {
      if x.op == 'I' {
        h, m, e := 0, 0, 0;
        Skip(x, tr);
      } else {
        h, m, e := Access(x, tr);
      }
    }

    /** Runs a trace from an empty cache; set indices are in range because the source masks them. */
    method Simulate(tr: seq<Entry>) returns (h: nat, m: nat, e: nat)
      requires Valid([]) && Defined(E, tr)
      requires forall x :: x in tr && x.op != 'I' ==> x.index < |sets|
      modifies sets, set c | c in sets :: c.lines
      ensures Valid(tr)
      ensures Counts(h, m, e) == Totals(E, tr)
    {
      hide Valid, EntryCost;
      h, m, e := 0, 0, 0;
      assert tr[..0] == [];
      for k := 0 to |tr|
        invariant Valid(tr[..k])
        invariant Counts(h, m, e) == Totals(E, tr[..k])
      {
        if tr[k].op != 'I' { NextIsSafe(E, tr, k); }
        assert tr[..k + 1] == tr[..k] + [tr[k]];
        TotalsGrow(E, tr[..k], tr[k]);
        var dh, dm, de := Step(tr[k], tr[..k]);
        h, m, e := h + dh, m + dm, e + de;
      }
      assert tr[..|tr|] == tr;
    }

    lemma Skip(x: Entry, tr: seq<Entry>)
      requires Valid(tr) && x.op == 'I'
      ensures Valid(tr + [x])
    {
      forall s ensures History(tr + [x], s) == History(tr, s) { HistoryAppend(tr, x, s); }
    }

    /** The valid lines in the first n sets. */
    ghost function ValidLines(n: nat): nat
      requires n <= |sets|
      reads this, sets, set c | c in sets :: c.lines
    {
      if n == 0 then 0 else ValidLines(n - 1) + CountValid(sets[n - 1].lines[..])
    }

    lemma {:induction false} ValidLinesHeld(tr: seq<Entry>, n: nat)
      requires Valid(tr) && n <= |sets|
      ensures ValidLines(n) == Sum(n, Held(E, tr))
    {
      hide Represents, Lru, CacheTrace.History, CountValid;
      if n > 0 {
        ValidLinesHeld(tr, n - 1);
        ValidIsHeld(sets[n - 1].lines[..], History(tr, n - 1));
      }
    }

    /** After any trace the counters account for every valid line of the cache. */
    lemma {:induction false} CountersMatchLines(tr: seq<Entry>)
      requires Valid(tr) && E > 0 && InRange(tr, |sets|)
      ensures Totals(E, tr).misses - Totals(E, tr).evictions == ValidLines(|sets|) <= |sets| * E
    {
      ValidLinesHeld(tr, |sets|);
      MissesMinusEvictions(E, |sets|, tr);
    }
  }
}
