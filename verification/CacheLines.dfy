/** What the lines of a cache set mean: age counters in each line stand for a recency list. */
module CacheLines {
  import opened Recency
  import opened CacheTrace

  datatype Line = Line(valid: bool, tag: Tag, usage: nat)

  ghost function Tags(lines: seq<Line>): seq<Tag> {
    seq(|lines|, i requires 0 <= i < |lines| => lines[i].tag)
  }

  /** The lines of a set represent the access history `h`: the valid lines are a prefix, hold
      exactly the tags of the recency list, each once, and count the accesses since the last use of
      their tag. */
  ghost predicate Represents(lines: seq<Line>, h: seq<Tag>) {
    var r := Lru(|lines|, h);
    && |r| <= |lines|
    && (forall i :: 0 <= i < |lines| ==> (lines[i].valid <==> i < |r|) && lines[i].usage <= |h|)
    && (forall i :: 0 <= i < |r| ==> lines[i].tag in r && lines[i].usage == Age(h, lines[i].tag))
    && (forall i, j :: 0 <= i < j < |r| ==> lines[i].tag != lines[j].tag)
    && (forall t :: t in r ==> t in Tags(lines[..|r|]))
  }

  function Aged(l: Line): Line { l.(usage := l.usage + 1) }

  /** The lines after all counters were raised and line `i` was reset. */
  ghost function Bumped(lines: seq<Line>, i: nat): seq<Line>
    requires i < |lines|
  {
    seq(|lines|, j requires 0 <= j < |lines| => if j == i then lines[j].(usage := 0) else Aged(lines[j]))
  }

  lemma EmptySet(lines: seq<Line>)
    requires forall i :: 0 <= i < |lines| ==> lines[i] == Line(false, 0, 0)
    ensures Represents(lines, [])
  {
  }

  lemma {:induction false} AgeAppend(h: seq<Tag>, t: Tag, x: Tag)
    ensures Age(h + [t], x) == if x == t then 0 else 1 + Age(h, x)
  {
    assert (h + [t])[..|h|] == h;
  }

  lemma InTags(lines: seq<Line>, k: nat, t: Tag) returns (i: nat)
    requires k <= |lines| && t in Tags(lines[..k])
    ensures i < k && lines[i].tag == t
  {
    i :| 0 <= i < k && Tags(lines[..k])[i] == t;
  }

  /** A hit: the line that holds the tag is found and reset. */
  lemma RepresentsHit(lines: seq<Line>, h: seq<Tag>, i: nat)
    requires Represents(lines, h) && i < |lines| && lines[i].valid
    ensures Represents(Bumped(lines, i), h + [lines[i].tag])
  {
    hide Lru, Age;
    var t := lines[i].tag;
    var E := |lines|;
    var r := Lru(E, h);
    var b := Bumped(lines, i);
    LruDistinct(E, h);
    LruAppend(E, h, t);
    WithoutDistinct(r, t);
    var r' := Lru(E, h + [t]);
    assert r' == [t] + Without(r, t);
    assert |r'| == |r|;
    forall x ensures Age(h + [t], x) == if x == t then 0 else 1 + Age(h, x) { AgeAppend(h, t, x); }
    assert forall j :: 0 <= j < E ==> b[j].tag == lines[j].tag && b[j].valid == lines[j].valid;
    forall x | x in r' ensures x in Tags(b[..|r|]) {
      assert x in r;
      var j := InTags(lines, |r|, x);
      assert Tags(b[..|r|])[j] == x;
    }
  }

  /** A miss with a free line: the first invalid line takes the tag. */
  lemma RepresentsFill(lines: seq<Line>, h: seq<Tag>, i: nat, t: Tag)
    requires Represents(lines, h) && t !in Lru(|lines|, h)
    requires i == |Lru(|lines|, h)| < |lines|
    ensures Represents(Bumped(lines[i := lines[i].(valid := true, tag := t)], i), h + [t])
  {
    hide Lru, Age;
    var E := |lines|;
    var r := Lru(E, h);
    var b := Bumped(lines[i := lines[i].(valid := true, tag := t)], i);
    LruAppend(E, h, t);
    var r' := Lru(E, h + [t]);
    assert r' == [t] + r;
    forall x ensures Age(h + [t], x) == if x == t then 0 else 1 + Age(h, x) { AgeAppend(h, t, x); }
    assert forall j :: 0 <= j < i ==> b[j].tag == lines[j].tag;
    forall x | x in r' ensures x in Tags(b[..|r'|]) {
      if x == t {
        assert Tags(b[..|r'|])[i] == t;
      } else {
        var j := InTags(lines, |r|, x);
        assert Tags(b[..|r'|])[j] == x;
      }
    }
  }

  ghost predicate IsMaxUsage(lines: seq<Line>, i: nat) {
    i < |lines| && forall j :: 0 <= j < |lines| ==> lines[j].usage <= lines[i].usage
  }

  /** In a full set the line of the least recently used tag has a larger counter than any other. */
  lemma {:induction false} OldestLine(lines: seq<Line>, h: seq<Tag>, last: nat, j: nat)
    requires Represents(lines, h) && |Lru(|lines|, h)| == |lines|
    requires last < |lines| && lines[last].tag == Lru(|lines|, h)[|lines| - 1]
    requires j < |lines| && j != last
    ensures lines[j].usage < lines[last].usage
  {
    var E := |lines|;
    assert lines[j].tag != lines[last].tag;
    LastIsOldest(E, h, lines[j].tag);
  }

  /** The line of the least recently used tag of a full set. */
  lemma LastLine(lines: seq<Line>, h: seq<Tag>) returns (last: nat)
    requires Represents(lines, h) && |Lru(|lines|, h)| == |lines| > 0
    ensures last < |lines| && lines[last].tag == Lru(|lines|, h)[|lines| - 1]
    ensures forall j :: 0 <= j < |lines| && j != last ==> lines[j].usage < lines[last].usage
  {
    hide Lru;
    last := InTags(lines, |lines|, Lru(|lines|, h)[|lines| - 1]);
    forall j | 0 <= j < |lines| && j != last ensures lines[j].usage < lines[last].usage {
      OldestLine(lines, h, last, j);
    }
  }

  /** In a full set a line with the largest counter is the only one, and it holds the least recently
      used tag. */
  lemma {:induction false} VictimIsLeastRecent(lines: seq<Line>, h: seq<Tag>, i: nat)
    requires Represents(lines, h) && |Lru(|lines|, h)| == |lines| && IsMaxUsage(lines, i)
    ensures lines[i].tag == Lru(|lines|, h)[|lines| - 1]
    ensures forall j :: 0 <= j < |lines| && j != i ==> lines[j].usage < lines[i].usage
  {
    hide Represents, Lru;
    var last := LastLine(lines, h);
    assert i == last;
  }

  /** Recency after an eviction: all tags but the oldest stay. */
  lemma EvictedRecency(E: nat, h: seq<Tag>, t: Tag) returns (kept: seq<Tag>)
    requires E > 0 && |Lru(E, h)| == E && t !in Lru(E, h)
    ensures Lru(E, h + [t]) == [t] + kept && |kept| == E - 1
    ensures forall x :: x in kept <==> x in Lru(E, h) && x != Lru(E, h)[E - 1]
  {
    LruDistinct(E, h);
    AllButLast(Lru(E, h), E);
    kept := LruStep(E, h, t);
  }

  /** A miss in a full set: the line with the largest counter is overwritten. */
  lemma RepresentsEvict(lines: seq<Line>, h: seq<Tag>, i: nat, t: Tag)
    requires Represents(lines, h) && t !in Lru(|lines|, h)
    requires |Lru(|lines|, h)| == |lines| && IsMaxUsage(lines, i)
    ensures Represents(Bumped(lines[i := lines[i].(tag := t)], i), h + [t])
  {
    hide Lru, Age;
    var E := |lines|;
    var b := Bumped(lines[i := lines[i].(tag := t)], i);
    VictimIsLeastRecent(lines, h, i);
    var kept := EvictedRecency(E, h, t);
    var r' := Lru(E, h + [t]);
    forall x ensures Age(h + [t], x) == if x == t then 0 else 1 + Age(h, x) { AgeAppend(h, t, x); }
    forall j | 0 <= j < E && j != i ensures b[j].tag in kept {
      assert lines[j].tag in Lru(E, h) && lines[j].tag != lines[i].tag;
    }
    forall x | x in r' ensures x in Tags(b[..E]) {
      var j := i;
      if x != t {
        assert x in kept;
        j := InTags(lines, E, x);
        assert j != i;
      }
      assert Tags(b[..E])[j] == x;
    }
  }

  /** The scan for the largest counter assigns its result in every reachable full set exactly when
      the set has at least two lines: with one line the counter is always 0. */
  lemma {:induction false} VictimAssignedIff(lines: seq<Line>, h: seq<Tag>)
    requires Represents(lines, h) && |Lru(|lines|, h)| == |lines|
    ensures (exists i :: 0 <= i < |lines| && lines[i].usage > 0) <==> |lines| >= 2
  {
    var E := |lines|;
    if E >= 2 {
      LruAges(E, h, 0, E - 1);
      var last := InTags(lines, E, Lru(E, h)[E - 1]);
      assert lines[last].usage > 0;
    } else if E == 1 {
      var init, t := h[..|h|-1], h[|h|-1];
      assert Lru(1, h) == [t];
    }
  }

  /** On a reachable set an access is safe exactly when it hits, finds a free line, or the victim scan
      assigns its result. */
  lemma {:induction false} SafeIff(lines: seq<Line>, h: seq<Tag>, t: Tag)
    requires Represents(lines, h)
    ensures Safe(|lines|, Lru(|lines|, h), t) <==>
            t in Lru(|lines|, h) || |Lru(|lines|, h)| < |lines|
            || exists i :: 0 <= i < |lines| && lines[i].usage > 0
  {
    if |Lru(|lines|, h)| == |lines| { VictimAssignedIff(lines, h); }
  }

  /** A reachable set of one line on which the scan assigns nothing: the line was filled by the only
      access so far. */
  lemma OneLineVictim(t: Tag)
    ensures var lines := [Line(true, t, 0)];
            && Represents(lines, [t]) && |Lru(1, [t])| == 1
            && !exists i :: 0 <= i < |lines| && lines[i].usage > 0
  {
    assert Lru(1, [t][..0]) == [];
    assert Lru(1, [t]) == [t];
    assert Tags([Line(true, t, 0)][..1])[0] == t;
  }

  // ----- how many lines are in use

  ghost function CountValid(lines: seq<Line>): nat {
    if lines == [] then 0 else CountValid(lines[..|lines|-1]) + if lines[|lines|-1].valid then 1 else 0
  }

  lemma {:induction false} CountPrefix(lines: seq<Line>, n: nat)
    requires forall i :: 0 <= i < |lines| ==> (lines[i].valid <==> i < n)
    ensures CountValid(lines) == if n < |lines| then n else |lines|
  {
    if lines != [] { CountPrefix(lines[..|lines|-1], n); }
  }

  /** As many lines are valid as the recency list is long. */
  lemma {:induction false} ValidIsHeld(lines: seq<Line>, h: seq<Tag>)
    requires Represents(lines, h)
    ensures CountValid(lines) == |Lru(|lines|, h)|
  {
    CountPrefix(lines, |Lru(|lines|, h)|);
  }
}
