/** What every move keeps, and why every game ends. */
module MancalaGame {
  import opened Sowing
  import opened Mancala

  // ----- one move

  /** The parts of an allowed move: the pit, its stones, the store left out. */
  lemma {:induction false} MoveParts(b: Board, i: int)
    requires Valid(b) && IsAllowedMove(b, i)
    ensures 0 <= i < 14 && b.pits[i] > 0
    ensures var j, s := OtherStore(b.current), OwnStore(b.current);
            && Ring(14, i, j) && i != j && i != s && s != j && {s, j} == {6, 13}
            && 1 <= s - i <= 6 && Ahead(14, i, s) == s - i && Ahead(14, i, j) == s - i + 7
            && Move(b, i).pits == PlaceStones(b.pits[i := 0], i, j, b.pits[i])
  {
    Places(b.current);
    ReplaceInRange(b.pits, i, 0);
  }

  /** What every place holds after an allowed move: the opponent's store what it held, every other
      place one more for each full round and one more again if it is among the first of the rest, the
      emptied pit counting from nothing. */
  lemma {:induction false} MoveByRounds(b: Board, i: int, p: int)
    requires Valid(b) && IsAllowedMove(b, i) && 0 <= p < 14
    ensures var j, n := OtherStore(b.current), b.pits[i];
            var base := if p == i then 0 else b.pits[p];
            && |Round(14, i, j, 14)| == 13 && |Move(b, i).pits| == 14
            && Move(b, i).pits[p] ==
               if p == j then b.pits[p]
               else base + n / 13 + if p in Round(14, i, j, 14)[..n % 13] then 1 else 0
  {
    MoveParts(b, i);
    SownByRounds(b.pits[i := 0], i, OtherStore(b.current), b.pits[i], p);
  }

  /** A pick outside the current player's own pits with stones leaves the whole board as it is, and whose
      turn it is. */
  lemma DisallowedPick(b: Board, i: int)
    requires Valid(b) && !(OwnPit(b.current, i) && b.pits[i] > 0)
    ensures Move(b, i) == b
  {
    AllowedMovesAre(b, b.current);
  }

  /** A move keeps the board valid and the number of stones; a disallowed one changes nothing, not even whose
      turn it is. */
  lemma MoveConserves(b: Board, i: int)
    requires Valid(b)
    ensures Valid(Move(b, i)) && Total(Move(b, i).pits) == Total(b.pits)
    ensures !(OwnPit(b.current, i) && b.pits[i] > 0) ==> Move(b, i) == b
  {
    if !(OwnPit(b.current, i) && b.pits[i] > 0) { DisallowedPick(b, i); }
    if IsAllowedMove(b, i) {
      MoveParts(b, i);
      PlacingAddsAll(b.pits[i := 0], i, OtherStore(b.current), b.pits[i]);
      TotalUpdate(b.pits, i, 0);
      forall p | 0 <= p < 14 ensures Move(b, i).pits[p] >= 0 { MoveByRounds(b, i, p); }
    }
  }

  lemma TurnByLanding(b: Board, i: int)
    requires Valid(b) && IsAllowedMove(b, i)
    ensures Move(b, i).current == b.current <==>
            LandIndex(14, i, OtherStore(b.current), b.pits[i]) == OwnStore(b.current)
  {
  }

  /** The player moves again exactly when the last stone of the sowing goes into its own store. */
  lemma ExtraTurnIff(b: Board, i: int)
    requires Valid(b) && IsAllowedMove(b, i)
    ensures var s, n := OwnStore(b.current), b.pits[i];
            var before := Sown(b.pits[i := 0], i, OtherStore(b.current), n - 1);
            && (Move(b, i).current == b.current <==> Move(b, i).pits == OneMore(before, s))
            && (Move(b, i).current == b.current <==> Move(b, i).pits[s] != before[s])
  {
    MoveParts(b, i);
    var j, s, n := OtherStore(b.current), OwnStore(b.current), b.pits[i];
    var before := Sown(b.pits[i := 0], i, j, n - 1);
    LandsWhereSown(b.pits[i := 0], i, j, n);
    OneMoreTells(before, LandIndex(14, i, j, n), s);
    TurnByLanding(b, i);
  }

  // ----- progress

  function Stores(b: Board): int
    requires |b.pits| == 14
  {
    b.pits[6] + b.pits[13]
  }

  /** Stones in pits, each weighted by its distance to the store of its side. */
  function Potential(b: Board): int
    requires |b.pits| == 14
  {
    var s := b.pits;
    6 * s[0] + 5 * s[1] + 4 * s[2] + 3 * s[3] + 2 * s[4] + s[5]
    + 6 * s[7] + 5 * s[8] + 4 * s[9] + 3 * s[10] + 2 * s[11] + s[12]
  }

  /** A move too short to reach the store puts one stone into each of the next pits. */
  lemma ShortMove(b: Board, i: int, p: int)
    requires Valid(b) && IsAllowedMove(b, i) && 0 <= p < 14
    requires b.pits[i] < OwnStore(b.current) - i
    ensures Move(b, i).pits[p] ==
            if p == i then 0 else if i < p <= i + b.pits[i] then b.pits[p] + 1 else b.pits[p]
  {
    var j, n := OtherStore(b.current), b.pits[i];
    MoveParts(b, i);
    MoveByRounds(b, i, p);
    if p != j { InFirst(14, i, j, p, n % 13); }
  }

  /** A move that reaches the store raises it. */
  lemma LongMove(b: Board, i: int)
    requires Valid(b) && IsAllowedMove(b, i) && b.pits[i] >= OwnStore(b.current) - i
    ensures Move(b, i).pits[OwnStore(b.current)] > b.pits[OwnStore(b.current)]
  {
    var j, n, s := OtherStore(b.current), b.pits[i], OwnStore(b.current);
    MoveParts(b, i);
    MoveByRounds(b, i, s);
    InFirst(14, i, j, s, n % 13);
  }

  /** Each allowed move leaves the opponent's store alone and either raises the mover's store or keeps
      it and brings stones strictly nearer to the stores. */
  lemma MoveProgresses(b: Board, i: int)
    requires Valid(b) && IsAllowedMove(b, i)
    ensures Move(b, i).pits[OtherStore(b.current)] == b.pits[OtherStore(b.current)]
    ensures var s := OwnStore(b.current);
            || Move(b, i).pits[s] > b.pits[s]
            || (Move(b, i).pits[s] == b.pits[s] && Potential(Move(b, i)) < Potential(b))
  {
    MoveParts(b, i);
    MoveByRounds(b, i, OtherStore(b.current));
    if b.pits[i] >= OwnStore(b.current) - i {
      LongMove(b, i);
    } else {
      forall p | 0 <= p < 14
        ensures Move(b, i).pits[p] ==
                if p == i then 0 else if i < p <= i + b.pits[i] then b.pits[p] + 1 else b.pits[p]
      {
        ShortMove(b, i, p);
      }
      PotentialDrops(b, Move(b, i), i);
    }
  }

  lemma PotentialDrops(b: Board, b': Board, i: int)
    requires Valid(b) && |b'.pits| == 14
    requires (0 <= i < 6 && 0 < b.pits[i] < 6 - i) || (7 <= i < 13 && 0 < b.pits[i] < 13 - i)
    requires forall p :: 0 <= p < 14 ==>
               b'.pits[p] == if p == i then 0 else if i < p <= i + b.pits[i] then b.pits[p] + 1 else b.pits[p]
    ensures Potential(b') < Potential(b)
  {
    match i
    case 0 => case 1 => case 2 => case 3 => case 4 => case 5 =>
    case 7 => case 8 => case 9 => case 10 => case 11 => case _ =>
  }

  // ----- every game is finite

  lemma {:induction false} TotalOfFourteen(s: seq<int>)
    requires |s| == 14
    ensures Total(s) == s[0] + s[1] + s[2] + s[3] + s[4] + s[5] + s[6]
                        + s[7] + s[8] + s[9] + s[10] + s[11] + s[12] + s[13]
  {
    forall k | 0 <= k < 14 ensures Total(s[k..]) == s[k] + Total(s[k + 1..]) {
      assert s[k..][1..] == s[k + 1..];
    }
    assert s[0..] == s && Total(s[14..]) == 0;
  }

  lemma PotentialBounds(b: Board)
    requires Valid(b)
    ensures 0 <= Stores(b) <= Total(b.pits) && 0 <= Potential(b) <= 6 * Total(b.pits)
  {
    TotalOfFourteen(b.pits);
  }

  /** More moves than this no game from the board can have. */
  function Bound(b: Board): int
    requires |b.pits| == 14
  {
    Weigh(Total(b.pits), Stores(b), Potential(b))
  }

  /** Stones not yet in a store, each counting for more than any potential, and the potential. */
  function Weigh(t: int, stored: int, potential: int): int {
    (t - stored) * (6 * t + 1) + potential
  }

  lemma WeighDrops(t: int, s: int, p: int, s': int, p': int)
    requires 0 <= s <= s' <= t && 0 <= p && 0 <= p' <= 6 * t && (s < s' || p' < p)
    ensures 0 <= Weigh(t, s', p') < Weigh(t, s, p)
  {
    var w := 6 * t + 1;
    assert (t - s') * w >= 0;
    if s < s' {
      assert (t - s) * w == (s' - s) * w + (t - s') * w;
      AtLeastOnce(s' - s, w);
    }
  }

  lemma WeighNatural(t: int, stored: int, potential: int)
    requires 0 <= stored <= t && 0 <= potential
    ensures Weigh(t, stored, potential) >= 0
  {
  }

  lemma MoveCountsDown(b: Board, i: int)
    requires Valid(b) && IsAllowedMove(b, i)
    ensures Valid(Move(b, i)) && Total(Move(b, i).pits) == Total(b.pits)
    ensures Stores(Move(b, i)) > Stores(b) || (Stores(Move(b, i)) == Stores(b) && Potential(Move(b, i)) < Potential(b))
  {
    MoveConserves(b, i);
    MoveProgresses(b, i);
    MoveParts(b, i);
  }

  lemma BoundDrops(b: Board, i: int)
    requires Valid(b) && IsAllowedMove(b, i)
    ensures Valid(Move(b, i)) && 0 <= Bound(Move(b, i)) < Bound(b)
  {
    var b' := Move(b, i);
    MoveCountsDown(b, i);
    PotentialBounds(b);
    PotentialBounds(b');
    WeighDrops(Total(b.pits), Stores(b), Potential(b), Stores(b'), Potential(b'));
  }

  lemma BoundIsNatural(b: Board)
    requires Valid(b)
    ensures Bound(b) >= 0
  {
    PotentialBounds(b);
    WeighNatural(Total(b.pits), Stores(b), Potential(b));
  }

  /** A sequence of allowed moves played one after the other. */
  ghost predicate Played(b: Board, moves: seq<int>)
    decreases moves
  {
    Valid(b) && (moves == [] || (IsAllowedMove(b, moves[0]) && Played(Move(b, moves[0]), moves[1..])))
  }

  function After(b: Board, moves: seq<int>): Board
    requires Played(b, moves)
    decreases moves
  {
    if moves == [] then b else After(Move(b, moves[0]), moves[1..])
  }

  /** Every game is finite: no sequence of allowed moves is longer than the bound of its first board. */
  lemma {:induction false} GamesAreFinite(b: Board, moves: seq<int>)
    requires Played(b, moves)
    ensures |moves| <= Bound(b)
    decreases moves
  {
    if moves == [] {
      BoundIsNatural(b);
    } else {
      BoundDrops(b, moves[0]);
      GamesAreFinite(Move(b, moves[0]), moves[1..]);
    }
  }

  /** No stone is lost or made in any game. */
  lemma {:induction false} GamesConserve(b: Board, moves: seq<int>)
    requires Played(b, moves)
    ensures Valid(After(b, moves)) && Total(After(b, moves).pits) == Total(b.pits)
    decreases moves
  {
    if moves != [] {
      MoveConserves(b, moves[0]);
      GamesConserve(Move(b, moves[0]), moves[1..]);
    }
  }

  lemma InitialPits()
    ensures |Initial().pits| == 14 && Initial().current == PlayerA
    ensures forall k :: 0 <= k < 14 ==> Initial().pits[k] == if k == 6 || k == 13 then 0 else 4
  {
  }

  lemma InitialBoard()
    ensures Valid(Initial()) && Total(Initial().pits) == 48 && Bound(Initial()) == 14040
  {
    InitialPits();
    hide Initial, Total;
    TotalOfFourteen(Initial().pits);
  }

  /** From the first board no game has more than 14040 moves, and all its boards hold 48 stones. */
  lemma {:induction false} GamesFromInitial(moves: seq<int>)
    requires Played(Initial(), moves)
    ensures Initial() == Board([4, 4, 4, 4, 4, 4, 0, 4, 4, 4, 4, 4, 4, 0], PlayerA)
    ensures |moves| <= 14040 && Total(After(Initial(), moves).pits) == 48
  {
    hide Played, After, Total;
    InitialPits();
    InitialBoard();
    GamesAreFinite(Initial(), moves);
    GamesConserve(Initial(), moves);
  }

  lemma {:induction false} TotalConcat(s: seq<int>, t: seq<int>)
    ensures Total(s + t) == Total(s) + Total(t)
  {
    if s == [] {
      assert s + t == t;
    } else {
      TotalConcat(s[1..], t);
      assert (s + t)[1..] == s[1..] + t;
    }
  }

  /** A player wins exactly when its side and store hold more than half of all stones, at the end of
      any game as on any board. */
  lemma WinsByMajority(b: Board)
    requires Valid(b)
    ensures Winners(b) == [PlayerA] <==> 2 * Total(b.pits[0..7]) > Total(b.pits)
    ensures Winners(b) == [PlayerB] <==> 2 * Total(b.pits[7..14]) > Total(b.pits)
    ensures Winners(b) == [] <==> 2 * Total(b.pits[0..7]) == Total(b.pits)
  {
    var x, y := SideWithStore(b, PlayerA), SideWithStore(b, PlayerB);
    assert b.pits == x + y && x == b.pits[0..7] && y == b.pits[7..14];
    TotalConcat(x, y);
  }

  // ----- games as the players type them

  /** The board after any picks, allowed or not. */
  function Typed(b: Board, picks: seq<int>): Board
    requires Valid(b)
    decreases picks
  {
    if picks == [] then b else MoveConserves(b, picks[0]); Typed(Move(b, picks[0]), picks[1..])
  }

  /** The picks that were allowed when their turn came. */
  function Legal(b: Board, picks: seq<int>): seq<int>
    requires Valid(b)
    decreases picks
  {
    if picks == [] then []
    else if OwnPit(b.current, picks[0]) && b.pits[picks[0]] > 0 then
      MoveConserves(b, picks[0]);
      [picks[0]] + Legal(Move(b, picks[0]), picks[1..])
    else Legal(b, picks[1..])
  }

  /** Disallowed picks do not count: the board and the player to move are those of the game of the allowed
      ones. */
  lemma {:induction false} OnlyLegalPicksCount(b: Board, picks: seq<int>)
    requires Valid(b)
    ensures Played(b, Legal(b, picks)) && After(b, Legal(b, picks)) == Typed(b, picks)
    decreases picks
  {
    if picks != [] {
      var i, rest := picks[0], picks[1..];
      AllowedMovesAre(b, b.current);
      MoveConserves(b, i);
      if OwnPit(b.current, i) && b.pits[i] > 0 {
        var l := Legal(Move(b, i), rest);
        OnlyLegalPicksCount(Move(b, i), rest);
        assert Legal(b, picks) == [i] + l;
        assert ([i] + l)[1..] == l;
      } else {
        DisallowedPick(b, i);
        OnlyLegalPicksCount(b, rest);
      }
    }
  }
}
