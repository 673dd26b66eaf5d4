/** The rules of the game: boards, moves, the end of the game and who wins. */
module Mancala {
  import opened Sowing

  datatype Player = PlayerA | PlayerB

  /** The six pits and the store of player A, then those of player B, and whose turn it is. */
  datatype Board = Board(pits: seq<int>, current: Player)

  const BOARD_SIZE := 6
  const START_STONES := 4

  function PlayerNum(p: Player): int { if p.PlayerA? then 0 else 1 }

  function NextPlayer(p: Player): Player { if p.PlayerA? then PlayerB else PlayerA }

  /** The first board: every pit holds four stones, the stores are empty. */
  function Initial(): Board {
    var side := seq(BOARD_SIZE, _ => START_STONES) + [0];
    Board(side + side, PlayerA)
  }

  function FirstPit(p: Player): int { PlayerNum(p) * (BOARD_SIZE + 1) }

  function Store(p: Player): int { BOARD_SIZE + FirstPit(p) }

  // ----- the places, written out

  predicate OwnPit(p: Player, i: int) { if p.PlayerA? then 0 <= i <= 5 else 7 <= i <= 12 }

  function OwnStore(p: Player): int { if p.PlayerA? then 6 else 13 }

  function OtherStore(p: Player): int { if p.PlayerA? then 13 else 6 }

  /** The places computed from the board size are these. */
  lemma Places(p: Player)
    ensures Store(p) == OwnStore(p) && Store(NextPlayer(p)) == OtherStore(p)
    ensures forall i :: OwnPit(p, i) <==> FirstPit(p) <= i < Store(p)
  {
  }

  /** A board as the game knows it: fourteen places, no negative counts. */
  ghost predicate Valid(b: Board) {
    |b.pits| == 14 && forall k :: 0 <= k < 14 ==> b.pits[k] >= 0
  }

  function Range(lo: int, hi: int): (r: seq<int>)
    ensures forall x :: x in r <==> lo <= x <= hi
    decreases hi - lo
  {
    if lo > hi then [] else [lo] + Range(lo + 1, hi)
  }

  function Filter(f: int -> bool, s: seq<int>): (r: seq<int>)
    ensures forall x :: x in r <==> x in s && f(x)
  {
    if s == [] then [] else (if f(s[0]) then [s[0]] else []) + Filter(f, s[1..])
  }

  /** The pits of a player that hold stones, in order. */
  function AllowedMoves(b: Board, p: Player): (r: seq<int>)
    requires |b.pits| == 14
    ensures forall i :: i in r <==> FirstPit(p) <= i < Store(p) && b.pits[i] > 0
  {
    Filter(i => 0 <= i < |b.pits| && b.pits[i] > 0, Range(FirstPit(p), FirstPit(p) + BOARD_SIZE - 1))
  }

  predicate IsAllowedMove(b: Board, i: int)
    requires |b.pits| == 14
  {
    i in AllowedMoves(b, b.current)
  }

  /** A move: a disallowed one changes nothing; an allowed one empties the pit and sows, leaving out
      the opponent's store; landing in one's own store earns another turn. */
  function Move(b: Board, i: int): (r: Board)
    requires Valid(b)
    ensures |r.pits| == 14
  {
    if !IsAllowedMove(b, i) then b
    else
      ReplaceInRange(b.pits, i, 0);
      var n := b.pits[i];
      var j := Store(NextPlayer(b.current));
      Board(PlaceStones(Replace(b.pits, i, 0), i, j, n),
            if LandIndex(14, i, j, n) == Store(b.current) then b.current else NextPlayer(b.current))
  }

  function Side(b: Board, p: Player): seq<int>
    requires |b.pits| == 14
  {
    b.pits[FirstPit(p)..FirstPit(p) + BOARD_SIZE]
  }

  function SideWithStore(b: Board, p: Player): seq<int>
    requires |b.pits| == 14
  {
    Side(b, p) + [b.pits[Store(p)]]
  }

  predicate GameOver(b: Board)
    requires |b.pits| == 14
  {
    Total(Side(b, PlayerA)) == 0 || Total(Side(b, PlayerB)) == 0
  }

  function Winners(b: Board): seq<Player>
    requires |b.pits| == 14
  {
    var x, y := Total(SideWithStore(b, PlayerA)), Total(SideWithStore(b, PlayerB));
    if x > y then [PlayerA] else if x < y then [PlayerB] else []
  }

  // ----- allowed moves

  lemma {:induction false} SomethingThere(s: seq<int>) returns (k: nat)
    requires Total(s) != 0 && forall i :: 0 <= i < |s| ==> s[i] >= 0
    ensures k < |s| && s[k] > 0
  {
    if s[0] > 0 {
      k := 0;
    } else {
      var k' := SomethingThere(s[1..]);
      k := k' + 1;
    }
  }

  lemma {:induction false} NonNegative(s: seq<int>)
    requires forall i :: 0 <= i < |s| ==> s[i] >= 0
    ensures Total(s) >= 0
  {
    if s != [] { NonNegative(s[1..]); }
  }

  lemma {:induction false} SomeStone(s: seq<int>, k: nat)
    requires k < |s| && s[k] > 0 && forall i :: 0 <= i < |s| ==> s[i] >= 0
    ensures Total(s) > 0
  {
    if k > 0 { SomeStone(s[1..], k - 1); } else { NonNegative(s[1..]); }
  }

  /** A player has an allowed move exactly when its pits are not all empty. */
  lemma MovesOfIff(b: Board, p: Player)
    requires Valid(b)
    ensures AllowedMoves(b, p) == [] <==> Total(Side(b, p)) == 0
    ensures AllowedMoves(b, p) == [] <==> forall i :: OwnPit(p, i) ==> b.pits[i] == 0
  {
    Places(p);
    var side := Side(b, p);
    if Total(side) != 0 {
      var k := SomethingThere(side);
      assert FirstPit(p) + k in AllowedMoves(b, p);
    } else if AllowedMoves(b, p) != [] {
      var i := AllowedMoves(b, p)[0];
      assert i in AllowedMoves(b, p);
      assert side[i - FirstPit(p)] == b.pits[i];
      SomeStone(side, i - FirstPit(p));
    }
  }

  ghost predicate Ascending(s: seq<int>) {
    forall i, j :: 0 <= i < j < |s| ==> s[i] < s[j]
  }

  lemma {:induction false} RangeAscends(lo: int, hi: int)
    ensures Ascending(Range(lo, hi))
    decreases hi - lo
  {
    if lo <= hi {
      RangeAscends(lo + 1, hi);
      var r := Range(lo + 1, hi);
      forall k | 0 <= k < |r| ensures lo < r[k] { assert r[k] in r; }
    }
  }

  lemma {:induction false} FilterAscends(f: int -> bool, s: seq<int>)
    requires Ascending(s)
    ensures Ascending(Filter(f, s))
  {
    if s != [] {
      FilterAscends(f, s[1..]);
      var r := Filter(f, s[1..]);
      forall k | 0 <= k < |r| ensures s[0] < r[k] {
        assert r[k] in r && r[k] in s[1..];
      }
    }
  }

  /** The allowed moves are exactly the player's own pits with stones, each once, in board order. */
  lemma AllowedMovesAre(b: Board, p: Player)
    requires |b.pits| == 14
    ensures Ascending(AllowedMoves(b, p))
    ensures forall i :: i in AllowedMoves(b, p) <==> OwnPit(p, i) && b.pits[i] > 0
  {
    Places(p);
    var lo := FirstPit(p);
    RangeAscends(lo, lo + BOARD_SIZE - 1);
    FilterAscends(i => 0 <= i < |b.pits| && b.pits[i] > 0, Range(lo, lo + BOARD_SIZE - 1));
  }

  /** The game is over exactly when one of the players has no allowed move; until then the player to
      move has one. */
  lemma GameOverIff(b: Board)
    requires Valid(b)
    ensures GameOver(b) <==> AllowedMoves(b, PlayerA) == [] || AllowedMoves(b, PlayerB) == []
    ensures GameOver(b) <==>
            (forall i :: 0 <= i <= 5 ==> b.pits[i] == 0) || (forall i :: 7 <= i <= 12 ==> b.pits[i] == 0)
    ensures !GameOver(b) ==> exists i :: IsAllowedMove(b, i)
  {
    hide Total, Side;
    MovesOfIff(b, PlayerA);
    MovesOfIff(b, PlayerB);
    if !GameOver(b) {
      assert IsAllowedMove(b, AllowedMoves(b, b.current)[0]);
    }
  }
}
