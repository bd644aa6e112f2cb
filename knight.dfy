/**
 * The knight's moves (the `knight_moves` table of KnightPathFinder) and the
 * walks they allow: what find_shortest_paths searches for.
 */
module Knight {
  import opened Board

  type Offset = (int, int)
  type Path = seq<Square>

  /** The eight offsets (dx, dy), in the order the search tries them. */
  const KnightMoves: seq<Offset> := [(2, 1), (1, 2), (-1, 2), (-2, 1), (-2, -1), (-1, -2), (1, -2), (2, -1)]

  function Abs(n: int): nat {
    if n < 0 then -n else n
  }

  /** An L-shaped jump: two squares along one axis and one along the other. */
  predicate IsLShape(move: Offset) {
    (Abs(move.0) == 1 && Abs(move.1) == 2) || (Abs(move.0) == 2 && Abs(move.1) == 1)
  }

  /** The square reached from `sq` by `move`. */
  function Add(sq: Square, move: Offset): Square {
    (sq.0 + move.0, sq.1 + move.1)
  }

  /** The offset that leads from `from` to `to`. */
  function OffsetBetween(from: Square, to: Square): Offset {
    (to.0 - from.0, to.1 - from.1)
  }

  /** The table holds every L-shaped jump and nothing else. */
  lemma KnightMovesAreLShapes(move: Offset)
    ensures move in KnightMoves <==> IsLShape(move)
  {
    if IsLShape(move) {
      var (dx, dy) := move;
      if dx == 2 && dy == 1 { assert KnightMoves[0] == move; }
      else if dx == 1 && dy == 2 { assert KnightMoves[1] == move; }
      else if dx == -1 && dy == 2 { assert KnightMoves[2] == move; }
      else if dx == -2 && dy == 1 { assert KnightMoves[3] == move; }
      else if dx == -2 && dy == -1 { assert KnightMoves[4] == move; }
      else if dx == -1 && dy == -2 { assert KnightMoves[5] == move; }
      else if dx == 1 && dy == -2 { assert KnightMoves[6] == move; }
      else { assert KnightMoves[7] == move; }
    }
  }

  /** The eight entries of the table are distinct, so one square has eight different successors. */
  lemma KnightMovesDistinct()
    ensures |KnightMoves| == 8
    ensures forall i, j :: 0 <= i < j < |KnightMoves| ==> KnightMoves[i] != KnightMoves[j]
  {
  }

  /** One knight move, onto a square of the board, as the search makes it: an L-shaped jump that lands on the board. */
  predicate IsMove(from: Square, to: Square): (m: bool)
    ensures m <==> IsLShape(OffsetBetween(from, to)) && IsValid(to.0, to.1)
  {
    KnightMovesAreLShapes(OffsetBetween(from, to));
    OffsetBetween(from, to) in KnightMoves && IsValid(to.0, to.1)
  }

  function Last(p: Path): Square
    requires p != []
  {
    p[|p| - 1]
  }

  function DropLast(p: Path): Path
    requires p != []
  {
    p[..|p| - 1]
  }

  /**
   * A walk from `start`: it begins at `start` (which need not be on the
   * board) and every later square is one knight move from the one before it.
   */
  predicate IsWalkFrom(p: Path, start: Square) {
    |p| >= 1 && p[0] == start && forall i :: 0 < i < |p| ==> IsMove(p[i - 1], p[i])
  }

  predicate IsKnightWalk(p: Path, start: Square, end: Square) {
    IsWalkFrom(p, start) && Last(p) == end
  }

  /**
   * A knight walk from `start` to `end` with no more squares than any other.
   * It is the single square `[start]` exactly when the two squares coincide.
   */
  ghost predicate IsShortestWalk(p: Path, start: Square, end: Square): (s: bool)
    ensures s ==> |p| >= 1 && p[0] == start && Last(p) == end
    ensures s ==> (|p| == 1 <==> start == end)
  {
    assert start == end ==> IsKnightWalk([start], start, end);
    IsKnightWalk(p, start, end) && forall q :: IsKnightWalk(q, start, end) ==> |p| <= |q|
  }

  lemma PrefixIsWalk(p: Path, start: Square, n: nat)
    requires IsWalkFrom(p, start) && 1 <= n <= |p|
    ensures IsWalkFrom(p[..n], start)
  {
  }

  /** A walk to `sq` followed by the rest of a walk after a visit to `sq` is a walk. */
  lemma SpliceWalks(h: Path, p: Path, start: Square, j: nat)
    requires IsWalkFrom(h, start) && IsWalkFrom(p, start)
    requires j < |p| && Last(h) == p[j]
    ensures IsWalkFrom(h + p[j + 1..], start) && Last(h + p[j + 1..]) == Last(p)
    ensures |h + p[j + 1..]| == |h| + |p| - j - 1
  {
    var r := h + p[j + 1..];
    forall i | 0 < i < |r|
      ensures IsMove(r[i - 1], r[i])
    {
      if i < |h| {
        assert r[i - 1] == h[i - 1] && r[i] == h[i];
      } else if i == |h| {
        assert r[i - 1] == p[j] && r[i] == p[j + 1];
      } else {
        var k := i - |h| + j + 1;
        assert r[i - 1] == p[k - 1] && r[i] == p[k];
      }
    }
  }

  /** Cutting out the stretch between two visits to one square leaves a shorter walk between the same squares. */
  lemma CutLoop(p: Path, start: Square, end: Square, i: nat, j: nat)
    requires IsKnightWalk(p, start, end) && i < j < |p| && p[i] == p[j]
    ensures IsKnightWalk(p[..i + 1] + p[j + 1..], start, end) && |p[..i + 1] + p[j + 1..]| < |p|
  {
    PrefixIsWalk(p, start, i + 1);
    SpliceWalks(p[..i + 1], p, start, j);
  }

  /** A shortest walk never comes back to a square it has already visited. */
  lemma ShortestWalkIsSimple(p: Path, start: Square, end: Square)
    requires IsShortestWalk(p, start, end)
    ensures forall i, j :: 0 <= i < j < |p| ==> p[i] != p[j]
  {
    forall i, j | 0 <= i < j < |p|
      ensures p[i] != p[j]
    {
      if p[i] == p[j] {
        CutLoop(p, start, end, i, j);
        assert false;
      }
    }
  }

  /** Every square of a walk after the first is on the board, so no walk reaches an off-board square it did not start on. */
  lemma OffBoardUnreachable(start: Square, end: Square)
    requires start != end && !IsValid(end.0, end.1)
    ensures forall p :: !IsKnightWalk(p, start, end)
  {
    forall p | IsWalkFrom(p, start)
      ensures Last(p) != end
    {
      if |p| > 1 {
        assert IsMove(p[|p| - 2], p[|p| - 1]);
      }
    }
  }

  /** The one-square walk is the shortest walk from a square to itself, and the only one. */
  lemma TrivialWalk(start: Square)
    ensures IsShortestWalk([start], start, start)
    ensures forall p :: IsShortestWalk(p, start, start) ==> p == [start]
  {
    forall p | IsShortestWalk(p, start, start)
      ensures p == [start]
    {
      assert IsKnightWalk([start], start, start);
    }
  }

  /** From a1 the knight reaches b3 in one move, and that walk is the only shortest one. */
  lemma OneMoveWalk()
    ensures IsShortestWalk([(0, 0), (2, 1)], (0, 0), (2, 1))
    ensures forall p :: IsShortestWalk(p, (0, 0), (2, 1)) ==> p == [(0, 0), (2, 1)]
  {
    var w := [(0, 0), (2, 1)];
    assert OffsetBetween(w[0], w[1]) == KnightMoves[0];
    assert IsKnightWalk(w, (0, 0), (2, 1));
    forall p | IsShortestWalk(p, (0, 0), (2, 1))
      ensures p == w
    {
      assert |p| <= 2;
    }
  }
}
