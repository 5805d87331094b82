/**
 * The toroidal move of the empty tile (`GetEmptyPieceCoordByMove`): a move
 * that would leave the board re-enters it on the opposite edge.
 */
module Torus {
  import opened Wrappers
  import opened Moves
  import opened Coord1DHelper

  /**
   * The coordinate the empty tile reaches from `coord` by `dir`. `None` stands
   * for a direction string that names no move: row and column stay as they are.
   */
  function GetEmptyPieceCoordByMove(n: int, coord: int, dir: Option<Move>): (t: int)
    requires n >= 1 && 1 <= coord <= n * n
    ensures 1 <= t <= n * n
  {
    var (row, column) := Convert1DCoordToRowCol(n, coord);
    match dir
    case Some(Up) => RowColToCoord1D(n, if row == 1 then n else row - 1, column)
    case Some(Down) => RowColToCoord1D(n, if row == n then 1 else row + 1, column)
    case Some(Left) => RowColToCoord1D(n, row, if column == 1 then n else column - 1)
    case Some(Right) => RowColToCoord1D(n, row, if column == n then 1 else column + 1)
    case None => RowColToCoord1D(n, row, column)
  }

  /** The target of one of the four moves. */
  function Target(n: int, coord: int, m: Move): (t: int)
    requires n >= 1 && 1 <= coord <= n * n
    ensures 1 <= t <= n * n
  {
    GetEmptyPieceCoordByMove(n, coord, Some(m))
  }

  /** Whether `m` from `coord` goes round an edge of the board. */
  predicate CrossesEdge(n: int, coord: int, m: Move)
    requires n >= 1
  {
    var (row, column) := Convert1DCoordToRowCol(n, coord);
    match m
    case Up => row == 1
    case Down => row == n
    case Left => column == 1
    case Right => column == n
  }

  /**
   * The new row and column: up from row 1 goes to row n, down from row n to
   * row 1, left from column 1 to column n, right from column n to column 1,
   * every other move steps by one; an unknown direction keeps both.
   */
  lemma TargetRowCol(n: int, coord: int, dir: Option<Move>)
    requires n >= 1 && 1 <= coord <= n * n
    ensures var (row, col) := Convert1DCoordToRowCol(n, coord);
      var (row', col') := Convert1DCoordToRowCol(n, GetEmptyPieceCoordByMove(n, coord, dir));
      match dir
      case Some(Up) => row' == (if row == 1 then n else row - 1) && col' == col
      case Some(Down) => row' == (if row == n then 1 else row + 1) && col' == col
      case Some(Left) => row' == row && col' == (if col == 1 then n else col - 1)
      case Some(Right) => row' == row && col' == (if col == n then 1 else col + 1)
      case None => row' == row && col' == col
  {
    var rc := Convert1DCoordToRowCol(n, coord);
    var row, col := rc.0, rc.1;
    var r', c' := row, col;
    match dir {
      case Some(Up) => r' := if row == 1 then n else row - 1;
      case Some(Down) => r' := if row == n then 1 else row + 1;
      case Some(Left) => c' := if col == 1 then n else col - 1;
      case Some(Right) => c' := if col == n then 1 else col + 1;
      case None =>
    }
    assert GetEmptyPieceCoordByMove(n, coord, dir) == RowColToCoord1D(n, r', c');
    CoordOfRowCol(n, r', c');
  }

  /** A string that names no move leaves the empty tile where it is. */
  lemma UnknownDirectionStays(n: int, coord: int)
    requires n >= 1 && 1 <= coord <= n * n
    ensures GetEmptyPieceCoordByMove(n, coord, None) == coord
  {
    RowColOfCoord(n, coord);
  }

  /** A move followed by its inverse brings the empty tile back. */
  lemma TargetInverse(n: int, coord: int, m: Move)
    requires n >= 1 && 1 <= coord <= n * n
    ensures Target(n, Target(n, coord, m), InvertMove(m)) == coord
  {
    var t := Target(n, coord, m);
    TargetRowCol(n, coord, Some(m));
    TargetRowCol(n, t, Some(InvertMove(m)));
    ConvertInjective(n, Target(n, t, InvertMove(m)), coord);
  }

  /** Moves on the torus commute. */
  lemma TargetCommute(n: int, coord: int, m1: Move, m2: Move)
    requires n >= 1 && 1 <= coord <= n * n
    ensures Target(n, Target(n, coord, m1), m2) == Target(n, Target(n, coord, m2), m1)
  {
    var a := Target(n, coord, m1);
    var b := Target(n, coord, m2);
    TargetRowCol(n, coord, Some(m1));
    TargetRowCol(n, coord, Some(m2));
    TargetRowCol(n, a, Some(m2));
    TargetRowCol(n, b, Some(m1));
    ConvertInjective(n, Target(n, a, m2), Target(n, b, m1));
  }

  /**
   * A move that stays inside the board reaches a no-wrap neighbour; one that
   * goes round an edge does not, except on a 2 x 2 board, where the opposite
   * edge is also adjacent.
   */
  lemma NoWrapOfMove(n: int, coord: int, m: Move)
    requires n >= 1 && 1 <= coord <= n * n
    ensures IsPossibleMoveWithoutWrapping(n, coord, Target(n, coord, m)) <==>
      (n >= 2 && !CrossesEdge(n, coord, m)) || n == 2
  {
    TargetRowCol(n, coord, Some(m));
  }

  /** Every no-wrap neighbour is reached by one move that does not cross an edge. */
  lemma NoWrapIsOneMove(n: int, a: int, b: int)
    requires n >= 1 && 1 <= a <= n * n && 1 <= b <= n * n
    requires IsPossibleMoveWithoutWrapping(n, a, b)
    ensures exists m :: Target(n, a, m) == b && !CrossesEdge(n, a, m)
  {
    var (ra, ca) := Convert1DCoordToRowCol(n, a);
    var (rb, cb) := Convert1DCoordToRowCol(n, b);
    var m := if ra == rb then (if cb == ca + 1 then Right else Left)
             else (if rb == ra + 1 then Down else Up);
    TargetRowCol(n, a, Some(m));
    ConvertInjective(n, Target(n, a, m), b);
  }

  // ---------------------------------------------------------------------------
  // Walks of the empty tile

  /** The coordinate after the moves `ms`, made one after another. */
  function WalkCoord(n: int, coord: int, ms: seq<Move>): (c: int)
    requires n >= 1 && 1 <= coord <= n * n
    ensures 1 <= c <= n * n
    decreases |ms|
  {
    if ms == [] then coord else Target(n, WalkCoord(n, coord, ms[..|ms| - 1]), ms[|ms| - 1])
  }

  lemma {:induction false} WalkAppend(n: int, coord: int, a: seq<Move>, b: seq<Move>)
    requires n >= 1 && 1 <= coord <= n * n
    ensures WalkCoord(n, coord, a + b) == WalkCoord(n, WalkCoord(n, coord, a), b)
    decreases |b|
  {
    if b == [] {
      assert a + b == a;
    } else {
      assert (a + b)[..|a + b| - 1] == a + b[..|b| - 1];
      WalkAppend(n, coord, a, b[..|b| - 1]);
    }
  }

  /** One move commutes with a whole walk. */
  lemma {:induction false} MoveCommutesWithWalk(n: int, coord: int, x: Move, ms: seq<Move>)
    requires n >= 1 && 1 <= coord <= n * n
    ensures WalkCoord(n, Target(n, coord, x), ms) == Target(n, WalkCoord(n, coord, ms), x)
    decreases |ms|
  {
    if ms != [] {
      var init := ms[..|ms| - 1];
      MoveCommutesWithWalk(n, coord, x, init);
      TargetCommute(n, WalkCoord(n, coord, init), x, ms[|ms| - 1]);
    }
  }

  /**
   * Making the inverses of a walk's moves, in the SAME order as the walk,
   * brings the empty tile back to where the walk started.
   */
  lemma {:induction false} InversesReturnCoord(n: int, coord: int, ms: seq<Move>)
    requires n >= 1 && 1 <= coord <= n * n
    ensures WalkCoord(n, WalkCoord(n, coord, ms), Inverses(ms)) == coord
    decreases |ms|
  {
    if ms != [] {
      var m, rest := ms[0], ms[1..];
      assert ms == [m] + rest;
      var w := WalkCoord(n, coord, rest);
      assert WalkCoord(n, coord, [m]) == Target(n, coord, m) by {
        assert [m][..0] == [];
      }
      WalkAppend(n, coord, [m], rest);
      MoveCommutesWithWalk(n, coord, m, rest);
      // the walk ends at Target(w, m)
      assert Inverses(ms) == [InvertMove(m)] + Inverses(rest);
      WalkAppend(n, Target(n, w, m), [InvertMove(m)], Inverses(rest));
      assert WalkCoord(n, Target(n, w, m), [InvertMove(m)]) == Target(n, Target(n, w, m), InvertMove(m)) by {
        assert [InvertMove(m)][..0] == [];
      }
      TargetInverse(n, w, m);
      InversesReturnCoord(n, coord, rest);
    }
  }
}
