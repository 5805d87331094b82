/**
 * `Coord1DHelper`: conversion between a 1-based linear coordinate and a
 * 1-based (row, column) pair on an N x N board, and the test whether two cells
 * are neighbours without going round an edge. The board size, a static field
 * in the source, is the parameter `n`.
 */
module Coord1DHelper {

  /** C# integer division, which truncates toward zero. */
  function Quot(a: int, b: int): (q: int)
    requires b > 0
  {
    if a >= 0 then a / b else -((-a) / b)
  }

  /** C# remainder, which takes the sign of the dividend. */
  function Rem(a: int, b: int): (r: int)
    requires b > 0
  {
    if a >= 0 then a % b else -((-a) % b)
  }

  /** `Mathf.Abs` on integers. */
  function Abs(x: int): (r: nat)
  {
    if x < 0 then -x else x
  }

  /** `Convert1DCoordToRowCol`: the pair is (row, column). */
  function Convert1DCoordToRowCol(n: int, coord: int): (rc: (int, int))
    requires n >= 1
    ensures 1 <= coord <= n * n ==> 1 <= rc.0 <= n && 1 <= rc.1 <= n
  {
    if 1 <= coord <= n * n then DivBelow(coord - 1, n); (Quot(coord - 1, n) + 1, Rem(coord - 1, n) + 1)
    else (Quot(coord - 1, n) + 1, Rem(coord - 1, n) + 1)
  }

  /** `RowColToCoord1D`. */
  function RowColToCoord1D(n: int, row: int, col: int): (coord: int)
    requires n >= 1
    ensures 1 <= row <= n && 1 <= col <= n ==> 1 <= coord <= n * n
  {
    if 1 <= row <= n && 1 <= col <= n then MulMono(row - 1, n - 1, n); (row - 1) * n + col
    else (row - 1) * n + col
  }

  /**
   * `IsPossibleMoveWithoutWrapping`: the two cells share a row and their
   * columns differ by one, or share a column and their rows differ by one.
   */
  function IsPossibleMoveWithoutWrapping(n: int, current: int, target: int): (b: bool)
    requires n >= 1
    ensures b ==> Convert1DCoordToRowCol(n, current) != Convert1DCoordToRowCol(n, target)
  {
    var (currentRow, currentCol) := Convert1DCoordToRowCol(n, current);
    var (targetRow, targetCol) := Convert1DCoordToRowCol(n, target);
    if currentRow == targetRow && Abs(currentCol - targetCol) == 1 then true
    else if currentCol == targetCol && Abs(currentRow - targetRow) == 1 then true
    else false
  }

  // ---------------------------------------------------------------------------
  // Arithmetic helpers

  lemma MulMono(a: int, b: int, k: nat)
    requires 0 <= a <= b
    ensures a * k <= b * k
  {
    var d := b - a;
    assert b * k == a * k + d * k;
  }

  lemma DivBelow(x: int, n: int)
    requires n >= 1 && 0 <= x < n * n
    ensures x / n < n
  {
    if x / n >= n {
      MulMono(n, x / n, n);
    }
  }

  /** Euclidean division of `q * n + r` with `0 <= r < n`. */
  lemma DivModUnique(x: int, n: int, q: int, r: int)
    requires n >= 1 && 0 <= r < n && x == q * n + r
    ensures x / n == q && x % n == r
  {
    var q' := x / n;
    var r' := x % n;
    assert x == q' * n + r';
    if q' > q {
      MulMono(1, q' - q, n);
    } else if q' < q {
      MulMono(1, q - q', n);
    }
  }

  // ---------------------------------------------------------------------------
  // Properties

  /** The linear coordinate of the row and column of a coordinate is that coordinate. */
  lemma RowColOfCoord(n: int, coord: int)
    requires n >= 1 && 1 <= coord <= n * n
    ensures var rc := Convert1DCoordToRowCol(n, coord);
      rc.0 == (coord - 1) / n + 1 && rc.1 == (coord - 1) % n + 1 &&
      RowColToCoord1D(n, rc.0, rc.1) == coord
  {
  }

  /** Converting a row and column to a coordinate and back gives them back. */
  lemma CoordOfRowCol(n: int, row: int, col: int)
    requires n >= 1 && 1 <= row <= n && 1 <= col <= n
    ensures Convert1DCoordToRowCol(n, RowColToCoord1D(n, row, col)) == (row, col)
  {
    DivModUnique((row - 1) * n + col - 1, n, row - 1, col - 1);
  }

  /** Different cells have different coordinates. */
  lemma RowColInjective(n: int, r1: int, c1: int, r2: int, c2: int)
    requires n >= 1 && 1 <= r1 <= n && 1 <= c1 <= n && 1 <= r2 <= n && 1 <= c2 <= n
    ensures RowColToCoord1D(n, r1, c1) == RowColToCoord1D(n, r2, c2) <==> r1 == r2 && c1 == c2
  {
    CoordOfRowCol(n, r1, c1);
    CoordOfRowCol(n, r2, c2);
  }

  /** Two coordinates of the board with the same row and column are equal. */
  lemma ConvertInjective(n: int, a: int, b: int)
    requires n >= 1 && 1 <= a <= n * n && 1 <= b <= n * n
    requires Convert1DCoordToRowCol(n, a) == Convert1DCoordToRowCol(n, b)
    ensures a == b
  {
    RowColOfCoord(n, a);
    RowColOfCoord(n, b);
  }

  /** The no-wrap neighbour test does not depend on the order of its arguments. */
  lemma NoWrapSymmetric(n: int, a: int, b: int)
    requires n >= 1
    ensures IsPossibleMoveWithoutWrapping(n, a, b) == IsPossibleMoveWithoutWrapping(n, b, a)
  {
  }

  /**
   * The no-wrap test in terms of coordinates: on the board, two cells are
   * neighbours exactly when their coordinates differ by one within a row, or
   * by N.
   */
  lemma NoWrapByCoord(n: int, a: int, b: int)
    requires n >= 1 && 1 <= a <= n * n && 1 <= b <= n * n
    ensures IsPossibleMoveWithoutWrapping(n, a, b)
        <==> (Abs(a - b) == 1 && (a - 1) / n == (b - 1) / n) || Abs(a - b) == n
  {
    RowColOfCoord(n, a);
    RowColOfCoord(n, b);
    NeighbourArithmetic(n, a, b, (a - 1) / n, (a - 1) % n, (b - 1) / n, (b - 1) % n);
  }

  /** The arithmetic of `NoWrapByCoord`, on the rows and columns counted from 0. */
  lemma NeighbourArithmetic(n: int, a: int, b: int, ra: int, ca: int, rb: int, cb: int)
    requires n >= 1 && 0 <= ca < n && 0 <= cb < n
    requires a - 1 == ra * n + ca && b - 1 == rb * n + cb
    ensures (ra == rb && Abs(ca - cb) == 1) || (ca == cb && Abs(ra - rb) == 1)
        <==> (Abs(a - b) == 1 && ra == rb) || Abs(a - b) == n
  {
    DivModUnique(a - 1, n, ra, ca);
    if ca == cb && Abs(ra - rb) == 1 {
      assert ra * n == (rb + (ra - rb)) * n == rb * n + (ra - rb) * n;
    }
    if Abs(a - b) == n {
      var d := if a > b then 1 else -1;
      assert (rb + d) * n == rb * n + d * n;
      DivModUnique(a - 1, n, rb + d, cb);
    }
  }

  /**
   * `Quot` and `Rem` are C#'s `/` and `%`: the quotient is rounded toward
   * zero, the remainder is what is left and takes the sign of the dividend.
   */
  lemma TruncatedDivision(a: int, b: int)
    requires b > 0
    ensures Quot(a, b) * b + Rem(a, b) == a
    ensures -b < Rem(a, b) < b
    ensures a >= 0 ==> Quot(a, b) >= 0 && Rem(a, b) >= 0
    ensures a < 0 ==> Quot(a, b) <= 0 && Rem(a, b) <= 0
  {
    if a < 0 {
      NegativeDivision(a, b);
    } else {
      QuotNonNegative(a, b);
    }
  }

  lemma QuotNonNegative(a: int, b: int)
    requires b > 0 && a >= 0
    ensures Quot(a, b) == a / b >= 0
  {
  }

  lemma NegativeDivision(a: int, b: int)
    requires b > 0 && a < 0
    ensures Quot(a, b) * b + Rem(a, b) == a
  {
    var q, r := (-a) / b, (-a) % b;
    assert -a == q * b + r;
    assert Quot(a, b) == -q;
    assert (-q) * b == -(q * b);
  }

  /** No cell is its own neighbour. */
  lemma NoWrapIrreflexive(n: int, a: int)
    requires n >= 1
    ensures !IsPossibleMoveWithoutWrapping(n, a, a)
  {
  }
}
