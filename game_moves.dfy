/**
 * The wrapped neighbours of `GameManager.cs`: positions 0..rows×cols-1 row
 * by row; a move of ±cols wraps over the whole list and a move of ±1 wraps
 * the column within its row.
 */
module GameMoves {
  import opened Wrappers
  import opened Coord1DHelper

  /** `((x % c) + c) % c` with the C# remainder, which takes the sign of `x`. */
  function Wrap(x: int, c: int): (r: int)
    requires c >= 1
    ensures 0 <= r < c
  {
    Rem(Rem(x, c) + c, c)
  }

  /** The wrap is the Euclidean remainder, for negative `x` too. */
  lemma WrapIsEuclidean(x: int, c: int)
    requires c >= 1
    ensures Wrap(x, c) == x % c
  {
    if x >= 0 {
      var m := x % c;
      DivModUnique(m + c, c, 1, m);
    } else {
      var q, m := (-x) / c, (-x) % c;
      if m == 0 {
        DivModUnique(c, c, 1, 0);
        DivModUnique(x, c, -q, 0);
      } else {
        DivModUnique(c - m, c, 0, c - m);
        DivModUnique(x, c, -q - 1, c - m);
      }
    }
  }

  /**
   * The position `SwapIfValid` and `SwapIfValidInstantMemory` compare with the
   * empty location for the tile at `i` and `offset`, out of `count` positions:
   * an offset of ±cols wraps over the whole list, an offset of ±1 wraps the
   * column within the row, and any other offset has no target.
   */
  function SwapTarget(cols: int, count: int, i: int, offset: int): (t: Option<int>)
    requires cols >= 1 && count >= 1
    ensures t.Some? <==> Abs(offset) == cols || Abs(offset) == 1
  {
    if Abs(offset) == cols then Some(Wrap(i + offset, count))
    else if Abs(offset) == 1 then Some(Quot(i, cols) * cols + Wrap(Rem(i, cols) + offset, cols))
    else None
  }

  /** Whether the tile at `i` may swap with the empty location `empty` by `offset`. */
  predicate Hit(cols: int, count: int, i: int, empty: int, offset: int)
    requires cols >= 1 && count >= 1
    ensures Hit(cols, count, i, empty, offset) ==> Abs(offset) == cols || Abs(offset) == 1
  {
    SwapTarget(cols, count, i, offset) == Some(empty)
  }

  /** The four tries of `TryMovePiece` and of a shuffle draw: up, down, left, right. */
  predicate CanReach(cols: int, count: int, i: int, empty: int)
    requires cols >= 1 && count >= 1
    ensures CanReach(cols, count, i, empty) ==> exists offset :: Hit(cols, count, i, empty, offset)
  {
    Hit(cols, count, i, empty, -cols) || Hit(cols, count, i, empty, cols)
    || Hit(cols, count, i, empty, -1) || Hit(cols, count, i, empty, 1)
  }

  /** On a rows×cols board every target is a position of the board. */
  lemma TargetInRange(rows: int, cols: int, i: int, offset: int)
    requires rows >= 1 && cols >= 1 && 0 <= i < rows * cols
    ensures var t := SwapTarget(cols, rows * cols, i, offset);
      t.Some? ==> 0 <= t.value < rows * cols
  {
    if Abs(offset) != cols && Abs(offset) == 1 {
      var row := i / cols;
      MulCancel(row, rows, cols);
      MulMono(row, rows - 1, cols);
      assert (rows - 1) * cols + cols == rows * cols;
    }
  }

  /**
   * A move of ±cols keeps the column and steps the row by one, wrapping over
   * the rows; a move of ±1 keeps the row and steps the column by one,
   * wrapping within the row.
   */
  lemma TargetKeepsLine(rows: int, cols: int, i: int, offset: int)
    requires rows >= 1 && cols >= 1 && 0 <= i < rows * cols
    requires SwapTarget(cols, rows * cols, i, offset).Some?
    ensures var t := SwapTarget(cols, rows * cols, i, offset).value;
      var d := if offset > 0 then 1 else -1;
      (Abs(offset) == cols ==> t % cols == i % cols && t / cols == (i / cols + d) % rows)
      && (Abs(offset) != cols ==> t / cols == i / cols && t % cols == (i % cols + offset) % cols)
  {
    if Abs(offset) == cols {
      var d := if offset > 0 then 1 else -1;
      WrapIsEuclidean(i + offset, rows * cols);
      RowStep(rows, cols, rows * cols, i, d, offset);
    } else {
      var row, col := Quot(i, cols), Rem(i, cols);
      SplitIndex(cols, i);
      WrapIsEuclidean(col + offset, cols);
      JoinIndex(cols, row, Wrap(col + offset, cols));
    }
  }

  /** Stepping `d` rows, wrapped over `count` = rows×cols positions, keeps the column. */
  lemma RowStep(rows: int, cols: int, count: int, i: int, d: int, offset: int)
    requires rows >= 1 && cols >= 1 && count == rows * cols && 0 <= i < count
    requires (d == 1 && offset == cols) || (d == -1 && offset == -cols)
    ensures var t := (i + offset) % count;
      t % cols == i % cols && t / cols == (i / cols + d) % rows
  {
    var x := i + offset;
    var q, t := x / count, x % count;
    var r0, c0 := i / cols, i % cols;
    var k := r0 + d - q * rows;
    Regroup(rows, cols, count, i, d, offset, q, r0, c0, t);
    DivModUnique(t, cols, k, c0);
    var row := t / cols;
    MulMono(0, row, cols);
    if row >= rows {
      MulMono(rows, row, cols);
    }
    DivModUnique(r0 + d, rows, q, row);
  }

  /** `t = x - q·count` regrouped by rows: `t = (r0 + d - q·rows)·cols + c0`. */
  lemma Regroup(rows: int, cols: int, count: int, i: int, d: int, offset: int,
                q: int, r0: int, c0: int, t: int)
    requires count == rows * cols && i == r0 * cols + c0 && offset == d * cols
    requires i + offset == q * count + t
    ensures t == (r0 + d - q * rows) * cols + c0
  {
    assert q * count == (q * rows) * cols;
    assert (r0 + d - q * rows) * cols == r0 * cols + d * cols - (q * rows) * cols;
  }

  /** `a * k < b * k` with `k` positive gives `a < b`. */
  lemma MulCancel(a: int, b: int, k: int)
    requires k >= 1 && a * k < b * k
    ensures a < b
  {
    assert (b - a) * k == b * k - a * k;
  }

  /**
   * Neighbourhood is symmetric: when the tile at `i` reaches `e` by `offset`,
   * the tile at `e` reaches `i` by `-offset`.
   */
  lemma {:induction false} TargetSymmetric(rows: int, cols: int, i: int, e: int, offset: int)
    requires rows >= 1 && cols >= 1 && 0 <= i < rows * cols
    requires SwapTarget(cols, rows * cols, i, offset) == Some(e)
    ensures SwapTarget(cols, rows * cols, e, -offset) == Some(i)
  {
    if Abs(offset) == cols {
      WrapBack(rows * cols, i, offset);
    } else {
      TargetInRange(rows, cols, i, offset);
      ColumnWrapBack(cols, i, offset);
    }
  }

  /** Wrapping `i + offset` and then `- offset` round `count` positions gives `i` back. */
  lemma WrapBack(count: int, i: int, offset: int)
    requires count >= 1 && 0 <= i < count
    ensures Wrap(Wrap(i + offset, count) - offset, count) == i
  {
    var e := Wrap(i + offset, count);
    WrapIsEuclidean(i + offset, count);
    WrapIsEuclidean(e - offset, count);
    ModBack(count, i, offset);
  }

  /** Euclidean remainders: adding `offset` and taking it away again round `count` gives `i` back. */
  lemma ModBack(count: int, i: int, offset: int)
    requires count >= 1 && 0 <= i < count
    ensures ((i + offset) % count - offset) % count == i
  {
    var q, e := (i + offset) / count, (i + offset) % count;
    DivModUnique(e - offset, count, -q, i);
  }

  /** The step of ±1 within the row and its opposite lead back to `i`. */
  lemma ColumnWrapBack(cols: int, i: int, offset: int)
    requires cols >= 1 && 0 <= i && Abs(offset) == 1
    ensures var e := Quot(i, cols) * cols + Wrap(Rem(i, cols) + offset, cols);
      Quot(e, cols) * cols + Wrap(Rem(e, cols) - offset, cols) == i
  {
    var row, col := Quot(i, cols), Rem(i, cols);
    SplitIndex(cols, i);
    JoinIndex(cols, row, Wrap(col + offset, cols));
    WrapBack(cols, col, offset);
  }

  /** A position splits into its row and column, and they give it back. */
  lemma SplitIndex(cols: int, i: int)
    requires cols >= 1 && 0 <= i
    ensures Quot(i, cols) >= 0 && 0 <= Rem(i, cols) < cols && Quot(i, cols) * cols + Rem(i, cols) == i
  {
  }

  /** The row and column of `row * cols + col` are `row` and `col`. */
  lemma JoinIndex(cols: int, row: int, col: int)
    requires cols >= 1 && row >= 0 && 0 <= col < cols
    ensures Quot(row * cols + col, cols) == row && Rem(row * cols + col, cols) == col
  {
    MulMono(0, row, cols);
    DivModUnique(row * cols + col, cols, row, col);
  }

  /** The tile at `i` reaches `e` exactly when the tile at `e` reaches `i`. */
  lemma CanReachSymmetric(rows: int, cols: int, i: int, e: int)
    requires rows >= 1 && cols >= 1 && 0 <= i < rows * cols
    requires CanReach(cols, rows * cols, i, e)
    ensures CanReach(cols, rows * cols, e, i)
  {
    var count := rows * cols;
    if Hit(cols, count, i, e, -cols) {
      TargetSymmetric(rows, cols, i, e, -cols);
    } else if Hit(cols, count, i, e, cols) {
      TargetSymmetric(rows, cols, i, e, cols);
    } else if Hit(cols, count, i, e, -1) {
      TargetSymmetric(rows, cols, i, e, -1);
    } else {
      TargetSymmetric(rows, cols, i, e, 1);
    }
  }
}
