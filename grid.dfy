/**
 * The `(n + 1) x (n + 1)` array both arrangement classes keep, of which
 * rows and columns 1..n are used, and the loops that fill, count and swap
 * its cells. Cell (i, j) of the array is coordinate `(i - 1) * n + j`, so
 * it corresponds to index `(i - 1) * n + j - 1` of the tiles of a `Board`.
 */
module Grid {
  import opened Coord1DHelper
  import opened Engine

  /** The used cells of `a` hold `t`, read row by row. */
  ghost predicate Mirrors(a: array2<int>, n: int, t: seq<int>)
    reads a
  {
    && n >= 1 && a.Length0 == n + 1 && a.Length1 == n + 1 && |t| == n * n
    && forall i, j :: 1 <= i <= n && 1 <= j <= n ==> a[i, j] == t[RowColToCoord1D(n, i, j) - 1]
  }

  /** Every index of the tiles is the index of some cell. */
  lemma CellOfIndex(n: int, k: int) returns (i: int, j: int)
    requires n >= 1 && 0 <= k < n * n
    ensures 1 <= i <= n && 1 <= j <= n && RowColToCoord1D(n, i, j) - 1 == k
  {
    RowColOfCoord(n, k + 1);
    var rc := Convert1DCoordToRowCol(n, k + 1);
    i, j := rc.0, rc.1;
  }

  /** Two arrays mirroring the same `n` hold the same tiles. */
  lemma MirrorsUnique(a: array2<int>, n: int, t: seq<int>, u: seq<int>)
    requires Mirrors(a, n, t) && Mirrors(a, n, u)
    ensures t == u
  {
    forall k | 0 <= k < |t|
      ensures t[k] == u[k]
    {
      var i, j := CellOfIndex(n, k);
      assert a[i, j] == t[k];
    }
  }

  /** The nested loops of the constructor: cell (i, j) gets `(i - 1) * n + j`. */
  method FillSolved(a: array2<int>, n: int)
    requires n >= 1 && a.Length0 == n + 1 && a.Length1 == n + 1
    modifies a
    ensures Mirrors(a, n, Solved(n))
  {
    var i := 1;
    while i <= n
      invariant 1 <= i <= n + 1
      invariant forall r, c :: 1 <= r < i && 1 <= c <= n ==> a[r, c] == (r - 1) * n + c
    {
      var j := 1;
      while j <= n
        invariant 1 <= j <= n + 1
        invariant forall r, c :: 1 <= r < i && 1 <= c <= n ==> a[r, c] == (r - 1) * n + c
        invariant forall c :: 1 <= c < j ==> a[i, c] == (i - 1) * n + c
      {
        a[i, j] := (i - 1) * n + j;
        j := j + 1;
      }
      i := i + 1;
    }
  }

  /** The misplaced count of a prefix one cell longer. */
  lemma MisplacedSnoc(t: seq<int>, k: int)
    requires 0 <= k < |t|
    ensures Misplaced(t[..k + 1]) == Misplaced(t[..k]) + (if t[k] != k + 1 then 1 else 0)
  {
    assert t[..k + 1][..k] == t[..k];
  }

  /** `CalcCountMisplacedPieces`: the nested loops counting cells whose tile is not their coordinate. */
  method CountMisplaced(a: array2<int>, n: int, ghost t: seq<int>) returns (count: nat)
    requires Mirrors(a, n, t)
    ensures count == Misplaced(t)
  {
    count := 0;
    ghost var k := 0;
    var i := 1;
    while i <= n
      invariant 1 <= i <= n + 1
      invariant k == (i - 1) * n && k <= n * n
      invariant count == Misplaced(t[..k])
    {
      var j := 1;
      while j <= n
        invariant 1 <= j <= n + 1
        invariant k == RowColToCoord1D(n, i, j) - 1 && k <= n * n
        invariant count == Misplaced(t[..k])
      {
        MisplacedSnoc(t, k);
        var expected := (i - 1) * n + j;
        if a[i, j] != expected {
          count := count + 1;
        }
        j := j + 1;
        k := k + 1;
      }
      assert k == i * n by {
        assert (i - 1) * n + n == i * n;
      }
      i := i + 1;
    }
    assert t[..k] == t;
  }

  /**
   * The three assignments through a temporary that exchange cells
   * (r1, c1) and (r2, c2): the tiles at their coordinates are swapped.
   */
  method SwapCells(a: array2<int>, n: int, r1: int, c1: int, r2: int, c2: int, ghost t: seq<int>)
    requires Mirrors(a, n, t)
    requires 1 <= r1 <= n && 1 <= c1 <= n && 1 <= r2 <= n && 1 <= c2 <= n
    modifies a
    ensures Mirrors(a, n, Swap(t, RowColToCoord1D(n, r1, c1) - 1, RowColToCoord1D(n, r2, c2) - 1))
  {
    ghost var u := Swap(t, RowColToCoord1D(n, r1, c1) - 1, RowColToCoord1D(n, r2, c2) - 1);
    var temp := a[r1, c1];
    a[r1, c1] := a[r2, c2];
    a[r2, c2] := temp;
    forall i, j | 1 <= i <= n && 1 <= j <= n
      ensures a[i, j] == u[RowColToCoord1D(n, i, j) - 1]
    {
      RowColInjective(n, i, j, r1, c1);
      RowColInjective(n, i, j, r2, c2);
    }
  }
}
