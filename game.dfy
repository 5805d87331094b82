/**
 * The logic of `GameManager.cs`: a rows×cols board with 0-based positions in
 * a list, tile-oriented moves that wrap at every edge, an in-memory shuffle
 * that records the empty location before each swap, the automatic solve that
 * replays those records backwards, and the completion test. A piece is its
 * original index (the name `CreateGamePieces` gives it).
 */
module Game {
  import opened Coord1DHelper
  import opened GameMoves
  import opened GameLayouts
  import Engine

  // ---------------------------------------------------------------------------
  // Dimensions

  /** The defaults `OnValidate` restores for a non-positive value. */
  const DefaultRows := 16
  const DefaultCols := 9

  /** The clamp of `Start`, `Mathf.Max(2, x)`: at least 2, and any value from 2 up is kept. */
  function AtLeastTwo(x: int): (r: int)
    ensures r >= 2 && (x >= 2 ==> r == x) && (x < 2 ==> r == 2)
  {
    if 2 >= x then 2 else x
  }

  /**
   * The clamp of `OnValidate`: a non-positive value becomes `default`, 1
   * becomes 2, and any value from 2 up is kept.
   */
  function Validated(x: int, default: int): (r: int)
    requires default >= 2
    ensures r >= 2 && (x <= 0 ==> r == default) && (x == 1 ==> r == 2) && (x >= 2 ==> r == x)
  {
    AtLeastTwo(if x <= 0 then default else x)
  }

  // ---------------------------------------------------------------------------
  // The class

  class GameManager {
    /** The pieces by position; a piece is its original index. */
    var pieces: seq<int>
    var emptyLocation: int
    var rows: int
    var cols: int
    /** The empty location before each swap of the last shuffle. */
    var recordedMoves: seq<int>

    /** The order of the pieces and the empty location as a `Layout`. */
    function Current(): Layout
      reads this
    {
      Layout(pieces, emptyLocation)
    }

    /** A rows×cols board, both at least 2, with its empty location on the board. */
    predicate Valid()
      reads this
    {
      rows >= 2 && cols >= 2 && |pieces| == rows * cols && 0 <= emptyLocation < |pieces|
    }

    /**
     * `Start` up to the shuffle: clamp both dimensions to at least 2 and
     * create the pieces in order; `emptyChoice` is the answer of
     * `Random.Range(0, pieces.Count)`.
     */
    constructor(rows0: int, cols0: int, emptyChoice: int)
      requires 0 <= emptyChoice < AtLeastTwo(rows0) * AtLeastTwo(cols0)
      ensures Valid() && rows == AtLeastTwo(rows0) && cols == AtLeastTwo(cols0)
      ensures InOrder(pieces) && emptyLocation == emptyChoice && recordedMoves == []
    {
      rows := AtLeastTwo(rows0);
      cols := AtLeastTwo(cols0);
      pieces := Identity(AtLeastTwo(rows0) * AtLeastTwo(cols0));
      emptyLocation := emptyChoice;
      recordedMoves := [];
    }

    /** `OnValidate`: non-positive dimensions reset to the defaults, then both are clamped to at least 2. */
    method OnValidate()
      modifies this`rows, this`cols
      ensures rows == Validated(old(rows), DefaultRows) && cols == Validated(old(cols), DefaultCols)
    {
      if rows <= 0 {
        rows := DefaultRows;
      }
      if cols <= 0 {
        cols := DefaultCols;
      }
      rows := AtLeastTwo(rows);
      cols := AtLeastTwo(cols);
    }

    /**
     * `SwapIfValidInstantMemory`: when the tile at `i` reaches `tempEmpty`
     * by `offset`, swap the two entries of `tempPieces`, make `i` the empty
     * location and return the target; otherwise change nothing and return -1.
     */
    method SwapIfValidInstantMemory(i: int, offset: int, tempPieces: array<int>, tempEmpty: int)
      returns (swapped: bool, newEmpty: int, calculatedTarget: int)
      requires cols >= 1 && 0 <= i < tempPieces.Length && 0 <= tempEmpty < tempPieces.Length
      modifies tempPieces
      ensures swapped == Hit(cols, tempPieces.Length, i, tempEmpty, offset)
      ensures swapped ==> tempPieces[..] == Engine.Swap(old(tempPieces[..]), i, tempEmpty)
                          && newEmpty == i && calculatedTarget == tempEmpty
      ensures !swapped ==> tempPieces[..] == old(tempPieces[..]) && newEmpty == tempEmpty && calculatedTarget == -1
    {
      calculatedTarget := -1;
      newEmpty := tempEmpty;
      var target: int;
      if Abs(offset) == cols {
        target := Wrap(i + offset, tempPieces.Length);
      } else if Abs(offset) == 1 {
        var currentRow := Quot(i, cols);
        var currentCol := Rem(i, cols);
        var newCol := Wrap(currentCol + offset, cols);
        target := currentRow * cols + newCol;
      } else {
        return false, newEmpty, calculatedTarget;
      }
      if target == tempEmpty {
        tempPieces[i], tempPieces[target] := tempPieces[target], tempPieces[i];
        newEmpty := i;
        calculatedTarget := target;
        return true, newEmpty, calculatedTarget;
      }
      return false, newEmpty, calculatedTarget;
    }

    /**
     * The four tries of one draw of `Shuffle`, up, down, left, right, the
     * first that swaps ending them.
     */
    method TryAllInMemory(rnd: int, tempPieces: array<int>, tempEmpty: int)
      returns (swapped: bool, newEmpty: int, target: int)
      requires cols >= 1 && 0 <= rnd < tempPieces.Length && 0 <= tempEmpty < tempPieces.Length
      modifies tempPieces
      ensures swapped == CanReach(cols, tempPieces.Length, rnd, tempEmpty)
      ensures swapped ==> tempPieces[..] == Engine.Swap(old(tempPieces[..]), rnd, tempEmpty)
                          && newEmpty == rnd && target == tempEmpty
      ensures !swapped ==> tempPieces[..] == old(tempPieces[..]) && newEmpty == tempEmpty
    {
      swapped, newEmpty, target := SwapIfValidInstantMemory(rnd, -cols, tempPieces, tempEmpty);
      if !swapped {
        swapped, newEmpty, target := SwapIfValidInstantMemory(rnd, cols, tempPieces, tempEmpty);
      }
      if !swapped {
        swapped, newEmpty, target := SwapIfValidInstantMemory(rnd, -1, tempPieces, tempEmpty);
      }
      if !swapped {
        swapped, newEmpty, target := SwapIfValidInstantMemory(rnd, 1, tempPieces, tempEmpty);
      }
    }

    /**
     * `Shuffle`: clear the record, then draw tiles until `targetCountSwaps`
     * swaps are made, on a copy of the pieces, and install the copy.
     * `draws` are the answers of `Random.Range(0, rows * cols)`; the loop
     * also ends when they run out.
     */
    method Shuffle(targetCountSwaps: int, draws: seq<int>)
      requires Valid() && Indices(draws, |pieces|)
      modifies this`pieces, this`emptyLocation, this`recordedMoves
      ensures Valid()
      ensures var r := ShuffleLoop(old(Current()), cols, targetCountSwaps, -1, -1, draws);
        Current() == r.layout && recordedMoves == r.recorded
    {
      var tempPieces := new int[|pieces|](k requires 0 <= k < |pieces| reads this => pieces[k]);
      assert tempPieces[..] == pieces;
      var tempEmpty := emptyLocation;
      recordedMoves := [];
      var recorded;
      tempEmpty, recorded := ShuffleInMemory(tempPieces, tempEmpty, targetCountSwaps, draws);
      recordedMoves := recorded;
      pieces := tempPieces[..];
      emptyLocation := tempEmpty;
    }

    /**
     * The loop of `Shuffle` on the copy `tempPieces` with the empty location
     * `tempEmpty0`: the new empty location and the moves recorded.
     */
    method ShuffleInMemory(tempPieces: array<int>, tempEmpty0: int, targetCountSwaps: int, draws: seq<int>)
      returns (tempEmpty: int, recorded: seq<int>)
      requires cols >= 1 && 0 <= tempEmpty0 < tempPieces.Length && Indices(draws, tempPieces.Length)
      modifies tempPieces
      ensures var r := ShuffleLoop(Layout(old(tempPieces[..]), tempEmpty0), cols, targetCountSwaps, -1, -1, draws);
        Layout(tempPieces[..], tempEmpty) == r.layout && recorded == r.recorded
    {
      tempEmpty := tempEmpty0;
      recorded := [];
      ghost var cur := Layout(tempPieces[..], tempEmpty);
      ghost var goal := ShuffleLoop(cur, cols, targetCountSwaps, -1, -1, draws);
      ReachesStart(cur, cols, targetCountSwaps, draws);
      var count := 0;
      var last := -1;
      var prevLast := -1;
      var d := 0;
      ghost var left := targetCountSwaps;
      while count < targetCountSwaps && d < |draws|
        invariant 0 <= d <= |draws| && 0 <= tempEmpty < tempPieces.Length
        invariant cur == Layout(tempPieces[..], tempEmpty) && left == targetCountSwaps - count
        invariant Reaches(goal, cur, cols, left, last, prevLast, draws, d, recorded)
        decreases |draws| - d
      {
        var rnd := draws[d];
        d := d + 1;
        if rnd == last || rnd == prevLast {
          ReachesSkip(goal, cur, cols, left, last, prevLast, draws, d - 1, recorded);
          continue;
        }
        var swapped, newEmpty, target := TryAllInMemory(rnd, tempPieces, tempEmpty);
        tempEmpty := newEmpty;
        if swapped {
          ReachesSwap(goal, cur, cols, left, last, prevLast, draws, d - 1, recorded);
          recorded := recorded + [target];
          count := count + 1;
          prevLast := last;
          last := rnd;
          cur, left := Layout(tempPieces[..], tempEmpty), left - 1;
        } else {
          ReachesSkip(goal, cur, cols, left, last, prevLast, draws, d - 1, recorded);
        }
      }
      ReachesEnd(goal, cur, cols, left, last, prevLast, draws, d, recorded);
    }

    /**
     * `SwapIfValid` with the swap `AnimateSwap` makes at its end: when the
     * tile at `i` reaches the empty location by `offset` the two pieces
     * exchange places and `i` becomes the empty location.
     */
    method SwapIfValid(i: int, offset: int) returns (swapped: bool)
      requires Valid() && 0 <= i < |pieces|
      modifies this`pieces, this`emptyLocation
      ensures Valid()
      ensures swapped == Hit(cols, |old(pieces)|, i, old(emptyLocation), offset)
      ensures Current() == if swapped then Layout(Engine.Swap(old(pieces), i, old(emptyLocation)), i) else old(Current())
    {
      var target: int;
      if Abs(offset) == cols {
        target := Wrap(i + offset, |pieces|);
      } else if Abs(offset) == 1 {
        var currentRow := Quot(i, cols);
        var currentCol := Rem(i, cols);
        var newCol := Wrap(currentCol + offset, cols);
        target := currentRow * cols + newCol;
      } else {
        return false;
      }
      if target == emptyLocation {
        pieces := Engine.Swap(pieces, i, target);
        emptyLocation := i;
        return true;
      }
      return false;
    }

    /** `TryMovePiece`: up, down, left, right, the first that swaps ending the tries. */
    method TryMovePiece(pieceIndex: int) returns (moved: bool)
      requires Valid() && 0 <= pieceIndex < |pieces|
      modifies this`pieces, this`emptyLocation
      ensures Valid()
      ensures moved == CanReach(cols, |old(pieces)|, pieceIndex, old(emptyLocation))
      ensures Current() == Slide(old(Current()), cols, pieceIndex)
    {
      moved := SwapIfValid(pieceIndex, -cols);
      if !moved {
        moved := SwapIfValid(pieceIndex, cols);
      }
      if !moved {
        moved := SwapIfValid(pieceIndex, -1);
      }
      if !moved {
        moved := SwapIfValid(pieceIndex, 1);
      }
    }

    /** `AutoSolve`: try to move the tile at each recorded position, from the last record to the first. */
    method AutoSolve()
      requires Valid() && Indices(recordedMoves, |pieces|)
      modifies this`pieces, this`emptyLocation
      ensures Valid()
      ensures Current() == Replay(old(Current()), cols, recordedMoves)
    {
      ghost var goal := Replay(Current(), cols, recordedMoves);
      assert recordedMoves[..|recordedMoves|] == recordedMoves;
      var i := |recordedMoves| - 1;
      while i >= 0
        invariant -1 <= i < |recordedMoves| && Valid() && |pieces| == |old(pieces)|
        invariant Replay(Current(), cols, recordedMoves[..i + 1]) == goal
      {
        var pieceIndex := recordedMoves[i];
        ReplayStep(Current(), cols, recordedMoves, i);
        var _ := TryMovePiece(pieceIndex);
        i := i - 1;
      }
    }

    /** `ShuffleAndSolve` with its timing left out: shuffle, then solve; the board comes back as it was. */
    method ShuffleAndSolve(targetCountSwaps: int, draws: seq<int>)
      requires Valid() && Indices(draws, |pieces|)
      modifies this`pieces, this`emptyLocation, this`recordedMoves
      ensures Valid() && Current() == old(Current())
    {
      ghost var start := Current();
      Shuffle(targetCountSwaps, draws);
      ReplayUndoesShuffle(rows, start, cols, targetCountSwaps, -1, -1, draws);
      AutoSolve();
    }

    /** `CheckCompletion`: whether every position holds the piece with its own index. */
    method CheckCompletion() returns (complete: bool)
      ensures complete <==> InOrder(pieces)
    {
      var i := 0;
      while i < |pieces|
        invariant 0 <= i <= |pieces|
        invariant forall k :: 0 <= k < i ==> pieces[k] == k
      {
        if pieces[i] != i {
          return false;
        }
        i := i + 1;
      }
      return true;
    }
  }
}
