/**
 * `PuzzleShuffle.cs`: the earlier variant of the engine. `ShuffledPiecesArrangement`
 * has no build cursor and private copies of the coordinate helpers, and its
 * selector keeps the trial with the largest count only. Its state is the
 * same `Board` as `PiecesArrangement`'s, and its shuffle is proved to be the
 * same `ShuffleLoop`, so every fact of `LoopFacts` holds for it too.
 */
module EarlyShuffle {
  import opened Wrappers
  import opened Moves
  import Coord1DHelper
  import Torus
  import opened Engine
  import opened LoopFacts
  import opened Grid
  import opened Selection
  import opened Arrangements

  // ---------------------------------------------------------------------------
  // The private coordinate helpers

  /** `Coord1DToRowCol`: C# division and remainder, both truncating. */
  function Coord1DToRowCol(n: int, coord: int): (rc: (int, int))
    requires n >= 1
    ensures rc == Coord1DHelper.Convert1DCoordToRowCol(n, coord)
  {
    (Coord1DHelper.Quot(coord - 1, n) + 1, Coord1DHelper.Rem(coord - 1, n) + 1)
  }

  /** `RowColToCoord1D`. */
  function RowColToCoord1D(n: int, row: int, col: int): (coord: int)
    ensures n >= 1 ==> coord == Coord1DHelper.RowColToCoord1D(n, row, col)
  {
    (row - 1) * n + col
  }

  /** Every coordinate of the board has a row and a column in 1..n, which give it back. */
  lemma CoordRoundTrip(n: int, coord: int)
    requires n >= 1 && 1 <= coord <= n * n
    ensures var rc := Coord1DToRowCol(n, coord);
      1 <= rc.0 <= n && 1 <= rc.1 <= n && RowColToCoord1D(n, rc.0, rc.1) == coord
  {
    assert Coord1DToRowCol(n, coord) == Coord1DHelper.Convert1DCoordToRowCol(n, coord);
    Coord1DHelper.RowColOfCoord(n, coord);
  }

  /** Every row and column in 1..n has a coordinate in 1..n², which gives them back. */
  lemma RowColRoundTrip(n: int, row: int, col: int)
    requires n >= 1 && 1 <= row <= n && 1 <= col <= n
    ensures 1 <= RowColToCoord1D(n, row, col) <= n * n
    ensures Coord1DToRowCol(n, RowColToCoord1D(n, row, col)) == (row, col)
  {
    assert RowColToCoord1D(n, row, col) == Coord1DHelper.RowColToCoord1D(n, row, col);
    Coord1DHelper.CoordOfRowCol(n, row, col);
    assert Coord1DToRowCol(n, RowColToCoord1D(n, row, col))
        == Coord1DHelper.Convert1DCoordToRowCol(n, RowColToCoord1D(n, row, col));
  }

  /**
   * `GetEmptyPieceCoordByMove(move)` from `coord`: the lower-cased name picks
   * the wrapped step, any other string keeps row and column. It is the main
   * engine's toroidal move (and so stays in 1..n²).
   */
  function GetEmptyPieceCoordByMove(n: int, coord: int, move: string): (t: int)
    requires n >= 1 && 1 <= coord <= n * n
    ensures t == Torus.GetEmptyPieceCoordByMove(n, coord, Parse(move))
  {
    var rc := Coord1DToRowCol(n, coord);
    var row, column := rc.0, rc.1;
    var dir := Parse(move);
    assert rc == Coord1DHelper.Convert1DCoordToRowCol(n, coord);
    match dir
    case Some(Up) => RowColToCoord1D(n, if row == 1 then n else row - 1, column)
    case Some(Down) => RowColToCoord1D(n, if row == n then 1 else row + 1, column)
    case Some(Left) => RowColToCoord1D(n, row, if column == 1 then n else column - 1)
    case Some(Right) => RowColToCoord1D(n, row, if column == n then 1 else column + 1)
    case None => RowColToCoord1D(n, row, column)
  }

  /**
   * The wrap at each edge: up from row 1 goes to row n, down from row n to
   * row 1, left from column 1 to column n, right from column n to column 1,
   * and every other move steps by one.
   */
  lemma WrapsAtEdges(n: int, coord: int, m: Move)
    requires n >= 1 && 1 <= coord <= n * n
    ensures var (row, col) := Coord1DToRowCol(n, coord);
      var (row', col') := Coord1DToRowCol(n, GetEmptyPieceCoordByMove(n, coord, Name(m)));
      match m
      case Up => row' == (if row == 1 then n else row - 1) && col' == col
      case Down => row' == (if row == n then 1 else row + 1) && col' == col
      case Left => row' == row && col' == (if col == 1 then n else col - 1)
      case Right => row' == row && col' == (if col == n then 1 else col + 1)
  {
    ParseName(m);
    var t := GetEmptyPieceCoordByMove(n, coord, Name(m));
    assert Coord1DToRowCol(n, coord) == Coord1DHelper.Convert1DCoordToRowCol(n, coord);
    assert Coord1DToRowCol(n, t) == Coord1DHelper.Convert1DCoordToRowCol(n, t);
    Torus.TargetRowCol(n, coord, Some(m));
  }

  // ---------------------------------------------------------------------------
  // The class

  class ShuffledPiecesArrangement {
    /** Tile numbers by [row, column], rows and columns 1..n used. */
    var Arrangement: array2<int>
    var EmptyPieceNumber: int
    var EmptyPieceCoord: int
    /** `None` is the null count of a shuffle that came out solved. */
    var CountMisplacedPieces: Option<nat>
    var EmptyPieceMoveHistory: seq<Move>
    /** The queue of recent empty coordinates, oldest first. */
    var recentEmptyPieceCoords: seq<int>
    var recentEmptyCoordsQueueMaxLength: int
    var n: int
    /** The tiles of `Arrangement` read row by row. */
    ghost var Tiles: seq<int>

    /** The fields as a `Board`. */
    ghost function Model(): Board
      reads this`n, this`Tiles, this`EmptyPieceNumber, this`EmptyPieceCoord, this`CountMisplacedPieces
      reads this`EmptyPieceMoveHistory, this`recentEmptyPieceCoords, this`recentEmptyCoordsQueueMaxLength
    {
      Board(n, Tiles, EmptyPieceNumber, EmptyPieceCoord, CountMisplacedPieces,
            EmptyPieceMoveHistory, recentEmptyPieceCoords, recentEmptyCoordsQueueMaxLength)
    }

    /** The array holds the tiles and the fields form a well-formed board. */
    ghost predicate Valid()
      reads this, Arrangement
    {
      Mirrors(Arrangement, n, Tiles) && WellFormed(Model())
    }

    /**
     * A solved board of size `size`; `emptyChoice` is the answer of
     * `rnd.Next(1, n * n + 1)` and `capacityChoice` that of `rnd.Next(4, 11)`.
     */
    constructor(size: int, emptyChoice: int, capacityChoice: int)
      requires size >= 1 && 1 <= emptyChoice <= size * size && 4 <= capacityChoice <= 10
      ensures Valid() && fresh(Arrangement)
      ensures Model() == Initial(size, emptyChoice, capacityChoice)
    {
      CountMisplacedPieces := Some(0);
      n := size;
      var a := new int[size + 1, size + 1];
      FillSolved(a, size);
      Arrangement := a;
      Tiles := Solved(size);
      EmptyPieceNumber := emptyChoice;
      EmptyPieceCoord := emptyChoice;
      recentEmptyCoordsQueueMaxLength := capacityChoice;
      EmptyPieceMoveHistory := [];
      recentEmptyPieceCoords := [];
      new;
      assert Mirrors(Arrangement, n, Tiles);
      AddEmptyCoordToRecent(EmptyPieceCoord);
      assert Mirrors(Arrangement, n, Tiles);
      ghost var b := Initial(size, emptyChoice, capacityChoice);
      assert recentEmptyPieceCoords == b.recent;
      assert Tiles == b.tiles;
      assert n == b.n && EmptyPieceNumber == b.emptyNumber && EmptyPieceCoord == b.emptyCoord;
      assert CountMisplacedPieces == b.count && EmptyPieceMoveHistory == b.history;
      assert recentEmptyCoordsQueueMaxLength == b.capacity;
      assert Model() == b;
      assert WellFormed(b);
    }

    /** `Shuffle(numberOfMoves)`; `draws[i]` is the random draw of pass `i`. */
    method Shuffle(numberOfMoves: int, draws: seq<nat>)
      requires Valid() && |draws| >= numberOfMoves
      modifies this, Arrangement
      ensures Valid() && Arrangement == old(Arrangement)
      ensures Model() == ShuffleLoop(old(Model()), numberOfMoves, draws)
    {
      var moveIndex := 0;
      ghost var cur := Model();
      ghost var left := numberOfMoves;
      ghost var rest := draws;
      ghost var goal := ShuffleLoop(cur, left, rest);
      while moveIndex < numberOfMoves
        invariant 0 <= moveIndex <= if numberOfMoves > 0 then numberOfMoves else 0
        invariant left == numberOfMoves - moveIndex && rest == draws[moveIndex..]
        invariant Mirrors(Arrangement, n, Tiles) && WellFormed(cur) && Arrangement == old(Arrangement)
        invariant cur == Model()
        invariant ShuffleLoop(cur, left, rest) == goal
      {
        assert rest[0] == draws[moveIndex];
        var solved;
        solved, left, rest := ShuffleAdvance(draws[moveIndex], left, rest);
        cur := Model();
        if solved {
          break;
        }
        moveIndex := moveIndex + 1;
      }
      if moveIndex >= numberOfMoves {
        assert left <= 0;
        assert ShuffleLoop(cur, left, rest) == cur;
      }
      assert cur == goal;
    }

    /** One pass of the loop of `Shuffle`, as a step of `ShuffleLoop` with `left` passes and the draws `rest` to go. */
    method ShuffleAdvance(draw: nat, ghost left: int, ghost rest: seq<nat>)
      returns (solved: bool, ghost left': int, ghost rest': seq<nat>)
      requires Valid() && 1 <= left <= |rest| && draw == rest[0]
      modifies this, Arrangement
      ensures Valid() && Arrangement == old(Arrangement)
      ensures left' == left - 1 && rest' == rest[1..]
      ensures solved ==> Model() == ShuffleLoop(old(Model()), left, rest)
      ensures !solved ==> ShuffleLoop(old(Model()), left, rest) == ShuffleLoop(Model(), left', rest')
    {
      left', rest' := left - 1, rest[1..];
      ghost var before := Model();
      solved := ShuffleTurn(draw);
      ShuffleLoopTurn(before, left, rest, Model(), solved);
    }

    /**
     * One pass of the loop of `Shuffle` with its test: a pass that leaves
     * the grid solved nulls the count and reports it.
     */
    method ShuffleTurn(draw: nat) returns (solved: bool)
      requires Valid()
      modifies this, Arrangement
      ensures Valid() && Arrangement == old(Arrangement)
      ensures var r1 := ShuffleStep(old(Model()), Engine.GetRandomMove(old(Model()), draw));
        && (solved <==> r1.count == Some(0))
        && Model() == if solved then r1.(count := None) else r1
    {
      var move := GetRandomMove(draw);
      ShufflePass(move);
      solved := CountMisplacedPieces == Some(0);
      if solved {
        CountMisplacedPieces := None;
      }
    }

    /**
     * One pass up to the test for a solved grid: record the move, find its
     * target by the move's name, swap the two cells, queue the new
     * coordinate and recount.
     */
    method ShufflePass(move: Move)
      requires Valid()
      modifies this, Arrangement
      ensures Valid() && Arrangement == old(Arrangement)
      ensures Model() == ShuffleStep(old(Model()), move)
    {
      ghost var b0 := Model();
      EmptyPieceMoveHistory := EmptyPieceMoveHistory + [move];
      ghost var b1 := Model();
      assert b1 == b0.(history := b0.history + [move]);
      ParseName(move);
      var newEmptyCoord := GetEmptyPieceCoordByMove(n, EmptyPieceCoord, Name(move));
      Relocate(newEmptyCoord);
    }

    /** The rest of the pass once the new empty coordinate is known: swap, queue the coordinate, recount. */
    method Relocate(newEmptyCoord: int)
      requires Valid() && 1 <= newEmptyCoord <= n * n
      modifies this`EmptyPieceCoord, this`Tiles, this`recentEmptyPieceCoords, this`CountMisplacedPieces, Arrangement
      ensures Mirrors(Arrangement, n, Tiles)
      ensures var moved := SwapEmptyTo(old(Model()), newEmptyCoord);
        Model() == Recount(moved.(recent := AddToRecent(moved.recent, moved.capacity, newEmptyCoord)))
    {
      ghost var moved := SwapEmptyTo(Model(), newEmptyCoord);
      ghost var goal := Recount(moved.(recent := AddToRecent(moved.recent, moved.capacity, newEmptyCoord)));
      SwapWithEmpty(newEmptyCoord);
      assert Model() == moved;
      AddEmptyCoordToRecent(newEmptyCoord);
      assert recentEmptyPieceCoords == goal.recent;
      CalcCountMisplacedPieces();
      assert Tiles == goal.tiles && CountMisplacedPieces == goal.count;
      assert EmptyPieceCoord == goal.emptyCoord;
    }

    /**
     * The swap inside the loop of `Shuffle`: the empty coordinate becomes
     * `newEmptyCoord`, and the cells of the old and the new empty coordinate
     * exchange their tiles.
     */
    method SwapWithEmpty(newEmptyCoord: int)
      requires Valid() && 1 <= newEmptyCoord <= n * n
      modifies this`EmptyPieceCoord, this`Tiles, Arrangement
      ensures Mirrors(Arrangement, n, Tiles)
      ensures Model() == SwapEmptyTo(old(Model()), newEmptyCoord)
    {
      var oldCoord := EmptyPieceCoord;
      EmptyPieceCoord := newEmptyCoord;
      var oldRowCol := Coord1DToRowCol(n, oldCoord);
      var newRowCol := Coord1DToRowCol(n, newEmptyCoord);
      assert oldRowCol == Coord1DHelper.Convert1DCoordToRowCol(n, oldCoord);
      assert newRowCol == Coord1DHelper.Convert1DCoordToRowCol(n, newEmptyCoord);
      Coord1DHelper.RowColOfCoord(n, oldCoord);
      Coord1DHelper.RowColOfCoord(n, newEmptyCoord);
      SwapCells(Arrangement, n, oldRowCol.0, oldRowCol.1, newRowCol.0, newRowCol.1, Tiles);
      Tiles := Swap(Tiles, oldCoord - 1, newEmptyCoord - 1);
    }

    /**
     * `AddEmptyCoordToRecent`: enqueue the coordinate unless it is queued,
     * then dequeue the oldest entries while the queue is over capacity.
     */
    method AddEmptyCoordToRecent(coord: int)
      requires recentEmptyCoordsQueueMaxLength >= 0
      modifies this`recentEmptyPieceCoords
      ensures recentEmptyPieceCoords == AddToRecent(old(recentEmptyPieceCoords), recentEmptyCoordsQueueMaxLength, coord)
    {
      if coord !in recentEmptyPieceCoords {
        recentEmptyPieceCoords := recentEmptyPieceCoords + [coord];
      }
      ghost var q := recentEmptyPieceCoords;
      ghost var dropped := 0;
      while |recentEmptyPieceCoords| > recentEmptyCoordsQueueMaxLength
        invariant 0 <= dropped <= |q| && recentEmptyPieceCoords == q[dropped..]
        invariant dropped <= if |q| > recentEmptyCoordsQueueMaxLength then |q| - recentEmptyCoordsQueueMaxLength else 0
      {
        recentEmptyPieceCoords := recentEmptyPieceCoords[1..];
        dropped := dropped + 1;
      }
    }

    /**
     * `GetRandomMove`; `draw` is the random draw. The moves whose target is
     * queued are removed; one of the rest is picked, or any of the four
     * when none is left. What that choice guarantees is proved on the spec
     * function: `EngineFacts.RandomMoveAvoidsRecent` (the move avoids the
     * queue when some move can) and `EngineFacts.RandomMoveReachable` (every
     * candidate is picked by some draw).
     */
    method GetRandomMove(draw: nat) returns (move: Move)
      requires WellFormed(Model())
      ensures move == Engine.GetRandomMove(Model(), draw)
    {
      var allMoves := AllMoves;
      var possibleMoves := Allowed(n, EmptyPieceCoord, recentEmptyPieceCoords, allMoves);
      if |possibleMoves| == 0 {
        return allMoves[Pick(draw, |allMoves|)];
      }
      var randomIndex := Pick(draw, |possibleMoves|);
      return possibleMoves[randomIndex];
    }

    /** `CalcCountMisplacedPieces`: the count becomes the number of misplaced tiles. */
    method CalcCountMisplacedPieces()
      requires Mirrors(Arrangement, n, Tiles)
      modifies this`CountMisplacedPieces
      ensures CountMisplacedPieces == Some(Misplaced(Tiles))
    {
      var count := CountMisplaced(Arrangement, n, Tiles);
      CountMisplacedPieces := Some(count);
    }
  }

  // ---------------------------------------------------------------------------
  // The selector

  /**
   * `PuzzleShuffle.GetBestVarietyShuffleOfPuzzle` of this file: build and
   * shuffle `countVarieties` boards and return the last one with the largest
   * count, or null when every trial came out solved. Trial `i` uses
   * `emptyChoices[i]`, `capacityChoices[i]` and the draws `draws[i]`.
   */
  method GetBestVarietyShuffleOfPuzzle(size: int, countVarieties: int, countMovesForShuffle: int,
                                       emptyChoices: seq<int>, capacityChoices: seq<int>, draws: seq<seq<nat>>)
    returns (best: ShuffledPiecesArrangement?)
    requires size >= 1
    requires countVarieties <= |emptyChoices| && countVarieties <= |capacityChoices| && countVarieties <= |draws|
    requires forall i :: 0 <= i < countVarieties ==> 1 <= emptyChoices[i] <= size * size
    requires forall i :: 0 <= i < countVarieties ==> 4 <= capacityChoices[i] <= 10 && |draws[i]| >= countMovesForShuffle
    ensures var trials := Trials(size, if countVarieties < 0 then 0 else countVarieties, countMovesForShuffle,
                                 emptyChoices, capacityChoices, draws);
      var chosen := LastMax(Counts(trials));
      && (best == null <==> chosen.None?)
      && (best != null ==> best.Valid() && best.Model() == trials[chosen.value])
  {
    var varieties := BuildVarieties(size, countVarieties, countMovesForShuffle, emptyChoices, capacityChoices, draws);
    ghost var trials := Trials(size, if countVarieties < 0 then 0 else countVarieties, countMovesForShuffle,
                               emptyChoices, capacityChoices, draws);
    best := SelectMax(varieties, Counts(trials));
  }

  /** The first loop of the selector: a fresh board per trial, shuffled. */
  method BuildVarieties(size: int, countVarieties: int, countMovesForShuffle: int,
                        emptyChoices: seq<int>, capacityChoices: seq<int>, draws: seq<seq<nat>>)
    returns (varieties: seq<ShuffledPiecesArrangement>)
    requires size >= 1
    requires countVarieties <= |emptyChoices| && countVarieties <= |capacityChoices| && countVarieties <= |draws|
    requires forall i :: 0 <= i < countVarieties ==> 1 <= emptyChoices[i] <= size * size
    requires forall i :: 0 <= i < countVarieties ==> 4 <= capacityChoices[i] <= 10 && |draws[i]| >= countMovesForShuffle
    ensures |varieties| == if countVarieties < 0 then 0 else countVarieties
    ensures forall k :: 0 <= k < |varieties| ==>
      varieties[k].Valid() && varieties[k].Model() == Trial(size, emptyChoices[k], capacityChoices[k], countMovesForShuffle, draws[k])
  {
    varieties := [];
    var i := 0;
    while i < countVarieties
      invariant 0 <= i <= (if countVarieties < 0 then 0 else countVarieties) && |varieties| == i
      invariant forall k :: 0 <= k < i ==>
        varieties[k].Valid() && varieties[k].Model() == Trial(size, emptyChoices[k], capacityChoices[k], countMovesForShuffle, draws[k])
    {
      varieties := AddVariety(varieties, size, emptyChoices, capacityChoices, countMovesForShuffle, draws);
      i := i + 1;
    }
  }

  /** The body of the first loop: one more variety, the trial of the next choices. */
  method AddVariety(varieties: seq<ShuffledPiecesArrangement>, size: int, emptyChoices: seq<int>, capacityChoices: seq<int>,
                    moves: int, draws: seq<seq<nat>>)
    returns (longer: seq<ShuffledPiecesArrangement>)
    requires size >= 1 && |varieties| < |emptyChoices| && |varieties| < |capacityChoices| && |varieties| < |draws|
    requires forall k :: 0 <= k <= |varieties| ==> 1 <= emptyChoices[k] <= size * size
    requires forall k :: 0 <= k <= |varieties| ==> 4 <= capacityChoices[k] <= 10 && |draws[k]| >= moves
    requires forall k :: 0 <= k < |varieties| ==>
        varieties[k].Valid() && varieties[k].Model() == Trial(size, emptyChoices[k], capacityChoices[k], moves, draws[k])
    ensures |longer| == |varieties| + 1
    ensures forall k :: 0 <= k < |longer| ==>
        longer[k].Valid() && longer[k].Model() == Trial(size, emptyChoices[k], capacityChoices[k], moves, draws[k])
  {
    var i := |varieties|;
    var arrangement := NewShuffled(size, emptyChoices[i], capacityChoices[i], moves, draws[i]);
    longer := varieties + [arrangement];
    forall k | 0 <= k < i + 1
      ensures longer[k].Valid() && longer[k].Model() == Trial(size, emptyChoices[k], capacityChoices[k], moves, draws[k])
    {
      if k < i {
        assert longer[k] == varieties[k];
      }
    }
  }

  /** One pass of the first loop of the selector: a new board, shuffled. */
  method NewShuffled(size: int, emptyChoice: int, capacityChoice: int, countMovesForShuffle: int, draws: seq<nat>)
    returns (arrangement: ShuffledPiecesArrangement)
    requires size >= 1 && 1 <= emptyChoice <= size * size && 4 <= capacityChoice <= 10 && |draws| >= countMovesForShuffle
    ensures fresh(arrangement) && fresh(arrangement.Arrangement) && arrangement.Valid()
    ensures arrangement.Model() == Trial(size, emptyChoice, capacityChoice, countMovesForShuffle, draws)
  {
    arrangement := new ShuffledPiecesArrangement(size, emptyChoice, capacityChoice);
    arrangement.Shuffle(countMovesForShuffle, draws);
  }

  /**
   * The second loop of the selector: the running maximum starts at -1 and a
   * non-null count at least as large replaces it, so the last of equal
   * maxima wins.
   */
  method SelectMax(varieties: seq<ShuffledPiecesArrangement>, ghost counts: seq<Option<nat>>)
    returns (best: ShuffledPiecesArrangement?)
    requires |counts| == |varieties| && forall k :: 0 <= k < |varieties| ==> varieties[k].CountMisplacedPieces == counts[k]
    ensures var chosen := LastMax(counts);
      && (best == null <==> chosen.None?)
      && (best != null ==> best == varieties[chosen.value])
  {
    var maxMisplacedPieces: int := -1;
    var bestVariety: ShuffledPiecesArrangement? := null;
    var v := 0;
    while v < |varieties|
      invariant 0 <= v <= |varieties|
      invariant bestVariety == null <==> LastMax(counts[..v]).None?
      invariant bestVariety == null ==> maxMisplacedPieces == -1
      invariant bestVariety != null ==>
        var k := LastMax(counts[..v]).value;
        bestVariety == varieties[k] && maxMisplacedPieces == counts[k].value
    {
      var variety := varieties[v];
      LastMaxSnoc(counts, v);
      if variety.CountMisplacedPieces.Some? && variety.CountMisplacedPieces.value >= maxMisplacedPieces {
        maxMisplacedPieces := variety.CountMisplacedPieces.value;
        bestVariety := variety;
      }
      v := v + 1;
    }
    assert counts[..v] == counts;
    return bestVariety;
  }
}
