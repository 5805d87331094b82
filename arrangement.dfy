/**
 * `PiecesArrangement` as a class over its real `(n + 1) x (n + 1)` array:
 * every public operation changes the fields exactly as the function of
 * `Engine` that describes it, and keeps `Valid()`. `PuzzleShuffle`'s
 * selector builds and shuffles several of them and keeps one.
 */
module Arrangements {
  import opened Wrappers
  import opened Moves
  import opened Coord1DHelper
  import opened Torus
  import opened Engine
  import opened EngineFacts
  import opened LoopFacts
  import opened ReplayFacts
  import opened Grid
  import opened Selection

  /** Where a tile is: its number, coordinate, row and column. */
  datatype PieceInfo = PieceInfo(pieceNumber: int, current1DCoord: int, row: int, column: int)

  class PiecesArrangement {
    /** Tile numbers by [row, column], rows and columns 1..n used. */
    var Arrangement: array2<int>
    var EmptyPieceNumber: int
    var EmptyPieceCoord: int
    /** `None` is the null count of a shuffle that came out solved. */
    var CountMisplacedPieces: Option<nat>
    var EmptyPieceMoveHistory: seq<Move>
    /** The queue of recent empty coordinates, oldest first. */
    var recentEmptyPieceCoords: seq<int>
    var recentEmptyCoordsQueueMaxLength: int
    var n: int
    var currentBuildStep: int
    /** The tiles of `Arrangement` read row by row. */
    ghost var Tiles: seq<int>

    /** The fields as a `Board`. */
    ghost function Model(): Board
      reads this`n, this`Tiles, this`EmptyPieceNumber, this`EmptyPieceCoord, this`CountMisplacedPieces
      reads this`EmptyPieceMoveHistory, this`recentEmptyPieceCoords, this`recentEmptyCoordsQueueMaxLength
    {
      Board(n, Tiles, EmptyPieceNumber, EmptyPieceCoord, CountMisplacedPieces,
            EmptyPieceMoveHistory, recentEmptyPieceCoords, recentEmptyCoordsQueueMaxLength)
    }

    /**
     * The array holds the tiles and the fields form a well-formed board;
     * what the operations keep beyond that is stated on `Engine`'s
     * functions (`Inv`).
     */
    ghost predicate Valid()
      reads this, Arrangement
    {
      Mirrors(Arrangement, n, Tiles) && WellFormed(Model())
    }

    /**
     * A solved board of size `size`. `emptyChoice` is the answer of
     * `rnd.Next(1, n * n + 1)` and `capacityChoice` that of `rnd.Next(4, 11)`.
     */
    constructor(size: int, emptyChoice: int, capacityChoice: int)
      requires size >= 1 && 1 <= emptyChoice <= size * size && 4 <= capacityChoice <= 10
      ensures Valid() && fresh(Arrangement)
      ensures Model() == Initial(size, emptyChoice, capacityChoice) && currentBuildStep == 0
    {
      CountMisplacedPieces := Some(0);
      n := size;
      var a := new int[size + 1, size + 1];
      FillSolved(a, size);
      Arrangement := a;
      Tiles := Solved(size);
      EmptyPieceNumber := emptyChoice;
      EmptyPieceCoord := emptyChoice;
      recentEmptyCoordsQueueMaxLength := capacityChoice;
      EmptyPieceMoveHistory := [];
      recentEmptyPieceCoords := [];
      currentBuildStep := 0;
      new;
      assert Mirrors(Arrangement, n, Tiles) && currentBuildStep == 0;
      AddEmptyCoordToRecent(EmptyPieceCoord);
      assert currentBuildStep == 0;
      ghost var b := Initial(size, emptyChoice, capacityChoice);
      assert recentEmptyPieceCoords == b.recent;
      assert Tiles == b.tiles;
      assert n == b.n && EmptyPieceNumber == b.emptyNumber && EmptyPieceCoord == b.emptyCoord;
      assert CountMisplacedPieces == b.count && EmptyPieceMoveHistory == b.history;
      assert recentEmptyCoordsQueueMaxLength == b.capacity;
      assert Model() == b;
    }

    /**
     * `Shuffle(countSteps)`; `draws[i]` is the random draw of pass `i`.
     * Afterwards the build cursor is the number of moves recorded.
     */
    method Shuffle(countSteps: int, draws: seq<nat>)
      requires Valid() && |draws| >= countSteps
      modifies this, Arrangement
      ensures Valid() && Arrangement == old(Arrangement)
      ensures Model() == ShuffleLoop(old(Model()), countSteps, draws)
      ensures currentBuildStep == |EmptyPieceMoveHistory|
    {
      var stepIndex := 0;
      ghost var cur := Model();
      ghost var left := countSteps;
      ghost var rest := draws;
      ghost var goal := ShuffleLoop(cur, left, rest);
      currentBuildStep := countSteps;
      assert Model() == cur;
      while stepIndex < countSteps
        invariant 0 <= stepIndex <= if countSteps > 0 then countSteps else 0
        invariant left == countSteps - stepIndex && rest == draws[stepIndex..]
        invariant Mirrors(Arrangement, n, Tiles) && WellFormed(cur) && Arrangement == old(Arrangement)
        invariant cur == Model()
        invariant ShuffleLoop(cur, left, rest) == goal
      {
        assert rest[0] == draws[stepIndex];
        var solved;
        solved, left, rest := ShuffleAdvance(draws[stepIndex], left, rest);
        cur := Model();
        if solved {
          break;
        }
        stepIndex := stepIndex + 1;
      }
      if stepIndex >= countSteps {
        assert left <= 0;
        assert ShuffleLoop(cur, left, rest) == cur;
      }
      assert cur == goal;
      currentBuildStep := |EmptyPieceMoveHistory|;
      assert Model() == goal;
    }

    /** One pass of the loop of `Shuffle`, as a step of `ShuffleLoop` with `left` passes and the draws `rest` to go. */
    method ShuffleAdvance(draw: nat, ghost left: int, ghost rest: seq<nat>)
      returns (solved: bool, ghost left': int, ghost rest': seq<nat>)
      requires Valid() && 1 <= left <= |rest| && draw == rest[0]
      modifies this, Arrangement
      ensures Valid() && Arrangement == old(Arrangement)
      ensures left' == left - 1 && rest' == rest[1..]
      ensures solved ==> Model() == ShuffleLoop(old(Model()), left, rest)
      ensures !solved ==> ShuffleLoop(old(Model()), left, rest) == ShuffleLoop(Model(), left', rest')
    {
      left', rest' := left - 1, rest[1..];
      ghost var before := Model();
      solved := ShuffleTurn(draw);
      ShuffleLoopTurn(before, left, rest, Model(), solved);
    }

    /**
     * One pass of the loop of `Shuffle` with its test: a pass that leaves
     * the grid solved nulls the count and reports it.
     */
    method ShuffleTurn(draw: nat) returns (solved: bool)
      requires Valid()
      modifies this, Arrangement
      ensures Valid() && Arrangement == old(Arrangement)
      ensures var r1 := ShuffleStep(old(Model()), Engine.GetRandomMove(old(Model()), draw));
        && (solved <==> r1.count == Some(0))
        && Model() == if solved then r1.(count := None) else r1
    {
      var move := GetRandomMove(draw);
      ShufflePass(move);
      solved := CountMisplacedPieces == Some(0);
      if solved {
        CountMisplacedPieces := None;
      }
    }

    /**
     * One pass of the loop of `Shuffle` up to the test for a solved grid:
     * record the move, move the empty tile, queue its new coordinate and
     * recount.
     */
    method ShufflePass(move: Move)
      requires Valid()
      modifies this, Arrangement
      ensures Valid() && Arrangement == old(Arrangement)
      ensures Model() == ShuffleStep(old(Model()), move)
      ensures currentBuildStep == old(currentBuildStep)
    {
      ghost var b0 := Model();
      EmptyPieceMoveHistory := EmptyPieceMoveHistory + [move];
      ghost var b1 := Model();
      assert b1 == b0.(history := b0.history + [move]);
      var newEmptyCoord := Target(n, EmptyPieceCoord, move);
      Relocate(newEmptyCoord);
    }

    /**
     * `BuildStep`: undo the recorded move at index `Count - currentBuildStep`
     * and count the cursor down; nothing happens when the cursor is used up,
     * and an out-of-range cursor is clamped to the history length.
     */
    method BuildStep()
      requires Valid()
      modifies this, Arrangement
      ensures Valid() && Arrangement == old(Arrangement)
      ensures (Model(), currentBuildStep) == AfterBuildStep(old(Model()), old(currentBuildStep))
    {
      ghost var b0 := Model();
      if currentBuildStep <= 0 || |EmptyPieceMoveHistory| == 0 {
        IdleShape(b0, currentBuildStep);
        return;
      }
      var idx := |EmptyPieceMoveHistory| - currentBuildStep;
      if idx < 0 || idx >= |EmptyPieceMoveHistory| {
        IdleShape(b0, currentBuildStep);
        currentBuildStep := if currentBuildStep < |EmptyPieceMoveHistory| then currentBuildStep else |EmptyPieceMoveHistory|;
        assert Model() == b0;
        return;
      }
      var recordedMove := EmptyPieceMoveHistory[idx];
      var reverseMove := InvertMove(recordedMove);
      var newEmptyCoord := Target(n, EmptyPieceCoord, reverseMove);
      UndoShape(b0, currentBuildStep, newEmptyCoord);
      ghost var goal := AfterBuildStep(b0, currentBuildStep);
      Relocate(newEmptyCoord);
      ghost var b1 := Model();
      assert b1 == goal.0;
      currentBuildStep := currentBuildStep - 1;
      assert Model() == b1 && currentBuildStep == goal.1;
    }

    /**
     * `MoveEmptyPiece(direction)`: the empty tile moves by a direction
     * string, which an unknown string leaves where it is; the history, the
     * queue and the cursor are untouched.
     */
    method MoveEmptyPiece(direction: string)
      requires Valid()
      modifies this, Arrangement
      ensures Valid() && Arrangement == old(Arrangement)
      ensures Model() == AfterMoveEmptyPiece(old(Model()), direction)
      ensures currentBuildStep == old(currentBuildStep)
    {
      var newEmptyCoord := GetEmptyPieceCoordByMove(n, EmptyPieceCoord, Parse(direction));
      MoveEmptyTo(newEmptyCoord);
      ghost var b1 := Model();
      CalcCountMisplacedPieces();
      assert Model() == Recount(b1);
    }

    /**
     * The tail `Shuffle` and `BuildStep` share once the new empty
     * coordinate is known: swap, queue the coordinate, recount.
     */
    method Relocate(newEmptyCoord: int)
      requires Valid() && 1 <= newEmptyCoord <= n * n
      modifies this`EmptyPieceCoord, this`Tiles, this`recentEmptyPieceCoords, this`CountMisplacedPieces, Arrangement
      ensures Mirrors(Arrangement, n, Tiles)
      ensures var moved := SwapEmptyTo(old(Model()), newEmptyCoord);
        Model() == Recount(moved.(recent := AddToRecent(moved.recent, moved.capacity, newEmptyCoord)))
    {
      ghost var moved := SwapEmptyTo(Model(), newEmptyCoord);
      ghost var goal := Recount(moved.(recent := AddToRecent(moved.recent, moved.capacity, newEmptyCoord)));
      MoveEmptyTo(newEmptyCoord);
      assert Model() == moved;
      AddEmptyCoordToRecent(newEmptyCoord);
      assert recentEmptyPieceCoords == goal.recent;
      CalcCountMisplacedPieces();
      assert Tiles == goal.tiles && CountMisplacedPieces == goal.count;
      assert EmptyPieceCoord == goal.emptyCoord;
    }

    /**
     * `GetPieceInfoByNumber`: the first cell, row by row, holding the tile,
     * or none when no cell holds it. On a board that keeps `Inv` the tiles
     * are 1..n² (`TileNumbers`), so exactly those numbers are found.
     */
    method GetPieceInfoByNumber(pieceNumber: int) returns (info: Option<PieceInfo>)
      requires Valid()
      ensures info.None? <==> pieceNumber !in Tiles
      ensures info.Some? ==>
        var p := info.value;
        && p.pieceNumber == pieceNumber
        && 1 <= p.row <= n && 1 <= p.column <= n
        && p.current1DCoord == RowColToCoord1D(n, p.row, p.column)
        && Tiles[p.current1DCoord - 1] == pieceNumber
        && forall k :: 0 <= k < p.current1DCoord - 1 ==> Tiles[k] != pieceNumber
    {
      ghost var k := 0;
      var i := 1;
      while i <= n
        invariant 1 <= i <= n + 1
        invariant k == (i - 1) * n && k <= n * n
        invariant forall x :: 0 <= x < k ==> Tiles[x] != pieceNumber
      {
        var j := 1;
        while j <= n
          invariant 1 <= j <= n + 1
          invariant k == RowColToCoord1D(n, i, j) - 1 && k <= n * n
          invariant forall x :: 0 <= x < k ==> Tiles[x] != pieceNumber
        {
          if Arrangement[i, j] == pieceNumber {
            return Some(PieceInfo(pieceNumber, RowColToCoord1D(n, i, j), i, j));
          }
          j := j + 1;
          k := k + 1;
        }
        assert k == i * n by {
          assert (i - 1) * n + n == i * n;
        }
        i := i + 1;
      }
      assert forall x :: x in Tiles ==> x != pieceNumber;
      return None;
    }

    /**
     * The swap the three moving operations share: the empty coordinate
     * becomes `newEmptyCoord`, and the cells of the old and the new empty
     * coordinate exchange their tiles.
     */
    method MoveEmptyTo(newEmptyCoord: int)
      requires Valid() && 1 <= newEmptyCoord <= n * n
      modifies this`EmptyPieceCoord, this`Tiles, Arrangement
      ensures Mirrors(Arrangement, n, Tiles)
      ensures Model() == SwapEmptyTo(old(Model()), newEmptyCoord)
    {
      var oldCoord := EmptyPieceCoord;
      EmptyPieceCoord := newEmptyCoord;
      var oldRowCol := Convert1DCoordToRowCol(n, oldCoord);
      var newRowCol := Convert1DCoordToRowCol(n, newEmptyCoord);
      RowColOfCoord(n, oldCoord);
      RowColOfCoord(n, newEmptyCoord);
      SwapCells(Arrangement, n, oldRowCol.0, oldRowCol.1, newRowCol.0, newRowCol.1, Tiles);
      Tiles := Swap(Tiles, oldCoord - 1, newEmptyCoord - 1);
    }

    /**
     * `AddEmptyCoordToRecent`: enqueue the coordinate unless it is queued,
     * then dequeue the oldest entries while the queue is over capacity.
     */
    method AddEmptyCoordToRecent(coord: int)
      requires recentEmptyCoordsQueueMaxLength >= 0
      modifies this`recentEmptyPieceCoords
      ensures recentEmptyPieceCoords == AddToRecent(old(recentEmptyPieceCoords), recentEmptyCoordsQueueMaxLength, coord)
    {
      if coord !in recentEmptyPieceCoords {
        recentEmptyPieceCoords := recentEmptyPieceCoords + [coord];
      }
      ghost var q := recentEmptyPieceCoords;
      ghost var dropped := 0;
      while |recentEmptyPieceCoords| > recentEmptyCoordsQueueMaxLength
        invariant 0 <= dropped <= |q| && recentEmptyPieceCoords == q[dropped..]
        invariant dropped <= if |q| > recentEmptyCoordsQueueMaxLength then |q| - recentEmptyCoordsQueueMaxLength else 0
      {
        recentEmptyPieceCoords := recentEmptyPieceCoords[1..];
        dropped := dropped + 1;
      }
    }

    /**
     * `GetRandomMove`; `draw` is the random draw. The moves whose target is
     * queued are removed; one of the rest is picked, or any of the four
     * when none is left. What that choice guarantees is proved on the spec
     * function: `EngineFacts.RandomMoveAvoidsRecent` (the move avoids the
     * queue when some move can) and `EngineFacts.RandomMoveReachable` (every
     * candidate is picked by some draw).
     */
    method GetRandomMove(draw: nat) returns (move: Move)
      requires WellFormed(Model())
      ensures move == Engine.GetRandomMove(Model(), draw)
    {
      var allMoves := AllMoves;
      var possibleMoves := Allowed(n, EmptyPieceCoord, recentEmptyPieceCoords, allMoves);
      if |possibleMoves| == 0 {
        return allMoves[Pick(draw, |allMoves|)];
      }
      var randomIndex := Pick(draw, |possibleMoves|);
      return possibleMoves[randomIndex];
    }

    /** `CalcCountMisplacedPieces`: the count becomes the number of misplaced tiles. */
    method CalcCountMisplacedPieces()
      requires Mirrors(Arrangement, n, Tiles)
      modifies this`CountMisplacedPieces
      ensures CountMisplacedPieces == Some(Misplaced(Tiles))
    {
      var count := CountMisplaced(Arrangement, n, Tiles);
      CountMisplacedPieces := Some(count);
    }
  }

  /** Trial board: a fresh board with the given choices, shuffled with `draws`. */
  function Trial(size: int, emptyChoice: int, capacityChoice: int, moves: int, draws: seq<nat>): (b: Board)
    requires size >= 1 && 1 <= emptyChoice <= size * size && 4 <= capacityChoice <= 10 && |draws| >= moves
  {
    ShuffleLoop(Initial(size, emptyChoice, capacityChoice), moves, draws)
  }

  /** The boards of the first `count` trials, trial `k` built with the `k`-th choices and draws. */
  function Trials(size: int, count: nat, moves: int, emptyChoices: seq<int>, capacityChoices: seq<int>,
                  draws: seq<seq<nat>>): (trials: seq<Board>)
    requires size >= 1 && count <= |emptyChoices| && count <= |capacityChoices| && count <= |draws|
    requires forall i :: 0 <= i < count ==> 1 <= emptyChoices[i] <= size * size
    requires forall i :: 0 <= i < count ==> 4 <= capacityChoices[i] <= 10 && |draws[i]| >= moves
    ensures |trials| == count
    ensures forall k :: 0 <= k < count ==> trials[k] == Trial(size, emptyChoices[k], capacityChoices[k], moves, draws[k])
  {
    seq(count, k requires 0 <= k < count => Trial(size, emptyChoices[k], capacityChoices[k], moves, draws[k]))
  }

  /** The misplaced counts of the boards. */
  function Counts(boards: seq<Board>): (counts: seq<Option<nat>>)
    ensures |counts| == |boards| && forall i :: 0 <= i < |boards| ==> counts[i] == boards[i].count
  {
    seq(|boards|, i requires 0 <= i < |boards| => boards[i].count)
  }

  /**
   * `GetBestVarietyShuffleOfPuzzle` (`PiecesArrangement.cs`): build and
   * shuffle `countVarieties` boards, then return the first whose count meets
   * the target, else the last with the largest count, else null when every
   * trial came out solved. Trial `i` uses `emptyChoices[i]`,
   * `capacityChoices[i]` and the draws `draws[i]`.
   */
  method GetBestVarietyShuffleOfPuzzle(size: int, countVarieties: int, countMovesForShuffle: int,
                                       targetCountMisplacedPieces: Option<int>,
                                       emptyChoices: seq<int>, capacityChoices: seq<int>, draws: seq<seq<nat>>)
    returns (best: PiecesArrangement?)
    requires size >= 1
    requires countVarieties <= |emptyChoices| && countVarieties <= |capacityChoices| && countVarieties <= |draws|
    requires forall i :: 0 <= i < countVarieties ==> 1 <= emptyChoices[i] <= size * size
    requires forall i :: 0 <= i < countVarieties ==> 4 <= capacityChoices[i] <= 10 && |draws[i]| >= countMovesForShuffle
    ensures var trials := Trials(size, if countVarieties < 0 then 0 else countVarieties, countMovesForShuffle,
                                 emptyChoices, capacityChoices, draws);
      var chosen := Selected(Counts(trials), targetCountMisplacedPieces);
      && (best == null <==> chosen.None?)
      && (best != null ==> best.Valid() && best.Model() == trials[chosen.value])
  {
    var varieties := BuildVarieties(size, countVarieties, countMovesForShuffle, emptyChoices, capacityChoices, draws);
    ghost var trials := Trials(size, if countVarieties < 0 then 0 else countVarieties, countMovesForShuffle,
                               emptyChoices, capacityChoices, draws);
    best := SelectVariety(varieties, targetCountMisplacedPieces, Counts(trials));
  }

  /** The first loop of `GetBestVarietyShuffleOfPuzzle`: a fresh board per trial, shuffled. */
  method BuildVarieties(size: int, countVarieties: int, countMovesForShuffle: int,
                        emptyChoices: seq<int>, capacityChoices: seq<int>, draws: seq<seq<nat>>)
    returns (varieties: seq<PiecesArrangement>)
    requires size >= 1
    requires countVarieties <= |emptyChoices| && countVarieties <= |capacityChoices| && countVarieties <= |draws|
    requires forall i :: 0 <= i < countVarieties ==> 1 <= emptyChoices[i] <= size * size
    requires forall i :: 0 <= i < countVarieties ==> 4 <= capacityChoices[i] <= 10 && |draws[i]| >= countMovesForShuffle
    ensures |varieties| == if countVarieties < 0 then 0 else countVarieties
    ensures forall k :: 0 <= k < |varieties| ==>
      varieties[k].Valid() && varieties[k].Model() == Trial(size, emptyChoices[k], capacityChoices[k], countMovesForShuffle, draws[k])
  {
    varieties := [];
    var i := 0;
    while i < countVarieties
      invariant 0 <= i <= (if countVarieties < 0 then 0 else countVarieties) && |varieties| == i
      invariant forall k :: 0 <= k < i ==>
        varieties[k].Valid() && varieties[k].Model() == Trial(size, emptyChoices[k], capacityChoices[k], countMovesForShuffle, draws[k])
    {
      varieties := AddVariety(varieties, size, emptyChoices, capacityChoices, countMovesForShuffle, draws);
      i := i + 1;
    }
  }

  /** The body of the first loop: one more variety, the trial of the next choices. */
  method AddVariety(varieties: seq<PiecesArrangement>, size: int, emptyChoices: seq<int>, capacityChoices: seq<int>,
                    moves: int, draws: seq<seq<nat>>)
    returns (longer: seq<PiecesArrangement>)
    requires size >= 1 && |varieties| < |emptyChoices| && |varieties| < |capacityChoices| && |varieties| < |draws|
    requires forall k :: 0 <= k <= |varieties| ==> 1 <= emptyChoices[k] <= size * size
    requires forall k :: 0 <= k <= |varieties| ==> 4 <= capacityChoices[k] <= 10 && |draws[k]| >= moves
    requires forall k :: 0 <= k < |varieties| ==>
        varieties[k].Valid() && varieties[k].Model() == Trial(size, emptyChoices[k], capacityChoices[k], moves, draws[k])
    ensures |longer| == |varieties| + 1
    ensures forall k :: 0 <= k < |longer| ==>
        longer[k].Valid() && longer[k].Model() == Trial(size, emptyChoices[k], capacityChoices[k], moves, draws[k])
  {
    var i := |varieties|;
    var arrangement := NewShuffled(size, emptyChoices[i], capacityChoices[i], moves, draws[i]);
    longer := varieties + [arrangement];
    forall k | 0 <= k < i + 1
      ensures longer[k].Valid() && longer[k].Model() == Trial(size, emptyChoices[k], capacityChoices[k], moves, draws[k])
    {
      if k < i {
        assert longer[k] == varieties[k];
      }
    }
  }

  /** One pass of the first loop of `GetBestVarietyShuffleOfPuzzle`: a new board, shuffled. */
  method NewShuffled(size: int, emptyChoice: int, capacityChoice: int, countMovesForShuffle: int, draws: seq<nat>)
    returns (arrangement: PiecesArrangement)
    requires size >= 1 && 1 <= emptyChoice <= size * size && 4 <= capacityChoice <= 10 && |draws| >= countMovesForShuffle
    ensures fresh(arrangement) && fresh(arrangement.Arrangement) && arrangement.Valid()
    ensures arrangement.Model() == Trial(size, emptyChoice, capacityChoice, countMovesForShuffle, draws)
  {
    arrangement := new PiecesArrangement(size, emptyChoice, capacityChoice);
    arrangement.Shuffle(countMovesForShuffle, draws);
  }

  /**
   * The second loop of `GetBestVarietyShuffleOfPuzzle`: the first variety
   * whose count meets the target, else the last with the largest count,
   * else null.
   */
  method SelectVariety(varieties: seq<PiecesArrangement>, targetCountMisplacedPieces: Option<int>,
                       ghost counts: seq<Option<nat>>)
    returns (best: PiecesArrangement?)
    requires |counts| == |varieties| && forall k :: 0 <= k < |varieties| ==> varieties[k].CountMisplacedPieces == counts[k]
    ensures var chosen := Selected(counts, targetCountMisplacedPieces);
      && (best == null <==> chosen.None?)
      && (best != null ==> best == varieties[chosen.value])
  {
    var maxMisplacedPieces: int := -1;
    var bestVariety: PiecesArrangement? := null;
    var v := 0;
    while v < |varieties|
      invariant 0 <= v <= |varieties|
      invariant targetCountMisplacedPieces.Some? ==> forall k :: 0 <= k < v ==> !Hits(counts[k], targetCountMisplacedPieces.value)
      invariant bestVariety == null <==> LastMax(counts[..v]).None?
      invariant bestVariety == null ==> maxMisplacedPieces == -1
      invariant bestVariety != null ==>
        var k := LastMax(counts[..v]).value;
        bestVariety == varieties[k] && maxMisplacedPieces == counts[k].value
    {
      var variety := varieties[v];
      LastMaxSnoc(counts, v);
      if variety.CountMisplacedPieces.Some? {
        if targetCountMisplacedPieces.Some? && variety.CountMisplacedPieces.value == targetCountMisplacedPieces.value {
          SelectedHitsTarget(counts, targetCountMisplacedPieces.value, v);
          return variety;
        }
        if variety.CountMisplacedPieces.value >= maxMisplacedPieces {
          maxMisplacedPieces := variety.CountMisplacedPieces.value;
          bestVariety := variety;
        }
      }
      v := v + 1;
    }
    assert counts[..v] == counts;
    return bestVariety;
  }
}
