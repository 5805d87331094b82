/**
 * The arrangement engine of `PiecesArrangement` as values: the board, the
 * effect of each operation on it, and what those effects keep and change.
 * The classes of `Arrangement` and `EarlyShuffle` are proved to change
 * their state exactly as the functions here say.
 */
module Engine {
  import opened Wrappers
  import opened Moves
  import opened Coord1DHelper
  import opened Torus

  // ---------------------------------------------------------------------------
  // Tiles

  /**
   * The solved grid read row by row: the cell at coordinate c (index c - 1)
   * holds tile c, that is cell (i, j) holds (i - 1) * n + j.
   */
  function Solved(n: int): (s: seq<int>)
    requires n >= 1
    ensures |s| == n * n
    ensures forall k :: 0 <= k < |s| ==> s[k] == k + 1
  {
    seq(n * n, k => k + 1)
  }

  /** The number of cells whose tile is not the one the solved grid has there. */
  function Misplaced(s: seq<int>): (c: nat)
    ensures c <= |s|
    ensures c == 0 <==> forall k :: 0 <= k < |s| ==> s[k] == k + 1
    decreases |s|
  {
    if s == [] then 0
    else Misplaced(s[..|s| - 1]) + (if s[|s| - 1] != |s| then 1 else 0)
  }

  /** The cells `i` and `j` exchanged. */
  function Swap(s: seq<int>, i: int, j: int): (r: seq<int>)
    requires 0 <= i < |s| && 0 <= j < |s|
    ensures |r| == |s| && r[i] == s[j] && r[j] == s[i]
    ensures forall k :: 0 <= k < |s| && k != i && k != j ==> r[k] == s[k]
  {
    s[i := s[j]][j := s[i]]
  }

  /** `r` is what is left of `s` after dropping some of its oldest (first) entries. */
  predicate IsSuffix(r: seq<int>, s: seq<int>)
  {
    |r| <= |s| && r == s[|s| - |r|..]
  }

  predicate NoDuplicates(q: seq<int>)
  {
    forall i, j :: 0 <= i < j < |q| ==> q[i] != q[j]
  }

  // ---------------------------------------------------------------------------
  // The board

  /**
   * The logical state of one arrangement: board size, tiles by coordinate,
   * the number of the empty tile and its coordinate, the misplaced count
   * (`None` is C#'s `null`), the move history, the queue of recent empty
   * coordinates (oldest first) and that queue's capacity.
   */
  datatype Board = Board(
    n: int,
    tiles: seq<int>,
    emptyNumber: int,
    emptyCoord: int,
    count: Option<nat>,
    history: seq<Move>,
    recent: seq<int>,
    capacity: int)

  /** The shape every operation needs. */
  predicate WellFormed(b: Board)
  {
    b.n >= 1 && |b.tiles| == b.n * b.n && 1 <= b.emptyCoord <= b.n * b.n && b.capacity >= 0
  }

  /** The tiles are a permutation of 1..n². */
  ghost predicate TilesPermuted(b: Board)
    requires WellFormed(b)
  {
    multiset(b.tiles) == multiset(Solved(b.n))
  }

  /** The cell at the empty coordinate holds the empty tile. */
  predicate EmptyInPlace(b: Board)
    requires WellFormed(b)
  {
    b.tiles[b.emptyCoord - 1] == b.emptyNumber
  }

  /** The count is the exact misplaced count, or null, and null only on a solved grid. */
  predicate CountAccurate(b: Board)
  {
    b.count == Some(Misplaced(b.tiles)) || (b.count == None && Misplaced(b.tiles) == 0)
  }

  /** The recent queue holds no coordinate twice and stays within its capacity in [4, 10]. */
  predicate QueueBounded(b: Board)
  {
    4 <= b.capacity <= 10 && NoDuplicates(b.recent) && |b.recent| <= b.capacity
  }

  /** What every operation keeps. */
  ghost predicate Inv(b: Board)
  {
    WellFormed(b) && TilesPermuted(b) && EmptyInPlace(b) && CountAccurate(b) && QueueBounded(b)
  }

  /** The board the constructor builds: solved, the empty tile at its own cell. */
  function Initial(n: int, emptyNumber: int, capacity: int): (b: Board)
    requires n >= 1 && capacity >= 0
    ensures 1 <= emptyNumber <= n * n ==> WellFormed(b)
    ensures Misplaced(b.tiles) == 0 && CountAccurate(b)
  {
    Board(n, Solved(n), emptyNumber, emptyNumber, Some(0), [], AddToRecent([], capacity, emptyNumber), capacity)
  }

  /** The swap the three moving operations share: the empty tile goes to `t`. */
  function SwapEmptyTo(b: Board, t: int): (r: Board)
    requires WellFormed(b) && 1 <= t <= b.n * b.n
    ensures WellFormed(r)
  {
    b.(tiles := Swap(b.tiles, b.emptyCoord - 1, t - 1), emptyCoord := t)
  }

  /** One move of the empty tile, grid and coordinate only. */
  function Step(b: Board, m: Move): (r: Board)
    requires WellFormed(b)
    ensures WellFormed(r)
  {
    SwapEmptyTo(b, Target(b.n, b.emptyCoord, m))
  }

  /** `CalcCountMisplacedPieces`. */
  function Recount(b: Board): (r: Board)
    ensures r.count == Some(Misplaced(b.tiles))
    ensures r.count.value == 0 <==> forall k :: 0 <= k < |b.tiles| ==> b.tiles[k] == k + 1
  {
    b.(count := Some(Misplaced(b.tiles)))
  }

  /**
   * `AddEmptyCoordToRecent`: enqueue the coordinate unless it is already
   * queued, then drop the oldest entries until the capacity is respected.
   */
  function AddToRecent(q: seq<int>, capacity: int, coord: int): (r: seq<int>)
    requires capacity >= 0
    ensures |r| <= capacity
    ensures capacity >= 1 && |q| <= capacity ==> coord in r
    ensures coord in q && |q| <= capacity ==> r == q
    ensures forall x :: x in r ==> x in q || x == coord
  {
    var q1 := if coord in q then q else q + [coord];
    var k := if |q1| > capacity then |q1| - capacity else 0;
    assert coord !in q ==> q1[|q1| - 1] == coord;
    q1[k..]
  }

  /** The moves whose target is not in the recent queue, in the order of `ms`. */
  function Allowed(n: int, coord: int, recent: seq<int>, ms: seq<Move>): (r: seq<Move>)
    requires n >= 1 && 1 <= coord <= n * n
    ensures |r| <= |ms|
    ensures forall m :: m in r <==> m in ms && Target(n, coord, m) !in recent
  {
    if ms == [] then []
    else
      var rest := Allowed(n, coord, recent, ms[1..]);
      if Target(n, coord, ms[0]) in recent then rest else [ms[0]] + rest
  }

  /**
   * The answer of the random source to `Next(0, m)`, for a draw from an
   * unbounded stream: every value in [0, m) is the answer to some draw.
   */
  function Pick(draw: nat, m: nat): (k: nat)
    requires m >= 1
    ensures k < m
    ensures draw < m ==> k == draw
  {
    draw % m
  }

  /**
   * `GetRandomMove`: a move whose target is not in the recent queue, or any
   * of the four when every target is.
   */
  function GetRandomMove(b: Board, draw: nat): (m: Move)
    requires WellFormed(b)
    ensures var possible := Allowed(b.n, b.emptyCoord, b.recent, AllMoves);
      |possible| > 0 ==> m in possible
  {
    var possible := Allowed(b.n, b.emptyCoord, b.recent, AllMoves);
    if |possible| == 0 then AllMoves[Pick(draw, |AllMoves|)] else possible[Pick(draw, |possible|)]
  }

  /** One pass of the loop of `Shuffle`, before the test for a solved grid. */
  function ShuffleStep(b: Board, m: Move): (r: Board)
    requires WellFormed(b)
    ensures WellFormed(r)
  {
    var t := Target(b.n, b.emptyCoord, m);
    var moved := SwapEmptyTo(b.(history := b.history + [m]), t);
    Recount(moved.(recent := AddToRecent(moved.recent, moved.capacity, t)))
  }

  /**
   * The loop of `Shuffle`: at most `steps` passes, each using one draw; the
   * first pass that leaves the grid solved ends the loop with a null count.
   */
  function ShuffleLoop(b: Board, steps: int, draws: seq<nat>): (r: Board)
    requires WellFormed(b) && |draws| >= steps
    ensures WellFormed(r)
    decreases steps
  {
    if steps <= 0 then b
    else
      var r1 := ShuffleStep(b, GetRandomMove(b, draws[0]));
      if r1.count == Some(0) then r1.(count := None)
      else ShuffleLoop(r1, steps - 1, draws[1..])
  }

  /** `BuildStep` on a board and its build cursor, as the source has it. */
  function AfterBuildStep(b: Board, cursor: int): (r: (Board, int))
    requires WellFormed(b)
    ensures WellFormed(r.0)
  {
    if cursor <= 0 || |b.history| == 0 then (b, cursor)
    else
      var idx := |b.history| - cursor;
      if idx < 0 || idx >= |b.history| then (b, if cursor < |b.history| then cursor else |b.history|)
      else
        var t := Target(b.n, b.emptyCoord, InvertMove(b.history[idx]));
        var moved := SwapEmptyTo(b, t);
        (Recount(moved.(recent := AddToRecent(moved.recent, moved.capacity, t))), cursor - 1)
  }

  /**
   * `BuildStep` as its own comments describe it (PiecesArrangement.cs:133
   * and :153): one step of assembling the puzzle, done by undoing a recorded
   * move with its inverse. Inverses assemble only when taken newest first, so
   * the move undone is the one at index `cursor - 1`, the most recent one not
   * yet undone.
   */
  function AfterBuildStepIntended(b: Board, cursor: int): (r: (Board, int))
    requires WellFormed(b)
    ensures WellFormed(r.0)
  {
    if cursor <= 0 || |b.history| == 0 then (b, cursor)
    else if cursor > |b.history| then (b, |b.history|)
    else
      var t := Target(b.n, b.emptyCoord, InvertMove(b.history[cursor - 1]));
      var moved := SwapEmptyTo(b, t);
      (Recount(moved.(recent := AddToRecent(moved.recent, moved.capacity, t))), cursor - 1)
  }

  /** `MoveEmptyPiece`: one move by direction string; history and queue untouched. */
  function AfterMoveEmptyPiece(b: Board, direction: string): (r: Board)
    requires WellFormed(b)
    ensures WellFormed(r)
  {
    Recount(SwapEmptyTo(b, GetEmptyPieceCoordByMove(b.n, b.emptyCoord, Parse(direction))))
  }

  /** The tiles and the empty coordinate after the moves `ms`; nothing else changes. */
  function Walk(b: Board, ms: seq<Move>): (r: Board)
    requires WellFormed(b)
    ensures WellFormed(r)
    ensures r == b.(tiles := r.tiles, emptyCoord := r.emptyCoord)
    ensures r.emptyCoord == WalkCoord(b.n, b.emptyCoord, ms)
    decreases |ms|
  {
    if ms == [] then b else Step(Walk(b, ms[..|ms| - 1]), ms[|ms| - 1])
  }

  /** `k` calls of `BuildStep`. */
  function BuildSteps(b: Board, cursor: int, k: nat): (r: (Board, int))
    requires WellFormed(b)
    ensures WellFormed(r.0)
  {
    if k == 0 then (b, cursor) else AfterBuildStep(BuildSteps(b, cursor, k - 1).0, BuildSteps(b, cursor, k - 1).1)
  }

  /** `k` calls of the intended build step. */
  function BuildStepsIntended(b: Board, cursor: int, k: nat): (r: (Board, int))
    requires WellFormed(b)
    ensures WellFormed(r.0)
  {
    if k == 0 then (b, cursor)
    else AfterBuildStepIntended(BuildStepsIntended(b, cursor, k - 1).0, BuildStepsIntended(b, cursor, k - 1).1)
  }

  /** Two boards with the same size, tiles and empty coordinate. */
  predicate SameCells(x: Board, y: Board)
  {
    x.n == y.n && x.tiles == y.tiles && x.emptyCoord == y.emptyCoord
  }

  /**
   * Starting from a cursor equal to the history length, `j` build steps
   * replay the inverses of the FIRST `j` recorded moves, oldest first,
   * and leave the history alone.
   */
  ghost predicate ForwardDone(b: Board, j: nat)
    requires WellFormed(b) && j <= |b.history|
  {
    var (r, c) := BuildSteps(b, |b.history|, j);
    && c == |b.history| - j
    && r.history == b.history && (r.n, r.emptyNumber, r.capacity) == (b.n, b.emptyNumber, b.capacity)
    && SameCells(r, Walk(b, Inverses(b.history[..j])))
  }

  /**
   * `k` intended build steps from a cursor at the end of the history leave
   * the cells of `x` after all but the last `k` moves, keep the history,
   * and count the cursor down.
   */
  ghost predicate IntendedUndone(x: Board, b: Board, k: nat)
    requires WellFormed(x) && WellFormed(b) && k <= |b.history|
  {
    var (r, c) := BuildStepsIntended(b, |b.history|, k);
    && c == |b.history| - k && r.history == b.history
    && SameCells(r, Walk(x, b.history[..|b.history| - k]))
  }
}
