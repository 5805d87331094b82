# Sliding-puzzle arrangement engine, modelled in Dafny

The model covers the logical core of a Unity sliding-tile puzzle. It has
two parts.

The first part is the N×N arrangement engine:
- `PiecesArrangement` keeps a 1-based `int[,]` grid, the number and
  coordinate of the empty tile, a misplaced-tile count, a move history and
  a small queue of recent empty coordinates. The queue lets the shuffle
  avoid coming straight back.
- It shuffles by moving the empty tile on a torus: a move off one edge
  comes back on the opposite edge.
- It undoes the shuffle one `BuildStep` at a time.
- `PuzzleShuffle.GetBestVarietyShuffleOfPuzzle` builds several shuffled
  boards and keeps the best. It comes in two versions:
  - the one in `PiecesArrangement.cs`, with a target count;
  - the one in `PuzzleShuffle.cs`, max only, over `ShuffledPiecesArrangement`.
  `ShuffledPiecesArrangement` repeats most of the code of
  `PiecesArrangement`, with its own private coordinate helpers and no build
  cursor. The model repeats it too, so each class models its own file.
- `Coord1DHelper` converts between a 1-based linear coordinate and a
  (row, column) pair.

The second part is the rows×cols `GameManager`. It keeps the pieces as a
list indexed by position and the index of the empty slot. A tile swaps with
the empty slot when the empty slot is its wrapped up, down, left or right
neighbour. The manager:
- shuffles in memory, recording for each swap the empty slot it filled;
- solves by replaying the recorded slots backwards through `TryMovePiece`;
- checks completion by comparing each piece with its position.

## How the model is built

- **Spec layer.** The `Engine` module describes one arrangement as a `Board`
  value and every operation as a function on it. The `GameLayouts` module
  does the same for the game manager, with a `Layout` value.
- **Classes.** They keep the source's mutable state:
  - `Arrangements.PiecesArrangement` and
    `EarlyShuffle.ShuffledPiecesArrangement` keep the real `(n+1)×(n+1)`
    `array2<int>`, with a ghost row-major copy `Tiles` that the array
    mirrors;
  - `Game.GameManager` keeps the piece list as a `seq<int>`;
  - each in-memory shuffle works on an `array<int>` copy, as the source
    works on `tempPieces`.
- **Class contracts.** Every method states its new state as the spec
  function of the old state. The properties are lemmas about those
  functions, in `EngineFacts`, `LoopFacts`, `ReplayFacts`, `Torus`,
  `Selection`, `GameMoves` and `GameLayouts`.
- **Randomness.** The caller supplies it as draws:
  - `rnd.Next(0, m)` is `draw % m` over a stream of `nat` draws, so every
    answer in [0, m) is reachable;
  - the constructor's `rnd.Next(1, n*n+1)` and `rnd.Next(4, 11)` are
    parameters with range preconditions;
  - `Random.Range(0, rows*cols)` in the game shuffle is a sequence of
    indices.
- **Static N.** The board size N is a static field in the source
  (`TemplateManagerScript.N`). Here it is the parameter or field `n`.
- **C# arithmetic.** `/` and `%` are C#'s truncating operators, modelled
  as `Coord1DHelper.Quot` and `Coord1DHelper.Rem`. The game's wrap
  `((x % c) + c) % c` is built from them and proved equal to Euclidean
  `%` (`GameMoves.WrapIsEuclidean`).

Where the code differs from what a reader might expect, the model follows the code:
- **Ties.** The max selector keeps the LAST variety with the largest count,
  because it compares with `>=`.
- **Board size.** No minimum size is enforced at construction. The model
  asks only N ≥ 1, since N = 0 divides by zero on the first move.
- **Replay order.** `BuildStep` undoes the history oldest move first (see
  Findings).

## Model

| member | source | states |
|---|---|---|
| Coord1DHelper.Convert1DCoordToRowCol | Assets/Scripts/Utils/Coord1DHelper.cs:8-14 | a coordinate in 1..N² gives a row and a column in 1..N |
| Coord1DHelper.RowColToCoord1D | Assets/Scripts/Utils/Coord1DHelper.cs:17-21 | a row and a column in 1..N give a coordinate in 1..N² |
| Coord1DHelper.IsPossibleMoveWithoutWrapping | Assets/Scripts/Utils/Coord1DHelper.cs:24-44 | two cells pass the test only when they are different cells |
| Coord1DHelper.NoWrapByCoord | Assets/Scripts/Utils/Coord1DHelper.cs:24-44 | on the board, two cells pass the test exactly when their coordinates differ by one within the same row, or differ by N |
| Coord1DHelper.TruncatedDivision | Assets/Scripts/Utils/Coord1DHelper.cs:11-12 | `Quot` and `Rem` are C#'s `/` and `%`: quotient times divisor plus remainder gives the dividend, the remainder is smaller than the divisor in size, and both take the sign of the dividend |
| Coord1DHelper.RowColOfCoord | Assets/Scripts/Utils/Coord1DHelper.cs:8-21 | the row and column are `(c-1)/N+1` and `(c-1)%N+1`, and converting them back gives the coordinate |
| Coord1DHelper.CoordOfRowCol | Assets/Scripts/Utils/Coord1DHelper.cs:8-21 | converting a row and column to a coordinate and back gives the row and column |
| Coord1DHelper.RowColInjective | Assets/Scripts/Utils/Coord1DHelper.cs:17-21 | two cells have the same coordinate exactly when they are the same cell |
| Coord1DHelper.ConvertInjective | Assets/Scripts/Utils/Coord1DHelper.cs:8-14 | two coordinates with the same row and column are equal |
| Coord1DHelper.NoWrapSymmetric | Assets/Scripts/Utils/Coord1DHelper.cs:24-44 | a move from a to b needs no wrap exactly when one from b to a needs none |
| Coord1DHelper.NoWrapIrreflexive | Assets/Scripts/Utils/Coord1DHelper.cs:24-44 | no cell is its own neighbour |
| Moves.InvertMove | Assets/Scripts/PiecesArrangement.cs:315-325 | the inverse is a different move on the same axis |
| Moves.InvertInvolution | Assets/Scripts/PiecesArrangement.cs:315-325 | inverting twice gives the move back |
| Moves.ParseName | Assets/Scripts/PiecesArrangement.cs:259-273 | the stored name of a move selects that move in the direction switch |
| Moves.Name | Assets/Scripts/PiecesArrangement.cs:259-273 | each stored name is already in lower case, so the lower-casing switch sees it unchanged |
| Moves.NameInjective | Assets/Scripts/PiecesArrangement.cs:259-273 | the four stored names are pairwise different |
| Moves.Parse | Assets/Scripts/PiecesArrangement.cs:259-273 | a string selects a move only when its lower-cased form is that move's name, and selects none when it lower-cases to no move's name (with `ParseName`, exactly the four names in any letter case select a move) |
| Moves.Lower | Assets/Scripts/PiecesArrangement.cs:259 | lower-casing keeps the length and lower-cases each character |
| Torus.GetEmptyPieceCoordByMove | Assets/Scripts/PiecesArrangement.cs:251-277 | the new empty coordinate is always on the board |
| Torus.Target | Assets/Scripts/PiecesArrangement.cs:251-277 | the wrapped step of a move from a coordinate on the board stays on the board; `TargetRowCol`, `TargetInverse` and `TargetCommute` state which row or column changes and how |
| Torus.TargetRowCol | Assets/Scripts/PiecesArrangement.cs:251-277 | each direction changes only its own row or column, by one, wrapping from 1 to N and from N to 1; an unknown direction changes neither |
| Torus.UnknownDirectionStays | Assets/Scripts/PiecesArrangement.cs:259-273 | a string naming no direction leaves the coordinate where it is |
| Torus.TargetInverse | Assets/Scripts/PiecesArrangement.cs:251-277 | a move followed by its inverse returns the empty tile to its coordinate, wrap included |
| Torus.TargetCommute | Assets/Scripts/PiecesArrangement.cs:251-277 | two moves give the same coordinate in either order |
| Torus.NoWrapOfMove | Assets/Scripts/Utils/Coord1DHelper.cs:24-44 | a move reaches a no-wrap neighbour exactly when it does not cross an edge, except on a 2×2 board, where every move does; on a 1×1 board none does |
| Torus.NoWrapIsOneMove | Assets/Scripts/Utils/Coord1DHelper.cs:24-44 | every no-wrap neighbour is reached by some move that crosses no edge |
| Torus.WalkAppend | Assets/Scripts/PiecesArrangement.cs:84-131 | walking a concatenation of move lists walks the first list, then the second |
| Torus.MoveCommutesWithWalk | Assets/Scripts/PiecesArrangement.cs:84-131 | one move commutes with a whole walk |
| Torus.InversesReturnCoord | Assets/Scripts/PiecesArrangement.cs:134-184 | walking the inverses of a history in any order returns the empty coordinate to its start |
| Engine.Solved | Assets/Scripts/PiecesArrangement.cs:63-69 | the solved grid has N² cells and cell k holds tile k+1 |
| Engine.Misplaced | Assets/Scripts/PiecesArrangement.cs:298-313 | the count is at most N², and it is zero exactly when every cell holds its own number |
| Engine.Swap | Assets/Scripts/PiecesArrangement.cs:111-113 | the two cells exchange their tiles and every other cell keeps its tile |
| Engine.AddToRecent | Assets/Scripts/PiecesArrangement.cs:238-249 | the queue stays within capacity, holds the new coordinate, is unchanged when the coordinate was already queued, and gains nothing else |
| Engine.Allowed | Assets/Scripts/PiecesArrangement.cs:286 | a move survives `RemoveAll` exactly when its target is not in the recent queue |
| Engine.Pick | Assets/Scripts/PiecesArrangement.cs:292-295 | the random index is in range, and every index is the answer to some draw |
| Engine.Initial | Assets/Scripts/PiecesArrangement.cs:55-78 | the constructed board is well formed when the empty number is on the board, no tile is misplaced and the stored count 0 is exact; `EngineFacts.InitialIsSolved` states the whole start state |
| Engine.Recount | Assets/Scripts/PiecesArrangement.cs:298-313 | the stored count becomes the number of misplaced tiles of the grid, which is zero exactly when every cell holds its own number |
| Engine.GetRandomMove | Assets/Scripts/PiecesArrangement.cs:279-296 | when some move's target is not in the recent queue, the chosen move is one of those; `EngineFacts.RandomMoveAvoidsRecent` and `EngineFacts.RandomMoveReachable` state the rest |
| Engine.ShuffleStep | Assets/Scripts/PiecesArrangement.cs:92-119 | one shuffle pass gives a well-formed board; `EngineFacts.ShuffleStepFacts` and `EngineFacts.ShuffleStepKeepsInv` state its history, cells, count and invariant |
| Engine.ShuffleLoop | Assets/Scripts/PiecesArrangement.cs:84-131 | the whole shuffle gives a well-formed board; the `LoopFacts` lemmas state its invariant, constants, history, cells and count |
| Engine.AfterBuildStep | Assets/Scripts/PiecesArrangement.cs:134-184 | a build step as written gives a well-formed board; `ReplayFacts.BuildStepCases` states its three outcomes |
| Engine.AfterBuildStepIntended | Assets/Scripts/PiecesArrangement.cs:133-184 | the corrected build step, which undoes `history[cursor - 1]`, gives a well-formed board; `ReplayFacts.IntendedStepUndo` and `ReplayFacts.IntendedReplayRestores` state what it undoes and restores |
| Engine.AfterMoveEmptyPiece | Assets/Scripts/PiecesArrangement.cs:190-214 | a manual move gives a well-formed board; `EngineFacts.MoveEmptyPieceFacts` states what it changes |
| EngineFacts.InitialIsSolved | Assets/Scripts/PiecesArrangement.cs:55-78 | a new board is solved, has count 0, an empty tile at its own coordinate, an empty history and a queue holding only the empty coordinate, and keeps the invariant |
| EngineFacts.RecentIsSuffix | Assets/Scripts/PiecesArrangement.cs:238-249 | the new queue is what is left of the enqueued queue after dropping its oldest entries |
| EngineFacts.RecentNoDuplicates | Assets/Scripts/PiecesArrangement.cs:238-249 | the queue never holds a coordinate twice |
| EngineFacts.FirstRecent | Assets/Scripts/PiecesArrangement.cs:77 | the constructor's queue is exactly the empty coordinate |
| EngineFacts.QueueFresh | Assets/Scripts/PiecesArrangement.cs:240-243 | a new coordinate is appended at the tail when there is room |
| EngineFacts.SwapKeepsInv | Assets/Scripts/PiecesArrangement.cs:98-119 | moving the empty tile and recounting keeps the tiles a permutation, the empty tile in place and the count exact |
| EngineFacts.SwapPermutes | Assets/Scripts/PiecesArrangement.cs:111-113 | the swap keeps the multiset of tiles |
| EngineFacts.SwapSelf | Assets/Scripts/PiecesArrangement.cs:111-113 | swapping a cell with itself changes nothing |
| EngineFacts.MoveThenInverseRestores | Assets/Scripts/PiecesArrangement.cs:150-174 | a move and then its inverse restore the tiles and the empty coordinate |
| EngineFacts.ShuffleStepKeepsInv | Assets/Scripts/PiecesArrangement.cs:92-119 | one shuffle pass keeps the invariant |
| EngineFacts.ShuffleStepFacts | Assets/Scripts/PiecesArrangement.cs:92-119 | one pass appends its move to the history, makes the cells those of the move, recounts exactly and keeps N, the empty number and the capacity |
| EngineFacts.MoveEmptyPieceFacts | Assets/Scripts/PiecesArrangement.cs:190-214 | a manual move swaps exactly the old and new empty cells and recounts; it leaves the history and the queue alone |
| EngineFacts.UnknownDirectionKeepsCells | Assets/Scripts/PiecesArrangement.cs:190-214 | a manual move by an unknown direction leaves the cells unchanged |
| EngineFacts.MoveEmptyPieceThenInverse | Assets/Scripts/PiecesArrangement.cs:190-214 | a manual move by a name and then by its inverse's name restores the grid |
| EngineFacts.AllowedEverything | Assets/Scripts/PiecesArrangement.cs:286 | when no target is recent, `RemoveAll` removes nothing |
| EngineFacts.RandomMoveAvoidsRecent | Assets/Scripts/PiecesArrangement.cs:279-296 | when some move avoids the recent queue, the random move avoids it |
| EngineFacts.RandomMoveReachable | Assets/Scripts/PiecesArrangement.cs:279-296 | every allowed move, or every move when none is allowed, is chosen by some draw |
| EngineFacts.TileNumbers | Assets/Scripts/PiecesArrangement.cs:63-69 | on a valid board the tiles are exactly the numbers 1..N² |
| LoopFacts.ShuffleLoopInv | Assets/Scripts/PiecesArrangement.cs:84-131 | the whole shuffle keeps the invariant |
| LoopFacts.ShuffleLoopConstants | Assets/Scripts/PiecesArrangement.cs:84-131 | the shuffle keeps N, the empty number and the capacity |
| LoopFacts.ShuffleLoopPrefix | Assets/Scripts/PiecesArrangement.cs:93 | the old history is a prefix of the new one |
| LoopFacts.ShuffleLoopLength | Assets/Scripts/PiecesArrangement.cs:90-127 | a shuffle of k ≥ 1 steps records between 1 and k moves |
| LoopFacts.ShuffleLoopKeeps | Assets/Scripts/PiecesArrangement.cs:84-131 | the shuffle keeps the invariant and the constants, extends the history by 1..k moves, and does nothing for k ≤ 0 |
| LoopFacts.ShuffleLoopTurn | Assets/Scripts/PiecesArrangement.cs:92-127 | a pass that solves the grid ends the loop with a null count; any other pass continues with one step and one draw fewer |
| LoopFacts.ShuffleLoopCells | Assets/Scripts/PiecesArrangement.cs:90-128 | the grid after the shuffle is the start grid walked by the recorded moves |
| LoopFacts.ShuffleLoopCount | Assets/Scripts/PiecesArrangement.cs:118-127 | the count is null exactly when the grid ends solved, and is otherwise exact; the loop stops early only on a solved grid; no earlier pass solved it |
| LoopFacts.WalkAppendBoard | Assets/Scripts/PiecesArrangement.cs:84-131 | walking a concatenation of move lists walks the first list, then the second |
| ReplayFacts.BuildStepCases | Assets/Scripts/PiecesArrangement.cs:134-184 | the three outcomes: nothing happens when the cursor or history is exhausted; the cursor is clamped to the history length when it is out of range; otherwise the move at `Count - cursor` is undone, the grid recounted and the cursor decremented |
| ReplayFacts.BuildStepUndo | Assets/Scripts/PiecesArrangement.cs:142-183 | an in-range step undoes the move at `Count - cursor` and keeps the history |
| ReplayFacts.BuildStepKeepsInv | Assets/Scripts/PiecesArrangement.cs:134-184 | a build step keeps the invariant |
| ReplayFacts.BuildStepsKeepInv | Assets/Scripts/PiecesArrangement.cs:134-184 | any number of build steps keep the invariant |
| ReplayFacts.BuildStepsForward | Assets/Scripts/PiecesArrangement.cs:142-151 | from a full cursor, j build steps undo the first j recorded moves, oldest first |
| ReplayFacts.ShuffleThenBuildReturnsEmpty | Assets/Scripts/PiecesArrangement.cs:84-184 | after a shuffle and a full replay the cursor is 0, the invariant holds and the empty tile is back at its start |
| ReplayFacts.ExampleShuffle | Assets/Scripts/PiecesArrangement.cs:84-131 | on a 3×3 board with empty tile 5 the draws 0, 2 shuffle by Up, Right to 1 3 5 / 4 2 6 / 7 8 9 |
| ReplayFacts.ExampleReplay | Assets/Scripts/PiecesArrangement.cs:134-184 | replaying that shuffled board gives 1 3 6 / 4 5 2 / 7 8 9 |
| ReplayFacts.SourceReplayDoesNotRestore | Assets/Scripts/PiecesArrangement.cs:142-151 | as written, a full replay of that shuffle does not restore the solved grid |
| ReplayFacts.IntendedStepUndo | Assets/Scripts/PiecesArrangement.cs:134-184 | the corrected step undoes the most recent move not yet undone |
| ReplayFacts.IntendedStepsKeepInv | Assets/Scripts/PiecesArrangement.cs:134-184 | corrected build steps keep the invariant |
| ReplayFacts.IntendedReplayRestores | Assets/Scripts/PiecesArrangement.cs:134-184 | with the corrected index, any shuffle followed by a full replay restores the start tiles and empty coordinate |
| Selection.FirstMatch | Assets/Scripts/PiecesArrangement.cs:357-366 | the first index whose count equals the target, or none when no count equals it |
| Selection.LastMax | Assets/Scripts/PuzzleShuffle.cs:224-233 | none exactly when every count is null; otherwise a non-null count that no count exceeds and that every later count falls below (the last maximum) |
| Selection.Selected | Assets/Scripts/PiecesArrangement.cs:354-375 | none exactly when every count is null; otherwise an index with a non-null count |
| Selection.SelectedHitsTarget | Assets/Scripts/PiecesArrangement.cs:362-366 | the first variety that meets the target is the one returned |
| Selection.SelectedIsLastMax | Assets/Scripts/PiecesArrangement.cs:367-371 | when none meets the target, the last variety with the largest count is returned |
| Grid.FillSolved | Assets/Scripts/PiecesArrangement.cs:61-69 | the array holds the solved grid at rows and columns 1..N |
| Grid.CountMisplaced | Assets/Scripts/PiecesArrangement.cs:298-313 | the double loop counts exactly the misplaced tiles of the array |
| Grid.SwapCells | Assets/Scripts/PiecesArrangement.cs:111-113 | the array afterwards holds the swapped tiles |
| Arrangements.PiecesArrangement.constructor | Assets/Scripts/PiecesArrangement.cs:55-78 | the fields are the initial board for the chosen empty number and capacity, and the build cursor is 0 |
| Arrangements.PiecesArrangement.Shuffle | Assets/Scripts/PiecesArrangement.cs:84-131 | the board afterwards is the shuffle loop of the old board, and the cursor is the history length |
| Arrangements.PiecesArrangement.ShuffleTurn | Assets/Scripts/PiecesArrangement.cs:92-127 | one pass, with the null count when it solves the grid |
| Arrangements.PiecesArrangement.ShufflePass | Assets/Scripts/PiecesArrangement.cs:92-119 | one pass before the solved test |
| Arrangements.PiecesArrangement.BuildStep | Assets/Scripts/PiecesArrangement.cs:134-184 | the board and cursor afterwards are the build step of the old ones |
| Arrangements.PiecesArrangement.MoveEmptyPiece | Assets/Scripts/PiecesArrangement.cs:190-214 | the board afterwards is the manual move of the old board; the cursor is unchanged |
| Arrangements.PiecesArrangement.MoveEmptyTo | Assets/Scripts/PiecesArrangement.cs:98-113 | the empty coordinate afterwards is the new one and the cells of the old and new empty coordinates exchange their tiles, in the array and in its mirror |
| Arrangements.PiecesArrangement.Relocate | Assets/Scripts/PiecesArrangement.cs:98-119 | the board afterwards has the empty tile moved to the new coordinate, that coordinate queued and the count recounted, as in a shuffle pass and a build step (lines 159-180) |
| Arrangements.PiecesArrangement.GetPieceInfoByNumber | Assets/Scripts/PiecesArrangement.cs:217-236 | null exactly when no cell holds the number; otherwise the first cell, row by row, holding it, with its coordinate, row and column |
| Arrangements.PiecesArrangement.AddEmptyCoordToRecent | Assets/Scripts/PiecesArrangement.cs:238-249 | the queue afterwards is `AddToRecent` of the old queue |
| Arrangements.PiecesArrangement.GetRandomMove | Assets/Scripts/PiecesArrangement.cs:279-296 | the move is the random move of the board for the draw |
| Arrangements.PiecesArrangement.CalcCountMisplacedPieces | Assets/Scripts/PiecesArrangement.cs:298-313 | the count afterwards is the exact misplaced count of the grid |
| Arrangements.GetBestVarietyShuffleOfPuzzle | Assets/Scripts/PiecesArrangement.cs:338-376 | null exactly when every trial came out solved; otherwise a valid board equal to the selected trial |
| Arrangements.BuildVarieties | Assets/Scripts/PiecesArrangement.cs:344-352 | one valid board per variety, each the trial of its own choices and draws |
| Arrangements.SelectVariety | Assets/Scripts/PiecesArrangement.cs:354-375 | the variety at the selected index, or null when none is selected |
| Arrangements.NewShuffled | Assets/Scripts/PiecesArrangement.cs:348-349 | a fresh valid board equal to one trial |
| EarlyShuffle.CoordRoundTrip | Assets/Scripts/PuzzleShuffle.cs:115-125 | the private conversion of a coordinate gives a cell on the board that converts back to the coordinate |
| EarlyShuffle.RowColRoundTrip | Assets/Scripts/PuzzleShuffle.cs:115-125 | converting a cell to a coordinate and back gives the cell |
| EarlyShuffle.Coord1DToRowCol | Assets/Scripts/PuzzleShuffle.cs:115-120 | the private conversion agrees with the shared `Coord1DHelper.Convert1DCoordToRowCol` on every coordinate |
| EarlyShuffle.RowColToCoord1D | Assets/Scripts/PuzzleShuffle.cs:122-125 | the private conversion agrees with the shared `Coord1DHelper.RowColToCoord1D` |
| EarlyShuffle.GetEmptyPieceCoordByMove | Assets/Scripts/PuzzleShuffle.cs:140-166 | the private move computation gives the same coordinate as the engine's |
| EarlyShuffle.WrapsAtEdges | Assets/Scripts/PuzzleShuffle.cs:140-166 | each move changes only its own row or column, wrapping at the edges |
| EarlyShuffle.ShuffledPiecesArrangement.constructor | Assets/Scripts/PuzzleShuffle.cs:43-66 | the fields are the initial board for the chosen empty number and capacity |
| EarlyShuffle.ShuffledPiecesArrangement.Shuffle | Assets/Scripts/PuzzleShuffle.cs:72-113 | the board afterwards is the shuffle loop of the old board |
| EarlyShuffle.ShuffledPiecesArrangement.ShuffleTurn | Assets/Scripts/PuzzleShuffle.cs:76-111 | one pass, with the null count when it solves the grid |
| EarlyShuffle.ShuffledPiecesArrangement.ShufflePass | Assets/Scripts/PuzzleShuffle.cs:76-103 | one pass before the solved test |
| EarlyShuffle.ShuffledPiecesArrangement.SwapWithEmpty | Assets/Scripts/PuzzleShuffle.cs:82-97 | the array afterwards holds the grid with the empty tile moved to the new coordinate |
| EarlyShuffle.ShuffledPiecesArrangement.Relocate | Assets/Scripts/PuzzleShuffle.cs:82-103 | the board afterwards has the empty tile moved to the new coordinate, that coordinate queued and the count recounted |
| EarlyShuffle.ShuffledPiecesArrangement.AddEmptyCoordToRecent | Assets/Scripts/PuzzleShuffle.cs:127-138 | the queue afterwards is `AddToRecent` of the old queue |
| EarlyShuffle.ShuffledPiecesArrangement.GetRandomMove | Assets/Scripts/PuzzleShuffle.cs:168-185 | the move is the random move of the board for the draw |
| EarlyShuffle.ShuffledPiecesArrangement.CalcCountMisplacedPieces | Assets/Scripts/PuzzleShuffle.cs:187-202 | the count afterwards is the exact misplaced count of the grid |
| EarlyShuffle.GetBestVarietyShuffleOfPuzzle | Assets/Scripts/PuzzleShuffle.cs:212-236 | null exactly when every trial came out solved; otherwise a valid board equal to the last trial with the largest count |
| EarlyShuffle.BuildVarieties | Assets/Scripts/PuzzleShuffle.cs:214-221 | one valid board per variety, each the trial of its own choices and draws |
| EarlyShuffle.NewShuffled | Assets/Scripts/PuzzleShuffle.cs:218-219 | a fresh valid board equal to one trial |
| EarlyShuffle.SelectMax | Assets/Scripts/PuzzleShuffle.cs:224-235 | the variety at the last maximum of the counts, or null when every count is null |
| GameMoves.Wrap | Assets/Scripts/GameManager.cs:353 | the wrapped index is in [0, c) for every index, negative ones included |
| GameMoves.WrapIsEuclidean | Assets/Scripts/GameManager.cs:159 | the double truncating remainder equals the mathematical modulus |
| GameMoves.SwapTarget | Assets/Scripts/GameManager.cs:350-368 | an offset has a target exactly when it is ±cols or ±1; any other offset is refused |
| GameMoves.Hit | Assets/Scripts/GameManager.cs:350-370 | the tile swaps with the empty slot only by an offset of ±cols or ±1 whose target is that slot |
| GameMoves.TargetKeepsLine | Assets/Scripts/GameManager.cs:350-364 | a move of ±cols keeps the column and steps the row by one, wrapping over the rows; a move of ±1 keeps the row and steps the column by one, wrapping within the row |
| GameMoves.TargetInRange | Assets/Scripts/GameManager.cs:350-364 | for a tile on the board, every computed target is a position on the board |
| GameMoves.TargetSymmetric | Assets/Scripts/GameManager.cs:350-364 | if offset o takes i to e, then offset -o takes e back to i |
| GameMoves.WrapBack | Assets/Scripts/GameManager.cs:159 | wrapping by an offset and then by its negation returns the start index |
| GameMoves.ColumnWrapBack | Assets/Scripts/GameManager.cs:358-363 | the in-row wrap by ±1 and then by its negation returns the start index |
| GameMoves.CanReach | Assets/Scripts/GameManager.cs:474-480 | a tile can move only when some offset takes it to the empty slot, which by `Hit` is ±cols or ±1; `CanReachSymmetric` shows the relation is symmetric |
| GameMoves.CanReachSymmetric | Assets/Scripts/GameManager.cs:474-480 | if a tile can swap into the empty slot, the tile in that slot could swap back |
| GameLayouts.Identity | Assets/Scripts/GameManager.cs:66-87 | the created pieces are in order: position i holds piece i |
| GameLayouts.Slide | Assets/Scripts/GameManager.cs:474-480 | a move keeps the number of pieces and an empty slot on the board |
| GameLayouts.SlideBack | Assets/Scripts/GameManager.cs:474-480 | moving a tile and then moving the tile from its old slot restores the layout |
| GameLayouts.Replay | Assets/Scripts/GameManager.cs:406-423 | the replay keeps the number of pieces and an empty slot on the board |
| GameLayouts.ReplayStep | Assets/Scripts/GameManager.cs:409-420 | replaying a prefix one longer first moves the newest recorded slot |
| GameLayouts.ShuffleLoop | Assets/Scripts/GameManager.cs:242-297 | the shuffle keeps the size, records only board positions, and makes at most the target number of swaps |
| GameLayouts.ShufflePermutes | Assets/Scripts/GameManager.cs:250-297 | the shuffled list is a permutation of the original |
| GameLayouts.RecordedIsEmptyBefore | Assets/Scripts/GameManager.cs:267-289 | each recorded slot is the empty slot before its swap: the first is the start slot, and each later one is the tile moved by the swap before |
| GameLayouts.ShuffleAvoidsLastTwo | Assets/Scripts/GameManager.cs:246-261 | a moved tile is never either of the two tiles moved just before it |
| GameLayouts.ReplayUndoesShuffle | Assets/Scripts/GameManager.cs:242-297 | replaying the recorded slots backwards restores the layout before the shuffle |
| Game.AtLeastTwo | Assets/Scripts/GameManager.cs:124-126 | the clamp gives at least 2, and keeps any value of at least 2 |
| Game.Validated | Assets/Scripts/GameManager.cs:483-492 | non-positive values become the default, 1 becomes 2, and other values are kept |
| Game.GameManager.constructor | Assets/Scripts/GameManager.cs:109-126 | the dimensions are clamped, the pieces are in order and the empty slot is the chosen one |
| Game.GameManager.OnValidate | Assets/Scripts/GameManager.cs:483-492 | both dimensions become their validated values, with defaults 16 and 9 |
| Game.GameManager.SwapIfValidInstantMemory | Assets/Scripts/GameManager.cs:344-380 | it swaps exactly when the target is the empty slot: then the two entries exchange, `i` becomes empty and the target is returned; otherwise nothing changes and -1 is returned |
| Game.GameManager.TryAllInMemory | Assets/Scripts/GameManager.cs:263-289 | the four tries swap exactly when the tile can reach the empty slot, recording the filled slot |
| Game.GameManager.Shuffle | Assets/Scripts/GameManager.cs:242-338 | the pieces, the empty slot and the recorded moves afterwards are the shuffle loop of the old layout |
| Game.GameManager.ShuffleInMemory | Assets/Scripts/GameManager.cs:245-297 | the loop on the copied array computes the shuffle loop |
| Game.GameManager.SwapIfValid | Assets/Scripts/GameManager.cs:151-183 | it swaps exactly when the target is the empty slot; the logical state is then updated as `AnimateSwap` ends (lines 220-221) |
| Game.GameManager.TryMovePiece | Assets/Scripts/GameManager.cs:474-480 | it moves exactly when some direction reaches the empty slot, and the layout afterwards is that move |
| Game.GameManager.AutoSolve | Assets/Scripts/GameManager.cs:406-423 | the layout afterwards is the backward replay of the recorded moves |
| Game.GameManager.ShuffleAndSolve | Assets/Scripts/GameManager.cs:385-401 | shuffling and then auto-solving leaves the layout exactly as it was |
| Game.GameManager.CheckCompletion | Assets/Scripts/GameManager.cs:227-237 | complete exactly when every position holds the piece of its own index |

## Left out

- Rendering, meshes, UV coordinates, positions, scales, activation of
  tiles and `RevealEmptyTile` are presentation only. They are not
  modelled.
- Animation, coroutines and timing are not modelled: `isAnimating`,
  `WaitForSeconds`, `moveDuration` and `solveTimeInSeconds`.
  `AnimateSwap` is modelled only by the swap it makes at its end.
- Game.GameManager.Shuffle: the target swap count is a parameter. The
  source computes it as `(int)(solveTimeInSeconds / moveDuration)`, a
  floating-point value.
- Game.GameManager.Shuffle: the loop is bounded by the supplied draws. The
  source loops until it has made the target number of swaps, which an
  arbitrary answer stream need not allow. So the model proves at most the target number of swaps,
  not exactly that number.
- The `colCheck` argument of `SwapIfValid` and `SwapIfValidInstantMemory`
  is unused in the source. It is dropped.
- Random distributions are not modelled. Each random answer is a supplied
  draw, so the properties hold for every sequence of answers.
- 32-bit overflow of `int` is not modelled. The boards in use are far too
  small for it.
- Board sizes below 1 are excluded by precondition. The source divides by
  zero for N = 0.
- `ToLowerInvariant` is modelled on ASCII letters only.
- Arrangements.PiecesArrangement.MoveEmptyPiece: a Dafny `string` cannot be
  null, so the `NullReferenceException` that a null direction raises at
  `ToLowerInvariant` (PiecesArrangement.cs:259) is not modelled.
- Moves.InvertMove: the history holds only generated moves, so the model
  cannot reach the source's `ArgumentException` for an unknown string.
- `List.RemoveAll` with its predicate is modelled as `Engine.Allowed`, a
  filter that keeps order.
- Arrangements.PiecesArrangement.GetPieceInfoByNumber: the contract is
  stated against the tiles on the board. The range 1..N² follows from
  `EngineFacts.TileNumbers` on a board that keeps the invariant.
- Arrangements.PiecesArrangement.Shuffle:
  - `Valid()` holds only the shape of the board and the array mirror;
  - the full invariant (tiles a permutation, empty tile in place, exact
    count, bounded queue) is proved on the spec functions, in
    `LoopFacts.ShuffleLoopKeeps` and `ReplayFacts.BuildStepKeepsInv`.
- Logging (`Debug.Log`) and the `boardId` argument are not modelled.

## Findings

| source | as written | input that shows it | evidently intended | confidence | as-written member | corrected member |
|---|---|---|---|---|---|---|
| Assets/Scripts/PiecesArrangement.cs:142-151 | `BuildStep` undoes `EmptyPieceMoveHistory[Count - currentBuildStep]`. With the cursor starting at `Count`, that undoes the OLDEST move first. | N = 3, empty tile 5, shuffle Up then Right (draws 0, 2): the grid is 1 3 5 / 4 2 6 / 7 8 9. Two build steps give 1 3 6 / 4 5 2 / 7 8 9, which is not solved. | The method is commented as one step of assembling the puzzle (line 133), done by undoing a recorded move with its inverse (line 153). Moves undone by their inverses assemble the puzzle only newest first, so the step should undo `history[currentBuildStep - 1]`. A full replay then restores the start grid. | not executed | ReplayFacts.SourceReplayDoesNotRestore | ReplayFacts.IntendedReplayRestores |
