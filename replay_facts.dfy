/**
 * The step-by-step build: what one `BuildStep` does, how far a run of them
 * replays the history, the replay order the source uses and the newest-first
 * order that undoing moves by their inverses needs.
 */
module ReplayFacts {
  import opened Wrappers
  import opened Moves
  import opened Torus
  import opened Engine
  import opened EngineFacts
  import opened LoopFacts

  // ---------------------------------------------------------------------------
  // One build step, as the source has it

  /**
   * `BuildStep` does nothing once the cursor is spent or the history is
   * empty, pulls a cursor beyond the history back to its length, and
   * otherwise undoes the move `cursor` places from the END of the history
   * (index `|history| - cursor`), recounting and keeping the history.
   */
  lemma {:induction false} BuildStepCases(b: Board, cursor: int)
    requires WellFormed(b)
    ensures var (r, c) := AfterBuildStep(b, cursor);
      var h := b.history;
      && r.history == h && (r.n, r.emptyNumber, r.capacity) == (b.n, b.emptyNumber, b.capacity)
      && (cursor <= 0 || h == [] ==> r == b && c == cursor)
      && (cursor > |h| > 0 ==> r == b && c == |h|)
      && (1 <= cursor <= |h| ==>
            c == cursor - 1 && SameCells(r, Step(b, InvertMove(h[|h| - cursor])))
            && r.count == Some(Misplaced(r.tiles)))
  {
    if 1 <= cursor <= |b.history| {
      BuildStepUndo(b, cursor);
    }
  }

  lemma {:induction false} BuildStepUndo(b: Board, cursor: int)
    requires WellFormed(b) && 1 <= cursor <= |b.history|
    ensures var (r, c) := AfterBuildStep(b, cursor);
      && c == cursor - 1
      && r.history == b.history && (r.n, r.emptyNumber, r.capacity) == (b.n, b.emptyNumber, b.capacity)
      && SameCells(r, Step(b, InvertMove(b.history[|b.history| - cursor])))
      && r.count == Some(Misplaced(r.tiles))
  {
    var t := Target(b.n, b.emptyCoord, InvertMove(b.history[|b.history| - cursor]));
    var q := AddToRecent(b.recent, b.capacity, t);
    assert AfterBuildStep(b, cursor) == (Recount(SwapEmptyTo(b, t).(recent := q)), cursor - 1);
  }

  /** The two cases in which `BuildStep` leaves the board alone. */
  lemma IdleShape(b: Board, cursor: int)
    requires WellFormed(b) && !(1 <= cursor <= |b.history|)
    ensures AfterBuildStep(b, cursor) == (b, if cursor <= 0 || |b.history| == 0 then cursor else |b.history|)
  {
  }

  /** The board an undoing `BuildStep` leaves, written out. */
  lemma UndoShape(b: Board, cursor: int, t: int)
    requires WellFormed(b) && 1 <= cursor <= |b.history|
    requires t == Target(b.n, b.emptyCoord, InvertMove(b.history[|b.history| - cursor]))
    ensures var moved := SwapEmptyTo(b, t);
      AfterBuildStep(b, cursor) == (Recount(moved.(recent := AddToRecent(moved.recent, moved.capacity, t))), cursor - 1)
  {
  }

  /** `BuildStep` keeps the invariant. */
  lemma {:induction false} BuildStepKeepsInv(b: Board, cursor: int)
    requires Inv(b)
    ensures Inv(AfterBuildStep(b, cursor).0)
  {
    if 1 <= cursor <= |b.history| {
      UndoKeepsInv(b, cursor);
    } else {
      NoUndoKeepsInv(b, cursor);
    }
  }

  lemma {:induction false} UndoKeepsInv(b: Board, cursor: int)
    requires Inv(b) && 1 <= cursor <= |b.history|
    ensures Inv(AfterBuildStep(b, cursor).0)
  {
    var t := Target(b.n, b.emptyCoord, InvertMove(b.history[|b.history| - cursor]));
    var q := AddToRecent(b.recent, b.capacity, t);
    RecentNoDuplicates(b.recent, b.capacity, t);
    SwapKeepsInv(b, t, q);
    assert AfterBuildStep(b, cursor).0 == Recount(SwapEmptyTo(b, t).(recent := q));
  }

  lemma {:induction false} NoUndoKeepsInv(b: Board, cursor: int)
    requires Inv(b) && !(1 <= cursor <= |b.history|)
    ensures AfterBuildStep(b, cursor).0 == b
  {
  }

  /** Any run of build steps keeps the invariant. */
  lemma {:induction false} BuildStepsKeepInv(b: Board, cursor: int, k: nat)
    requires Inv(b)
    ensures Inv(BuildSteps(b, cursor, k).0)
  {
    if k > 0 {
      BuildStepsKeepInv(b, cursor, k - 1);
      var (p, c) := BuildSteps(b, cursor, k - 1);
      BuildStepKeepsInv(p, c);
    }
  }

  /** Any `j` build steps from the end of the history replay the first `j` inverses. */
  lemma {:induction false} BuildStepsForward(b: Board, j: nat)
    requires WellFormed(b) && j <= |b.history|
    ensures ForwardDone(b, j)
  {
    if j == 0 {
      ForwardNone(b);
    } else {
      BuildStepsForward(b, j - 1);
      ForwardMore(b, j);
    }
  }

  lemma {:induction false} ForwardNone(b: Board)
    requires WellFormed(b)
    ensures ForwardDone(b, 0)
  {
    assert b.history[..0] == [];
  }

  lemma {:induction false} ForwardMore(b: Board, j: nat)
    requires WellFormed(b) && 1 <= j <= |b.history|
    requires ForwardDone(b, j - 1)
    ensures ForwardDone(b, j)
  {
    var pc := BuildSteps(b, |b.history|, j - 1);
    assert BuildSteps(b, |b.history|, j) == AfterBuildStep(pc.0, pc.1);
    ForwardNext(b, pc.0, j);
  }

  /** The step of `BuildStepsForward`. */
  lemma {:induction false} ForwardNext(b: Board, p: Board, j: int)
    requires WellFormed(b) && WellFormed(p) && 1 <= j <= |b.history| && p.history == b.history
    requires SameCells(p, Walk(b, Inverses(b.history[..j - 1])))
    ensures var (r, c) := AfterBuildStep(p, |b.history| - (j - 1));
      && c == |b.history| - j
      && r.history == b.history && (r.n, r.emptyNumber, r.capacity) == (p.n, p.emptyNumber, p.capacity)
      && SameCells(r, Walk(b, Inverses(b.history[..j])))
  {
    ForwardUndo(p, j);
    ForwardWalk(b, p, j);
  }

  /** The build step with the cursor at `|h| - (j - 1)` undoes move `j - 1`. */
  lemma {:induction false} ForwardUndo(p: Board, j: int)
    requires WellFormed(p) && 1 <= j <= |p.history|
    ensures var (r, c) := AfterBuildStep(p, |p.history| - (j - 1));
      && c == |p.history| - j
      && r.history == p.history && (r.n, r.emptyNumber, r.capacity) == (p.n, p.emptyNumber, p.capacity)
      && SameCells(r, Step(p, InvertMove(p.history[j - 1])))
  {
    BuildStepUndo(p, |p.history| - (j - 1));
  }

  /** Undoing move `j - 1` after the inverses of the first `j - 1` gives the inverses of the first `j`. */
  lemma {:induction false} ForwardWalk(b: Board, p: Board, j: int)
    requires WellFormed(b) && WellFormed(p) && 1 <= j <= |b.history|
    requires SameCells(p, Walk(b, Inverses(b.history[..j - 1])))
    ensures SameCells(Step(p, InvertMove(b.history[j - 1])), Walk(b, Inverses(b.history[..j])))
  {
    var h := b.history;
    var xs := Inverses(h[..j - 1]);
    var m := InvertMove(h[j - 1]);
    WalkSnoc(b, p, xs, m);
    InversesSnoc(h, j);
  }

  /**
   * A full replay after a shuffle from a board with no history spends the
   * cursor and brings the empty tile back to its start: the moves of a
   * torus commute, so undoing them in the recorded order still cancels
   * their sum.
   */
  lemma {:induction false} ShuffleThenBuildReturnsEmpty(b: Board, steps: int, draws: seq<nat>)
    requires Inv(b) && b.history == [] && |draws| >= steps
    ensures var s := ShuffleLoop(b, steps, draws);
      var (r, c) := BuildSteps(s, |s.history|, |s.history|);
      c == 0 && Inv(r) && r.emptyCoord == b.emptyCoord
  {
    ShuffleLoopKeeps(b, steps, draws);
    ShuffleLoopCells(b, steps, draws);
    var s := ShuffleLoop(b, steps, draws);
    BuildStepsForward(s, |s.history|);
    BuildStepsKeepInv(s, |s.history|, |s.history|);
    assert s.history[..|s.history|] == s.history;
    assert s.history[|b.history|..] == s.history;
    InversesReturnCoord(b.n, b.emptyCoord, s.history);
  }

  // ---------------------------------------------------------------------------
  // Finding: the replay order
  //
  // The `Example*` lemmas below each check one step of a single trace, which
  // `SourceReplayDoesNotRestore` chains together:
  //   start    3 x 3, empty tile 5 at coordinate 5, capacity 4; recent [5]
  //   pass 1   draw 0 picks Up: empty 5 -> 2, grid 1 5 3 / 4 2 6 / 7 8 9, recent [5, 2]
  //   pass 2   allowed [Up, Left, Right], draw 2 picks Right: empty 2 -> 3,
  //            grid 1 3 5 / 4 2 6 / 7 8 9; history [Up, Right]
  //   build 1  cursor 2 undoes history[0] = Up by Down: empty 3 -> 6,
  //            grid 1 3 6 / 4 2 5 / 7 8 9
  //   build 2  cursor 1 undoes history[1] = Right by Left: empty 6 -> 5,
  //            grid 1 3 6 / 4 5 2 / 7 8 9, which is not the start grid

  /** The board the example starts from: 3 x 3, the empty tile 5 on its own cell, capacity 4. */
  lemma {:induction false} ExampleStart(n: int, emptyNumber: int, capacity: int)
    requires n == 3 && emptyNumber == 5 && capacity == 4
    ensures var b0 := Initial(n, emptyNumber, capacity);
      && b0.n == 3 && b0.tiles == [1, 2, 3, 4, 5, 6, 7, 8, 9] && b0.emptyCoord == 5
      && b0.history == [] && b0.recent == [5] && b0.capacity == 4
  {
    FirstRecent(capacity, emptyNumber);
    SolvedThree(n);
  }

  lemma SolvedThree(n: int)
    requires n == 3
    ensures Solved(n) == [1, 2, 3, 4, 5, 6, 7, 8, 9]
  {
    var s := Solved(n);
    assert s[0] == 1 && s[1] == 2 && s[2] == 3 && s[3] == 4 && s[4] == 5;
    assert s[5] == 6 && s[6] == 7 && s[7] == 8 && s[8] == 9;
  }

  lemma ExampleSwapOne()
    ensures Swap([1, 2, 3, 4, 5, 6, 7, 8, 9], 4, 1) == [1, 5, 3, 4, 2, 6, 7, 8, 9]
  {
  }

  lemma ExampleSwapTwo()
    ensures Swap([1, 5, 3, 4, 2, 6, 7, 8, 9], 1, 2) == [1, 3, 5, 4, 2, 6, 7, 8, 9]
  {
  }

  /** The first pass of the example shuffle: the allowed moves are all four and draw 0 picks Up. */
  lemma {:induction false} ExamplePassOne(b0: Board)
    requires b0.n == 3 && b0.tiles == [1, 2, 3, 4, 5, 6, 7, 8, 9] && b0.emptyCoord == 5
    requires b0.history == [] && b0.recent == [5] && b0.capacity == 4
    ensures var b1 := ShuffleStep(b0, GetRandomMove(b0, 0));
      && b1.n == 3 && b1.history == [Up] && b1.tiles == [1, 5, 3, 4, 2, 6, 7, 8, 9]
      && b1.emptyCoord == 2 && b1.recent == [5, 2] && b1.capacity == 4 && b1.count != Some(0)
  {
    ExampleDrawOne(b0);
    ExampleMoveOne(b0);
  }

  lemma {:induction false} ExampleDrawOne(b0: Board)
    requires b0.n == 3 && b0.emptyCoord == 5 && b0.recent == [5] && |b0.tiles| == 9 && b0.capacity >= 0
    ensures GetRandomMove(b0, 0) == Up
  {
    ExampleAllowedOne();
  }

  lemma ExampleAllowedOne()
    ensures Allowed(3, 5, [5], AllMoves) == AllMoves
  {
    ExampleTargetsOne();
    AllowedEverything(3, 5, [5], AllMoves);
  }

  lemma ExampleTargetsOne()
    ensures Target(3, 5, Up) == 2 && Target(3, 5, Down) == 8
    ensures Target(3, 5, Left) == 4 && Target(3, 5, Right) == 6
  {
  }

  lemma {:induction false} ExampleMoveOne(b0: Board)
    requires b0.n == 3 && b0.tiles == [1, 2, 3, 4, 5, 6, 7, 8, 9] && b0.emptyCoord == 5
    requires b0.history == [] && b0.recent == [5] && b0.capacity == 4
    ensures var b1 := ShuffleStep(b0, Up);
      && b1.n == 3 && b1.history == [Up] && b1.tiles == [1, 5, 3, 4, 2, 6, 7, 8, 9]
      && b1.emptyCoord == 2 && b1.recent == [5, 2] && b1.capacity == 4 && b1.count != Some(0)
  {
    assert Target(3, 5, Up) == 2;
    ExampleSwapOne();
    assert 2 !in [5];
    QueueFresh([5], 4, 2);
    var b1 := ShuffleStep(b0, Up);
    assert b1.tiles[1] != 2;
  }

  /** The second pass: Down would revisit cell 5, so the allowed moves are Up, Left, Right and draw 2 picks Right. */
  lemma {:induction false} ExamplePassTwo(b1: Board)
    requires b1.n == 3 && b1.history == [Up] && b1.tiles == [1, 5, 3, 4, 2, 6, 7, 8, 9]
    requires b1.emptyCoord == 2 && b1.recent == [5, 2] && b1.capacity == 4
    ensures var b2 := ShuffleStep(b1, GetRandomMove(b1, 2));
      && b2.n == 3 && b2.history == [Up, Right] && b2.tiles == [1, 3, 5, 4, 2, 6, 7, 8, 9]
      && b2.emptyCoord == 3 && b2.capacity == 4 && b2.count != Some(0)
  {
    ExampleDrawTwo(b1);
    ExampleMoveTwo(b1);
  }

  lemma {:induction false} ExampleDrawTwo(b1: Board)
    requires b1.n == 3 && b1.emptyCoord == 2 && b1.recent == [5, 2] && |b1.tiles| == 9 && b1.capacity >= 0
    ensures GetRandomMove(b1, 2) == Right
  {
    ExampleAllowedTwo();
  }

  lemma {:induction false} ExampleAllowedTwo()
    ensures Allowed(3, 2, [5, 2], AllMoves) == [Up, Left, Right]
  {
    ExampleTargetsTwo();
    assert AllMoves[1..] == [Down, Left, Right] && [Down, Left, Right][1..] == [Left, Right];
    assert [Left, Right][1..] == [Right] && [Right][1..] == [];
    assert Allowed(3, 2, [5, 2], [Right]) == [Right];
    assert Allowed(3, 2, [5, 2], [Left, Right]) == [Left, Right];
    assert Allowed(3, 2, [5, 2], [Down, Left, Right]) == [Left, Right];
    assert Target(3, 2, Up) !in [5, 2];
    assert [Up] + [Left, Right] == [Up] + Allowed(3, 2, [5, 2], AllMoves[1..]);
  }

  lemma ExampleTargetsTwo()
    ensures Target(3, 2, Up) == 8 && Target(3, 2, Down) == 5
    ensures Target(3, 2, Left) == 1 && Target(3, 2, Right) == 3
  {
  }

  lemma {:induction false} ExampleMoveTwo(b1: Board)
    requires b1.n == 3 && b1.history == [Up] && b1.tiles == [1, 5, 3, 4, 2, 6, 7, 8, 9]
    requires b1.emptyCoord == 2 && b1.capacity == 4
    ensures var b2 := ShuffleStep(b1, Right);
      && b2.n == 3 && b2.history == [Up, Right] && b2.tiles == [1, 3, 5, 4, 2, 6, 7, 8, 9]
      && b2.emptyCoord == 3 && b2.capacity == 4 && b2.count != Some(0)
  {
    assert Target(3, 2, Right) == 3;
    ExampleSwapTwo();
    var b2 := ShuffleStep(b1, Right);
    assert b2.tiles[1] != 2;
  }

  /** The example shuffle: two passes, neither leaving the grid solved. */
  lemma {:induction false} ExampleShuffle(b0: Board)
    requires b0.n == 3 && b0.tiles == [1, 2, 3, 4, 5, 6, 7, 8, 9] && b0.emptyCoord == 5
    requires b0.history == [] && b0.recent == [5] && b0.capacity == 4
    ensures var s := ShuffleLoop(b0, 2, [0, 2]);
      && s.n == 3 && s.history == [Up, Right] && s.tiles == [1, 3, 5, 4, 2, 6, 7, 8, 9]
      && s.emptyCoord == 3 && s.capacity == 4 && s.count != Some(0)
  {
    ExamplePassOne(b0);
    var b1 := ShuffleStep(b0, GetRandomMove(b0, 0));
    ExamplePassTwo(b1);
    var b2 := ShuffleStep(b1, GetRandomMove(b1, 2));
    assert [0, 2][1..] == [2];
    assert ShuffleLoop(b1, 1, [2]) == b2;
    assert ShuffleLoop(b0, 2, [0, 2]) == ShuffleLoop(b1, 1, [2]);
  }

  /** The two build steps after the example shuffle, as the source has them. */
  lemma {:induction false} ExampleReplay(s: Board)
    requires s.n == 3 && s.history == [Up, Right] && s.tiles == [1, 3, 5, 4, 2, 6, 7, 8, 9]
    requires s.emptyCoord == 3 && s.capacity == 4
    ensures var (r, c) := BuildSteps(s, 2, 2);
      c == 0 && r.tiles == [1, 3, 6, 4, 5, 2, 7, 8, 9] && r.emptyCoord == 5
  {
    ExampleUndoOne(s);
    var pc := AfterBuildStep(s, 2);
    ExampleUndoTwo(pc.0);
    assert BuildSteps(s, 2, 1) == pc;
  }

  /** The first build step undoes index 0, Up, by moving Down from cell 3 to cell 6. */
  lemma {:induction false} ExampleUndoOne(s: Board)
    requires s.n == 3 && s.history == [Up, Right] && s.tiles == [1, 3, 5, 4, 2, 6, 7, 8, 9]
    requires s.emptyCoord == 3 && s.capacity == 4
    ensures var (p, c) := AfterBuildStep(s, 2);
      && c == 1 && p.n == 3 && p.history == [Up, Right] && p.tiles == [1, 3, 6, 4, 2, 5, 7, 8, 9]
      && p.emptyCoord == 6 && p.capacity == 4
  {
    assert Target(3, 3, Down) == 6;
    ExampleSwapThree();
  }

  /** The second build step undoes index 1, Right, by moving Left from cell 6 to cell 5. */
  lemma {:induction false} ExampleUndoTwo(p: Board)
    requires p.n == 3 && p.history == [Up, Right] && p.tiles == [1, 3, 6, 4, 2, 5, 7, 8, 9]
    requires p.emptyCoord == 6 && p.capacity == 4
    ensures var (r, c) := AfterBuildStep(p, 1);
      c == 0 && r.tiles == [1, 3, 6, 4, 5, 2, 7, 8, 9] && r.emptyCoord == 5
  {
    assert Target(3, 6, Left) == 5;
    ExampleSwapFour();
  }

  lemma ExampleSwapThree()
    ensures Swap([1, 3, 5, 4, 2, 6, 7, 8, 9], 2, 5) == [1, 3, 6, 4, 2, 5, 7, 8, 9]
  {
  }

  lemma ExampleSwapFour()
    ensures Swap([1, 3, 6, 4, 2, 5, 7, 8, 9], 5, 4) == [1, 3, 6, 4, 5, 2, 7, 8, 9]
  {
  }

  /**
   * A shuffle of the solved 3 x 3 board with the empty tile 5 (the board the
   * constructor builds for n = 3, empty tile 5 and capacity 4, by
   * `ExampleStart`) whose draws pick Up and then Right, followed by two build
   * steps as the source has them: the empty tile is back on cell 5 but tiles
   * 2 and 6 are not in place,
   * so the replay does not restore the solved grid.
   */
  lemma {:induction false} SourceReplayDoesNotRestore(b0: Board)
    requires b0.n == 3 && b0.tiles == [1, 2, 3, 4, 5, 6, 7, 8, 9] && b0.emptyCoord == 5
    requires b0.history == [] && b0.recent == [5] && b0.capacity == 4
    ensures var s := ShuffleLoop(b0, 2, [0, 2]);
      var (r, c) := BuildSteps(s, |s.history|, |s.history|);
      && s.history == [Up, Right]
      && c == 0
      && r.emptyCoord == b0.emptyCoord
      && r.tiles == [1, 3, 6, 4, 5, 2, 7, 8, 9]
      && r.tiles != b0.tiles
  {
    ExampleShuffle(b0);
    ExampleReplayEnd(ShuffleLoop(b0, 2, [0, 2]));
  }

  /** The full replay of the example shuffle ends on a grid that is not the solved one. */
  lemma {:induction false} ExampleReplayEnd(s: Board)
    requires s.n == 3 && s.history == [Up, Right] && s.tiles == [1, 3, 5, 4, 2, 6, 7, 8, 9]
    requires s.emptyCoord == 3 && s.capacity == 4
    ensures var (r, c) := BuildSteps(s, |s.history|, |s.history|);
      && c == 0 && r.emptyCoord == 5
      && r.tiles == [1, 3, 6, 4, 5, 2, 7, 8, 9] && r.tiles != [1, 2, 3, 4, 5, 6, 7, 8, 9]
  {
    ExampleReplay(s);
    assert [1, 3, 6, 4, 5, 2, 7, 8, 9][1] != [1, 2, 3, 4, 5, 6, 7, 8, 9][1];
  }

  // ---------------------------------------------------------------------------
  // The intended build step

  /** One intended build step undoes the move just before the cursor. */
  lemma {:induction false} IntendedStepUndo(b: Board, cursor: int)
    requires WellFormed(b) && 1 <= cursor <= |b.history|
    ensures var (r, c) := AfterBuildStepIntended(b, cursor);
      && c == cursor - 1
      && r.history == b.history && (r.n, r.emptyNumber, r.capacity) == (b.n, b.emptyNumber, b.capacity)
      && SameCells(r, Step(b, InvertMove(b.history[cursor - 1])))
      && r.count == Some(Misplaced(r.tiles))
  {
    var t := Target(b.n, b.emptyCoord, InvertMove(b.history[cursor - 1]));
    var q := AddToRecent(b.recent, b.capacity, t);
    assert AfterBuildStepIntended(b, cursor) == (Recount(SwapEmptyTo(b, t).(recent := q)), cursor - 1);
  }

  /** The intended build step keeps the invariant. */
  lemma {:induction false} IntendedStepKeepsInv(b: Board, cursor: int)
    requires Inv(b)
    ensures Inv(AfterBuildStepIntended(b, cursor).0)
  {
    if 1 <= cursor <= |b.history| {
      IntendedUndoKeepsInv(b, cursor);
    } else {
      IntendedNoUndo(b, cursor);
    }
  }

  lemma {:induction false} IntendedUndoKeepsInv(b: Board, cursor: int)
    requires Inv(b) && 1 <= cursor <= |b.history|
    ensures Inv(AfterBuildStepIntended(b, cursor).0)
  {
    var t := Target(b.n, b.emptyCoord, InvertMove(b.history[cursor - 1]));
    var q := AddToRecent(b.recent, b.capacity, t);
    RecentNoDuplicates(b.recent, b.capacity, t);
    SwapKeepsInv(b, t, q);
    assert AfterBuildStepIntended(b, cursor).0 == Recount(SwapEmptyTo(b, t).(recent := q));
  }

  lemma {:induction false} IntendedNoUndo(b: Board, cursor: int)
    requires WellFormed(b) && !(1 <= cursor <= |b.history|)
    ensures AfterBuildStepIntended(b, cursor).0 == b
  {
  }

  lemma {:induction false} IntendedStepsKeepInv(b: Board, cursor: int, k: nat)
    requires Inv(b)
    ensures Inv(BuildStepsIntended(b, cursor, k).0)
  {
    if k > 0 {
      IntendedStepsKeepInv(b, cursor, k - 1);
      var (p, c) := BuildStepsIntended(b, cursor, k - 1);
      IntendedStepKeepsInv(p, c);
    }
  }

  /** From a board whose cells are those of `x` after its history, any `k` intended steps undo the last `k` moves. */
  lemma {:induction false} IntendedStepsUndo(x: Board, b: Board, k: nat)
    requires WellFormed(x) && WellFormed(b) && k <= |b.history|
    requires SameCells(b, Walk(x, b.history))
    ensures IntendedUndone(x, b, k)
  {
    if k == 0 {
      IntendedStepsUndoNone(x, b);
    } else {
      IntendedStepsUndo(x, b, k - 1);
      IntendedStepsUndoMore(x, b, k);
    }
  }

  lemma {:induction false} IntendedStepsUndoNone(x: Board, b: Board)
    requires WellFormed(x) && WellFormed(b)
    requires SameCells(b, Walk(x, b.history))
    ensures IntendedUndone(x, b, 0)
  {
    assert b.history[..|b.history|] == b.history;
  }

  /** The step of `IntendedStepsUndo`, from what `k - 1` steps do to what `k` do. */
  lemma {:induction false} IntendedStepsUndoMore(x: Board, b: Board, k: nat)
    requires WellFormed(x) && WellFormed(b) && 1 <= k <= |b.history|
    requires IntendedUndone(x, b, k - 1)
    ensures IntendedUndone(x, b, k)
  {
    var h := b.history;
    var pc := BuildStepsIntended(b, |h|, k - 1);
    var i := |h| - k;
    assert h[..|h| - (k - 1)] == h[..i + 1];
    assert BuildStepsIntended(b, |h|, k) == AfterBuildStepIntended(pc.0, pc.1);
    IntendedUndoNext(x, pc.0, i);
  }

  /**
   * From cells that the first `i + 1` moves reach, with the cursor at
   * `i + 1`, one intended build step reaches the cells of the first `i`.
   */
  lemma {:induction false} IntendedUndoNext(x: Board, p: Board, i: int)
    requires WellFormed(x) && WellFormed(p) && 0 <= i < |p.history|
    requires SameCells(p, Walk(x, p.history[..i + 1]))
    ensures var (r, c) := AfterBuildStepIntended(p, i + 1);
      c == i && r.history == p.history && SameCells(r, Walk(x, p.history[..i]))
  {
    var h := p.history;
    var m := h[i];
    IntendedStepUndo(p, i + 1);
    var w := Walk(x, h[..i]);
    SliceSnoc(h, i);
    WalkSnoc(x, w, h[..i], m);
    StepSameCells(p, Step(w, m), InvertMove(m));
    MoveThenInverseRestores(w, m);
  }

  /**
   * The corrected replay restores what the shuffle changed: after a shuffle
   * from a board with no history, a full replay gives back its tiles and
   * empty coordinate and spends the cursor.
   */
  lemma {:induction false} IntendedReplayRestores(b: Board, steps: int, draws: seq<nat>)
    requires Inv(b) && b.history == [] && |draws| >= steps
    ensures var s := ShuffleLoop(b, steps, draws);
      var (r, c) := BuildStepsIntended(s, |s.history|, |s.history|);
      c == 0 && Inv(r) && r.tiles == b.tiles && r.emptyCoord == b.emptyCoord
  {
    ShuffleLoopKeeps(b, steps, draws);
    ShuffleLoopCells(b, steps, draws);
    var s := ShuffleLoop(b, steps, draws);
    assert s.history[|b.history|..] == s.history;
    IntendedStepsUndo(b, s, |s.history|);
    IntendedStepsKeepInv(s, |s.history|, |s.history|);
    assert s.history[..0] == [];
  }
}
