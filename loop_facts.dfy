/**
 * What the shuffle loop and the step-by-step build do over many passes:
 * the grid after a shuffle is the walk of the recorded moves, the count
 * rules of `Shuffle`, and how far `BuildStep` replays the history.
 */
module LoopFacts {
  import opened Wrappers
  import opened Moves
  import opened Torus
  import opened Engine
  import opened EngineFacts

  // ---------------------------------------------------------------------------
  // Walks of boards

  lemma {:induction false} WalkAppendBoard(b: Board, xs: seq<Move>, ys: seq<Move>)
    requires WellFormed(b)
    ensures SameCells(Walk(b, xs + ys), Walk(Walk(b, xs), ys))
    decreases |ys|
  {
    if ys == [] {
      assert xs + ys == xs;
    } else {
      WalkAppendBoard(b, xs, ys[..|ys| - 1]);
      assert (xs + ys)[..|xs + ys| - 1] == xs + ys[..|ys| - 1];
    }
  }

  /** A walk depends only on the size, the tiles and the empty coordinate. */
  lemma {:induction false} WalkSameCells(x: Board, y: Board, ms: seq<Move>)
    requires WellFormed(x) && WellFormed(y) && SameCells(x, y)
    ensures SameCells(Walk(x, ms), Walk(y, ms))
    decreases |ms|
  {
    if ms != [] {
      WalkSameCells(x, y, ms[..|ms| - 1]);
    }
  }

  lemma WalkOne(b: Board, m: Move)
    requires WellFormed(b)
    ensures Walk(b, [m]) == Step(b, m)
  {
    assert [m][..0] == [];
  }

  /** The walk of `[m] + ms` from a board that has the cells of `Step(b, m)`. */
  lemma WalkCons(b: Board, x: Board, m: Move, ms: seq<Move>)
    requires WellFormed(b) && WellFormed(x) && SameCells(x, Step(b, m))
    ensures SameCells(Walk(b, [m] + ms), Walk(x, ms))
  {
    WalkAppendBoard(b, [m], ms);
    WalkOne(b, m);
    WalkSameCells(x, Step(b, m), ms);
  }

  // ---------------------------------------------------------------------------
  // The shuffle loop

  lemma {:induction false} ShuffleLoopInv(b: Board, steps: int, draws: seq<nat>)
    requires Inv(b) && |draws| >= steps
    ensures Inv(ShuffleLoop(b, steps, draws))
    decreases steps
  {
    if steps > 0 {
      var m := GetRandomMove(b, draws[0]);
      ShuffleStepFacts(b, m);
      var r1 := ShuffleStep(b, m);
      if r1.count != Some(0) {
        ShuffleLoopInv(r1, steps - 1, draws[1..]);
      }
    }
  }

  lemma {:induction false} ShuffleLoopConstants(b: Board, steps: int, draws: seq<nat>)
    requires WellFormed(b) && |draws| >= steps
    ensures var r := ShuffleLoop(b, steps, draws);
      (r.n, r.emptyNumber, r.capacity) == (b.n, b.emptyNumber, b.capacity)
    decreases steps
  {
    if steps > 0 {
      var r1 := ShuffleStep(b, GetRandomMove(b, draws[0]));
      if r1.count != Some(0) {
        ShuffleLoopConstants(r1, steps - 1, draws[1..]);
      }
    }
  }

  lemma {:induction false} ShuffleLoopPrefix(b: Board, steps: int, draws: seq<nat>)
    requires WellFormed(b) && |draws| >= steps
    ensures b.history <= ShuffleLoop(b, steps, draws).history
    decreases steps
  {
    if steps > 0 {
      var m := GetRandomMove(b, draws[0]);
      var r1 := ShuffleStep(b, m);
      if r1.count != Some(0) {
        ShuffleLoopPrefix(r1, steps - 1, draws[1..]);
        assert b.history <= r1.history;
      }
    }
  }

  lemma {:induction false} ShuffleLoopLength(b: Board, steps: int, draws: seq<nat>)
    requires WellFormed(b) && |draws| >= steps && steps >= 1
    ensures var r := ShuffleLoop(b, steps, draws);
      |b.history| + 1 <= |r.history| <= |b.history| + steps
    decreases steps
  {
    var r1 := ShuffleStep(b, GetRandomMove(b, draws[0]));
    if r1.count != Some(0) && steps > 1 {
      ShuffleLoopLength(r1, steps - 1, draws[1..]);
    }
  }

  /**
   * The shuffle loop keeps the invariant and the constants, only appends to
   * the history, and appends between one and `steps` moves when `steps` is
   * positive; with no steps it changes nothing.
   */
  lemma ShuffleLoopKeeps(b: Board, steps: int, draws: seq<nat>)
    requires Inv(b) && |draws| >= steps
    ensures var r := ShuffleLoop(b, steps, draws);
      && Inv(r)
      && (r.n, r.emptyNumber, r.capacity) == (b.n, b.emptyNumber, b.capacity)
      && b.history <= r.history
      && (steps <= 0 ==> r == b)
      && (steps >= 1 ==> |b.history| + 1 <= |r.history| <= |b.history| + steps)
  {
    ShuffleLoopInv(b, steps, draws);
    ShuffleLoopConstants(b, steps, draws);
    ShuffleLoopPrefix(b, steps, draws);
    if steps >= 1 {
      ShuffleLoopLength(b, steps, draws);
    }
  }

  /**
   * One pass of the loop of `Shuffle` from `b`, as `after` and `solved` see
   * it: a pass that leaves the grid solved ends the loop with a null count,
   * any other hands the rest of the draws to the next pass.
   */
  lemma ShuffleLoopTurn(b: Board, left: int, rest: seq<nat>, after: Board, solved: bool)
    requires WellFormed(b) && 1 <= left <= |rest|
    requires var r1 := ShuffleStep(b, GetRandomMove(b, rest[0]));
      (solved <==> r1.count == Some(0)) && after == (if solved then r1.(count := None) else r1)
    ensures WellFormed(after)
    ensures solved ==> ShuffleLoop(b, left, rest) == after
    ensures !solved ==> ShuffleLoop(b, left, rest) == ShuffleLoop(after, left - 1, rest[1..])
  {
  }

  /** What a history longer than `p + [x]` holds after `p`. */
  lemma DropPrefix(p: seq<Move>, x: Move, s: seq<Move>)
    requires p + [x] <= s
    ensures s[|p|..] == [x] + s[|p| + 1..]
  {
    assert s[|p|] == (p + [x])[|p|];
  }

  lemma ShuffleStepHistory(b: Board, m: Move)
    requires WellFormed(b)
    ensures ShuffleStep(b, m).history == b.history + [m]
    ensures SameCells(ShuffleStep(b, m), Step(b, m))
  {
  }

  /** After the shuffle loop the grid is the walk of the moves it recorded. */
  lemma {:induction false} ShuffleLoopCells(b: Board, steps: int, draws: seq<nat>)
    requires WellFormed(b) && |draws| >= steps
    ensures var r := ShuffleLoop(b, steps, draws);
      |b.history| <= |r.history| && SameCells(r, Walk(b, r.history[|b.history|..]))
    decreases steps, 1
  {
    if steps <= 0 {
      assert b.history[|b.history|..] == [];
    } else if ShuffleStep(b, GetRandomMove(b, draws[0])).count == Some(0) {
      var m := GetRandomMove(b, draws[0]);
      ShuffleStepHistory(b, m);
      assert ShuffleLoop(b, steps, draws).history[|b.history|..] == [m];
      WalkOne(b, m);
    } else {
      ShuffleLoopCellsGo(b, steps, draws);
    }
  }

  /** The case of `ShuffleLoopCells` where the first pass leaves the grid unsolved. */
  lemma {:induction false} ShuffleLoopCellsGo(b: Board, steps: int, draws: seq<nat>)
    requires WellFormed(b) && |draws| >= steps && steps > 0
    requires ShuffleStep(b, GetRandomMove(b, draws[0])).count != Some(0)
    ensures var r := ShuffleLoop(b, steps, draws);
      |b.history| <= |r.history| && SameCells(r, Walk(b, r.history[|b.history|..]))
    decreases steps, 0
  {
    var m := GetRandomMove(b, draws[0]);
    var r1 := ShuffleStep(b, m);
    var d := draws[1..];
    ShuffleStepHistory(b, m);
    ShuffleLoopCells(r1, steps - 1, d);
    ShuffleLoopPrefix(r1, steps - 1, d);
    var r := ShuffleLoop(r1, steps - 1, d);
    assert ShuffleLoop(b, steps, draws) == r;
    DropPrefix(b.history, m, r.history);
    WalkCons(b, r1, m, r.history[|r1.history|..]);
  }

  /** The count rules of `Shuffle`, as a predicate on the board before and after the loop. */
  predicate CountRules(b: Board, steps: int, r: Board)
    requires WellFormed(b) && |b.history| <= |r.history|
  {
    && (r.count == None <==> Misplaced(r.tiles) == 0)
    && (r.count != None ==> r.count == Some(Misplaced(r.tiles)))
    && (|r.history| - |b.history| < steps ==> r.count == None)
    && PrefixesUnsolved(b, r.history[|b.history|..])
  }

  /** No proper non-empty prefix of `ms` walks `b` to a solved grid. */
  predicate PrefixesUnsolved(b: Board, ms: seq<Move>)
    requires WellFormed(b)
  {
    forall j :: 1 <= j < |ms| ==> Misplaced(Walk(b, ms[..j]).tiles) > 0
  }

  /**
   * The count rules of `Shuffle`: after at least one pass the count is null
   * exactly when the grid is solved and is otherwise the exact count, the
   * loop stops early only on a solved grid, and no earlier pass left the
   * grid solved.
   */
  lemma {:induction false} ShuffleLoopCount(b: Board, steps: int, draws: seq<nat>)
    requires WellFormed(b) && |draws| >= steps && steps >= 1
    ensures |b.history| <= |ShuffleLoop(b, steps, draws).history|
    ensures CountRules(b, steps, ShuffleLoop(b, steps, draws))
    decreases steps, 1
  {
    ShuffleLoopPrefix(b, steps, draws);
    var m := GetRandomMove(b, draws[0]);
    ShuffleStepHistory(b, m);
    if ShuffleStep(b, m).count == Some(0) {
      assert ShuffleLoop(b, steps, draws).history == b.history + [m];
    } else if steps == 1 {
      assert ShuffleLoop(b, steps, draws) == ShuffleStep(b, m);
    } else {
      ShuffleLoopCountGo(b, steps, draws);
    }
  }

  /** The case of `ShuffleLoopCount` where a first pass leaves the grid unsolved and more follow. */
  lemma {:induction false} ShuffleLoopCountGo(b: Board, steps: int, draws: seq<nat>)
    requires WellFormed(b) && |draws| >= steps && steps >= 2
    requires ShuffleStep(b, GetRandomMove(b, draws[0])).count != Some(0)
    ensures |b.history| <= |ShuffleLoop(b, steps, draws).history|
    ensures CountRules(b, steps, ShuffleLoop(b, steps, draws))
    decreases steps, 0
  {
    var m := GetRandomMove(b, draws[0]);
    var r1 := ShuffleStep(b, m);
    var d := draws[1..];
    ShuffleStepHistory(b, m);
    ShuffleLoopPrefix(r1, steps - 1, d);
    var r := ShuffleLoop(r1, steps - 1, d);
    assert ShuffleLoop(b, steps, draws) == r;
    DropPrefix(b.history, m, r.history);
    assert Misplaced(r1.tiles) > 0;
    ShuffleLoopCount(r1, steps - 1, d);
    PrefixWalksUnsolved(b, r1, m, r.history[|r1.history|..]);
  }

  /** The walks of the prefixes of `[m] + rest` stay unsolved when those of `rest` from `Step(b, m)` do. */
  lemma PrefixWalksUnsolved(b: Board, x: Board, m: Move, rest: seq<Move>)
    requires WellFormed(b) && WellFormed(x) && SameCells(x, Step(b, m)) && Misplaced(x.tiles) > 0
    requires PrefixesUnsolved(x, rest)
    ensures PrefixesUnsolved(b, [m] + rest)
  {
    forall j | 1 <= j < |rest| + 1
      ensures Misplaced(Walk(b, ([m] + rest)[..j]).tiles) > 0
    {
      assert ([m] + rest)[..j] == [m] + rest[..j - 1];
      WalkCons(b, x, m, rest[..j - 1]);
      if j == 1 {
        assert rest[..0] == [];
      }
    }
  }

  /** One more move after cells that a walk reaches. */
  lemma WalkSnoc(b: Board, p: Board, xs: seq<Move>, m: Move)
    requires WellFormed(b) && WellFormed(p) && SameCells(p, Walk(b, xs))
    ensures SameCells(Step(p, m), Walk(b, xs + [m]))
  {
    var ys := xs + [m];
    assert ys[..|ys| - 1] == xs;
    assert ys[|ys| - 1] == m;
    assert Walk(b, ys) == Step(Walk(b, xs), m);
    StepSameCells(p, Walk(b, xs), m);
  }

  /** A move depends only on the size, the tiles and the empty coordinate. */
  lemma StepSameCells(p: Board, q: Board, m: Move)
    requires WellFormed(p) && WellFormed(q) && SameCells(p, q)
    ensures SameCells(Step(p, m), Step(q, m))
  {
  }
}
