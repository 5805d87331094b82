/**
 * The layouts of `GameManager.cs` and what its shuffle and automatic solve
 * do to them, as functions, with the facts the class relies on.
 */
module GameLayouts {
  import opened GameMoves
  import Engine
  import EngineFacts

  /** The order of the pieces and the empty location. */
  datatype Layout = Layout(pieces: seq<int>, empty: int)

  /** The empty location is a position of the list. */
  predicate Placed(l: Layout)
  {
    0 <= l.empty < |l.pieces|
  }

  /** Every entry is a position of a list of `count` pieces. */
  predicate Indices(s: seq<int>, count: int)
  {
    forall k :: 0 <= k < |s| ==> 0 <= s[k] < count
  }

  /** The pieces in their original order: position `i` holds piece `i`. */
  predicate InOrder(pieces: seq<int>)
  {
    forall i :: 0 <= i < |pieces| ==> pieces[i] == i
  }

  /** The pieces `CreateGamePieces` makes, in its row-by-row order. */
  function Identity(count: nat): (s: seq<int>)
    ensures |s| == count && InOrder(s)
  {
    seq(count, i => i)
  }

  /**
   * `TryMovePiece(i)` as the swap it ends in: when the tile at `i` reaches the
   * empty location it takes that place and `i` becomes empty.
   */
  function Slide(l: Layout, cols: int, i: int): (r: Layout)
    requires cols >= 1 && Placed(l) && 0 <= i < |l.pieces|
    ensures |r.pieces| == |l.pieces| && Placed(r)
  {
    if CanReach(cols, |l.pieces|, i, l.empty) then Layout(Engine.Swap(l.pieces, i, l.empty), i) else l
  }

  /** A slide of the tile at `i` is undone by the slide of the tile at the old empty location. */
  lemma SlideBack(rows: int, cols: int, l: Layout, i: int)
    requires rows >= 1 && cols >= 1 && |l.pieces| == rows * cols && Placed(l) && 0 <= i < |l.pieces|
    requires CanReach(cols, |l.pieces|, i, l.empty)
    ensures Slide(Slide(l, cols, i), cols, l.empty) == l
  {
    CanReachSymmetric(rows, cols, i, l.empty);
    var back := Engine.Swap(Engine.Swap(l.pieces, i, l.empty), l.empty, i);
    assert back == l.pieces;
  }

  /** `AutoSolve`: the slides of `moves`, taken from the last to the first. */
  function Replay(l: Layout, cols: int, moves: seq<int>): (r: Layout)
    requires cols >= 1 && Placed(l) && Indices(moves, |l.pieces|)
    ensures |r.pieces| == |l.pieces| && Placed(r)
    decreases |moves|
  {
    if moves == [] then l
    else Replay(Slide(l, cols, moves[|moves| - 1]), cols, moves[..|moves| - 1])
  }

  /** The first move of a replay's list is replayed last. */
  lemma {:induction false} ReplayCons(l: Layout, cols: int, x: int, rest: seq<int>)
    requires cols >= 1 && Placed(l) && 0 <= x < |l.pieces| && Indices(rest, |l.pieces|)
    ensures Indices([x] + rest, |l.pieces|)
    ensures Replay(l, cols, [x] + rest) == Slide(Replay(l, cols, rest), cols, x)
    decreases |rest|
  {
    var s := [x] + rest;
    assert Indices(s, |l.pieces|) by {
      forall k | 0 <= k < |s| ensures 0 <= s[k] < |l.pieces| {
        if k > 0 { assert s[k] == rest[k - 1]; }
      }
    }
    if rest == [] {
      assert s[..0] == [];
    } else {
      var y, front := rest[|rest| - 1], rest[..|rest| - 1];
      assert s[|s| - 1] == y && s[..|s| - 1] == [x] + front;
      var l1 := Slide(l, cols, y);
      assert Indices(front, |l1.pieces|);
      ReplayCons(l1, cols, x, front);
    }
  }

  /** The replay of the first `i + 1` moves is the slide of move `i`, then the replay of the first `i`. */
  lemma ReplayStep(l: Layout, cols: int, moves: seq<int>, i: int)
    requires cols >= 1 && Placed(l) && Indices(moves, |l.pieces|) && 0 <= i < |moves|
    ensures Indices(moves[..i + 1], |l.pieces|) && Indices(moves[..i], |l.pieces|)
    ensures Replay(l, cols, moves[..i + 1]) == Replay(Slide(l, cols, moves[i]), cols, moves[..i])
  {
    assert moves[..i + 1][..i] == moves[..i];
  }

  // ---------------------------------------------------------------------------
  // The in-memory shuffle

  /** The outcome of a shuffle: the layout, the recorded moves, and the tiles moved. */
  datatype Run = Run(layout: Layout, recorded: seq<int>, moved: seq<int>)

  /**
   * The loop of `Shuffle` from layout `l` with `left` swaps still to make,
   * the last two moved tiles `last` and `prevLast`, and the random draws
   * `draws`. A draw equal to one of the last two moved tiles is skipped; any
   * other draw that reaches the empty location by one of the four tries
   * swaps, records the empty location it took, and counts.
   */
  function ShuffleLoop(l: Layout, cols: int, left: int, last: int, prevLast: int, draws: seq<int>): (r: Run)
    requires cols >= 1 && Placed(l) && Indices(draws, |l.pieces|)
    ensures |r.layout.pieces| == |l.pieces| && Placed(r.layout)
    ensures Indices(r.recorded, |l.pieces|) && |r.recorded| == |r.moved| <= if left < 0 then 0 else left
    decreases |draws|
  {
    if left <= 0 || draws == [] then Run(l, [], [])
    else
      var rnd := draws[0];
      if rnd == last || rnd == prevLast || !CanReach(cols, |l.pieces|, rnd, l.empty) then
        ShuffleLoop(l, cols, left, last, prevLast, draws[1..])
      else
        var r := ShuffleLoop(Layout(Engine.Swap(l.pieces, rnd, l.empty), rnd), cols, left - 1, rnd, last, draws[1..]);
        Run(r.layout, [l.empty] + r.recorded, [rnd] + r.moved)
  }

  /**
   * The loop of `Shuffle` is on its way to `goal`: from layout `l`, with the
   * draws from `d` on, the rest of the loop ends in `goal`'s layout and adds
   * to `recorded` what `goal` records.
   */
  ghost predicate Reaches(goal: Run, l: Layout, cols: int, left: int, last: int, prevLast: int,
                          draws: seq<int>, d: int, recorded: seq<int>)
    requires cols >= 1 && Placed(l) && Indices(draws, |l.pieces|) && 0 <= d <= |draws|
  {
    var r := ShuffleLoop(l, cols, left, last, prevLast, draws[d..]);
    goal.layout == r.layout && goal.recorded == recorded + r.recorded
  }

  /** The start of the loop of `Shuffle` is on its way to the whole run. */
  lemma ReachesStart(l: Layout, cols: int, left: int, draws: seq<int>)
    requires cols >= 1 && Placed(l) && Indices(draws, |l.pieces|)
    ensures Reaches(ShuffleLoop(l, cols, left, -1, -1, draws), l, cols, left, -1, -1, draws, 0, [])
  {
    assert draws[0..] == draws;
  }

  /** A draw that is skipped or does not reach the empty location leaves the loop on its way. */
  lemma ReachesSkip(goal: Run, l: Layout, cols: int, left: int, last: int, prevLast: int,
                    draws: seq<int>, d: int, recorded: seq<int>)
    requires cols >= 1 && Placed(l) && Indices(draws, |l.pieces|) && 0 <= d < |draws| && left > 0
    requires Reaches(goal, l, cols, left, last, prevLast, draws, d, recorded)
    requires draws[d] == last || draws[d] == prevLast || !CanReach(cols, |l.pieces|, draws[d], l.empty)
    ensures Reaches(goal, l, cols, left, last, prevLast, draws, d + 1, recorded)
  {
    assert draws[d..][0] == draws[d] && draws[d..][1..] == draws[d + 1..];
  }

  /** A draw that swaps, recorded, leaves the loop on its way. */
  lemma ReachesSwap(goal: Run, l: Layout, cols: int, left: int, last: int, prevLast: int,
                    draws: seq<int>, d: int, recorded: seq<int>)
    requires cols >= 1 && Placed(l) && Indices(draws, |l.pieces|) && 0 <= d < |draws| && left > 0
    requires Reaches(goal, l, cols, left, last, prevLast, draws, d, recorded)
    requires draws[d] != last && draws[d] != prevLast && CanReach(cols, |l.pieces|, draws[d], l.empty)
    ensures var l1 := Layout(Engine.Swap(l.pieces, draws[d], l.empty), draws[d]);
      Reaches(goal, l1, cols, left - 1, draws[d], last, draws, d + 1, recorded + [l.empty])
  {
    assert draws[d..][0] == draws[d] && draws[d..][1..] == draws[d + 1..];
    var l1 := Layout(Engine.Swap(l.pieces, draws[d], l.empty), draws[d]);
    var r1 := ShuffleLoop(l1, cols, left - 1, draws[d], last, draws[d + 1..]);
    assert recorded + ([l.empty] + r1.recorded) == (recorded + [l.empty]) + r1.recorded;
  }

  /** When the swaps are made or the draws are used up, the loop has arrived. */
  lemma ReachesEnd(goal: Run, l: Layout, cols: int, left: int, last: int, prevLast: int,
                   draws: seq<int>, d: int, recorded: seq<int>)
    requires cols >= 1 && Placed(l) && Indices(draws, |l.pieces|) && 0 <= d <= |draws|
    requires Reaches(goal, l, cols, left, last, prevLast, draws, d, recorded)
    requires left <= 0 || d == |draws|
    ensures goal.layout == l && goal.recorded == recorded
  {
    assert d == |draws| ==> draws[d..] == [];
  }

  /** A draw that is skipped or does not reach the empty location leaves the rest of the loop to the next draw. */
  lemma ShuffleSkips(l: Layout, cols: int, left: int, last: int, prevLast: int, draws: seq<int>)
    requires cols >= 1 && Placed(l) && Indices(draws, |l.pieces|) && left > 0 && draws != []
    requires draws[0] == last || draws[0] == prevLast || !CanReach(cols, |l.pieces|, draws[0], l.empty)
    ensures ShuffleLoop(l, cols, left, last, prevLast, draws) == ShuffleLoop(l, cols, left, last, prevLast, draws[1..])
  {
  }

  /** A draw that swaps is recorded ahead of the rest of the loop. */
  lemma ShuffleSwaps(l: Layout, cols: int, left: int, last: int, prevLast: int, draws: seq<int>)
    requires cols >= 1 && Placed(l) && Indices(draws, |l.pieces|) && left > 0 && draws != []
    requires draws[0] != last && draws[0] != prevLast && CanReach(cols, |l.pieces|, draws[0], l.empty)
    ensures var l1 := Layout(Engine.Swap(l.pieces, draws[0], l.empty), draws[0]);
      var r1 := ShuffleLoop(l1, cols, left - 1, draws[0], last, draws[1..]);
      ShuffleLoop(l, cols, left, last, prevLast, draws) == Run(r1.layout, [l.empty] + r1.recorded, [draws[0]] + r1.moved)
  {
  }

  /** The shuffle only reorders: the pieces are a permutation of the pieces before. */
  lemma {:induction false} ShufflePermutes(l: Layout, cols: int, left: int, last: int, prevLast: int, draws: seq<int>)
    requires cols >= 1 && Placed(l) && Indices(draws, |l.pieces|)
    ensures multiset(ShuffleLoop(l, cols, left, last, prevLast, draws).layout.pieces) == multiset(l.pieces)
    decreases |draws|, 1
  {
    if left <= 0 || draws == [] {
    } else if draws[0] == last || draws[0] == prevLast || !CanReach(cols, |l.pieces|, draws[0], l.empty) {
      ShufflePermutes(l, cols, left, last, prevLast, draws[1..]);
      ShuffleSkips(l, cols, left, last, prevLast, draws);
    } else {
      FirstSwapPermutes(l, cols, left, last, prevLast, draws);
    }
  }

  /** `ShufflePermutes` when the first draw swaps. */
  lemma {:induction false} FirstSwapPermutes(l: Layout, cols: int, left: int, last: int, prevLast: int, draws: seq<int>)
    requires cols >= 1 && Placed(l) && Indices(draws, |l.pieces|) && left > 0 && draws != []
    requires draws[0] != last && draws[0] != prevLast && CanReach(cols, |l.pieces|, draws[0], l.empty)
    ensures multiset(ShuffleLoop(l, cols, left, last, prevLast, draws).layout.pieces) == multiset(l.pieces)
    decreases |draws|, 0
  {
    var rnd := draws[0];
    var l1 := Layout(Engine.Swap(l.pieces, rnd, l.empty), rnd);
    ShufflePermutes(l1, cols, left - 1, rnd, last, draws[1..]);
    EngineFacts.SwapPermutes(l.pieces, rnd, l.empty);
    ShuffleSwaps(l, cols, left, last, prevLast, draws);
  }

  /**
   * Each recorded entry is the empty location just before its swap: the
   * first is the empty location of the start, every later one the tile the
   * previous swap moved.
   */
  lemma {:induction false} RecordedIsEmptyBefore(l: Layout, cols: int, left: int, last: int, prevLast: int, draws: seq<int>)
    requires cols >= 1 && Placed(l) && Indices(draws, |l.pieces|)
    ensures var r := ShuffleLoop(l, cols, left, last, prevLast, draws);
      && (|r.recorded| > 0 ==> r.recorded[0] == l.empty)
      && (forall k :: 1 <= k < |r.recorded| ==> r.recorded[k] == r.moved[k - 1])
    decreases |draws|
  {
    if left <= 0 || draws == [] {
    } else {
      var rnd := draws[0];
      if rnd == last || rnd == prevLast || !CanReach(cols, |l.pieces|, rnd, l.empty) {
        RecordedIsEmptyBefore(l, cols, left, last, prevLast, draws[1..]);
        ShuffleSkips(l, cols, left, last, prevLast, draws);
      } else {
        var l1 := Layout(Engine.Swap(l.pieces, rnd, l.empty), rnd);
        var r1 := ShuffleLoop(l1, cols, left - 1, rnd, last, draws[1..]);
        RecordedIsEmptyBefore(l1, cols, left - 1, rnd, last, draws[1..]);
        ShuffleSwaps(l, cols, left, last, prevLast, draws);
        var r := ShuffleLoop(l, cols, left, last, prevLast, draws);
        assert r.recorded == [l.empty] + r1.recorded && r.moved == [rnd] + r1.moved;
        forall k | 1 <= k < |r.recorded| ensures r.recorded[k] == r.moved[k - 1] {
          if k == 1 {
            assert r.recorded[1] == r1.recorded[0];
          } else {
            assert r.recorded[k] == r1.recorded[k - 1] && r.moved[k - 1] == r1.moved[k - 2];
          }
        }
      }
    }
  }

  /** No entry equals either of the two before it. */
  predicate NoRepeatWithinTwo(h: seq<int>)
  {
    forall k :: 2 <= k < |h| ==> h[k] != h[k - 1] && h[k] != h[k - 2]
  }

  /**
   * A moved tile is never one of the last two moved tiles: after the two
   * memories the shuffle starts with, no moved tile repeats either of the
   * two before it.
   */
  lemma {:induction false} ShuffleAvoidsLastTwo(l: Layout, cols: int, left: int, last: int, prevLast: int, draws: seq<int>)
    requires cols >= 1 && Placed(l) && Indices(draws, |l.pieces|)
    ensures NoRepeatWithinTwo([prevLast, last] + ShuffleLoop(l, cols, left, last, prevLast, draws).moved)
    decreases |draws|
  {
    if left <= 0 || draws == [] {
    } else {
      var rnd := draws[0];
      if rnd == last || rnd == prevLast || !CanReach(cols, |l.pieces|, rnd, l.empty) {
        ShuffleAvoidsLastTwo(l, cols, left, last, prevLast, draws[1..]);
        ShuffleSkips(l, cols, left, last, prevLast, draws);
      } else {
        var l1 := Layout(Engine.Swap(l.pieces, rnd, l.empty), rnd);
        var m1 := ShuffleLoop(l1, cols, left - 1, rnd, last, draws[1..]).moved;
        ShuffleAvoidsLastTwo(l1, cols, left - 1, rnd, last, draws[1..]);
        ShuffleSwaps(l, cols, left, last, prevLast, draws);
        NoRepeatCons(prevLast, last, rnd, m1);
      }
    }
  }

  /** A new entry unlike the two before it keeps the property. */
  lemma NoRepeatCons(prevLast: int, last: int, rnd: int, m: seq<int>)
    requires rnd != last && rnd != prevLast && NoRepeatWithinTwo([last, rnd] + m)
    ensures NoRepeatWithinTwo([prevLast, last] + ([rnd] + m))
  {
    var h, h1 := [prevLast, last] + ([rnd] + m), [last, rnd] + m;
    forall k | 2 <= k < |h| ensures h[k] != h[k - 1] && h[k] != h[k - 2] {
      if k > 2 {
        assert h[k] == h1[k - 1] && h[k - 1] == h1[k - 2] && h[k - 2] == h1[k - 3];
      }
    }
  }

  /**
   * The automatic solve undoes the shuffle: replaying the recorded moves from
   * the last to the first gives back the layout the shuffle started from.
   */
  lemma {:induction false} ReplayUndoesShuffle(rows: int, l: Layout, cols: int, left: int, last: int, prevLast: int, draws: seq<int>)
    requires rows >= 1 && cols >= 1 && |l.pieces| == rows * cols && Placed(l) && Indices(draws, |l.pieces|)
    ensures var r := ShuffleLoop(l, cols, left, last, prevLast, draws);
      Replay(r.layout, cols, r.recorded) == l
    decreases |draws|, 1
  {
    if left <= 0 || draws == [] {
    } else if draws[0] == last || draws[0] == prevLast || !CanReach(cols, |l.pieces|, draws[0], l.empty) {
      ReplayUndoesShuffle(rows, l, cols, left, last, prevLast, draws[1..]);
      ShuffleSkips(l, cols, left, last, prevLast, draws);
    } else {
      ReplayUndoesFirstSwap(rows, l, cols, left, last, prevLast, draws);
    }
  }

  /** `ReplayUndoesShuffle` when the first draw swaps. */
  lemma {:induction false} ReplayUndoesFirstSwap(rows: int, l: Layout, cols: int, left: int, last: int, prevLast: int, draws: seq<int>)
    requires rows >= 1 && cols >= 1 && |l.pieces| == rows * cols && Placed(l) && Indices(draws, |l.pieces|)
    requires left > 0 && draws != []
    requires draws[0] != last && draws[0] != prevLast && CanReach(cols, |l.pieces|, draws[0], l.empty)
    ensures var r := ShuffleLoop(l, cols, left, last, prevLast, draws);
      Replay(r.layout, cols, r.recorded) == l
    decreases |draws|, 0
  {
    var rnd := draws[0];
    var l1 := Layout(Engine.Swap(l.pieces, rnd, l.empty), rnd);
    var r1 := ShuffleLoop(l1, cols, left - 1, rnd, last, draws[1..]);
    ReplayUndoesShuffle(rows, l1, cols, left - 1, rnd, last, draws[1..]);
    UndoOneSwap(rows, l, cols, rnd, r1);
    ShuffleSwaps(l, cols, left, last, prevLast, draws);
  }

  /** When the replay of the later records undoes all later swaps, the replay of one record more also undoes the swap before. */
  lemma UndoOneSwap(rows: int, l: Layout, cols: int, rnd: int, r1: Run)
    requires rows >= 1 && cols >= 1 && |l.pieces| == rows * cols && Placed(l) && 0 <= rnd < |l.pieces|
    requires CanReach(cols, |l.pieces|, rnd, l.empty)
    requires |r1.layout.pieces| == |l.pieces| && Placed(r1.layout) && Indices(r1.recorded, |l.pieces|)
    requires Replay(r1.layout, cols, r1.recorded) == Layout(Engine.Swap(l.pieces, rnd, l.empty), rnd)
    ensures Indices([l.empty] + r1.recorded, |l.pieces|)
    ensures Replay(r1.layout, cols, [l.empty] + r1.recorded) == l
  {
    ReplayCons(r1.layout, cols, l.empty, r1.recorded);
    SlideBack(rows, cols, l, rnd);
  }
}
