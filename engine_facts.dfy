/** What the operations of the arrangement engine keep and change. */
module EngineFacts {
  import opened Wrappers
  import opened Moves
  import opened Coord1DHelper
  import opened Torus
  import opened Engine

  // ---------------------------------------------------------------------------
  // Construction

  /**
   * The constructor's board: every tile on its own cell and a count of 0, the
   * empty tile at the coordinate equal to its number, an empty history and
   * the start coordinate as the only entry of the recent queue.
   */
  lemma InitialIsSolved(n: int, emptyNumber: int, capacity: int)
    requires n >= 1 && 1 <= emptyNumber <= n * n && 4 <= capacity <= 10
    ensures var b := Initial(n, emptyNumber, capacity);
      && Inv(b)
      && (forall k :: 0 <= k < |b.tiles| ==> b.tiles[k] == k + 1)
      && b.count == Some(0) && Misplaced(b.tiles) == 0
      && b.emptyCoord == b.emptyNumber == emptyNumber
      && b.history == [] && b.recent == [emptyNumber]
  {
    var b := Initial(n, emptyNumber, capacity);
    FirstRecent(capacity, emptyNumber);
    assert WellFormed(b);
    assert TilesPermuted(b);
    assert EmptyInPlace(b);
    assert CountAccurate(b);
    assert QueueBounded(b);
  }

  /** The queue after `AddToRecent` is what is left of the enqueued queue after dropping its oldest entries. */
  lemma RecentIsSuffix(q: seq<int>, capacity: int, coord: int)
    requires capacity >= 0
    ensures IsSuffix(AddToRecent(q, capacity, coord), if coord in q then q else q + [coord])
  {
  }

  /** A queue without duplicates keeps none after `AddToRecent`. */
  lemma RecentNoDuplicates(q: seq<int>, capacity: int, coord: int)
    requires capacity >= 0 && NoDuplicates(q)
    ensures NoDuplicates(AddToRecent(q, capacity, coord))
  {
    var q1 := if coord in q then q else q + [coord];
    assert NoDuplicates(q1);
    var k := if |q1| > capacity then |q1| - capacity else 0;
    assert AddToRecent(q, capacity, coord) == q1[k..];
  }

  /** The first coordinate queued is the queue's only entry. */
  lemma FirstRecent(capacity: int, coord: int)
    requires capacity >= 1
    ensures AddToRecent([], capacity, coord) == [coord]
  {
    var q := AddToRecent([], capacity, coord);
    RecentIsSuffix([], capacity, coord);
    assert IsSuffix(q, [coord]);
    assert coord in q;
  }

  /** A coordinate not yet queued, with room left, joins the end of the queue. */
  lemma QueueFresh(q: seq<int>, capacity: int, coord: int)
    requires coord !in q && |q| < capacity
    ensures AddToRecent(q, capacity, coord) == q + [coord]
  {
    assert (q + [coord])[0..] == q + [coord];
  }

  // ---------------------------------------------------------------------------
  // One move

  /**
   * Moving the empty tile to any cell and recounting keeps the invariant,
   * given a recent queue that is itself within bounds.
   */
  lemma SwapKeepsInv(b: Board, t: int, q: seq<int>)
    requires Inv(b) && 1 <= t <= b.n * b.n
    requires NoDuplicates(q) && |q| <= b.capacity
    ensures Inv(Recount(SwapEmptyTo(b, t).(recent := q)))
  {
    var r := Recount(SwapEmptyTo(b, t).(recent := q));
    assert r.tiles == Swap(b.tiles, b.emptyCoord - 1, t - 1) && r.emptyCoord == t;
    assert WellFormed(r);
    SwapPermutes(b.tiles, b.emptyCoord - 1, t - 1);
    assert TilesPermuted(r);
    assert EmptyInPlace(r);
    assert CountAccurate(r);
    assert QueueBounded(r);
  }

  /** Exchanging two cells keeps the multiset of tiles. */
  lemma SwapPermutes(s: seq<int>, i: int, j: int)
    requires 0 <= i < |s| && 0 <= j < |s|
    ensures multiset(Swap(s, i, j)) == multiset(s)
  {
    var r := Swap(s, i, j);
    if i != j {
      assert r == s[i := s[j]][j := s[i]];
      assert multiset(s[i := s[j]]) == multiset(s) - multiset{s[i]} + multiset{s[j]};
    }
  }

  /** Exchanging a cell with itself changes nothing. */
  lemma SwapSelf(s: seq<int>, i: int)
    requires 0 <= i < |s|
    ensures Swap(s, i, i) == s
  {
  }

  /** A move and then its inverse restore the tiles and the empty coordinate. */
  lemma MoveThenInverseRestores(b: Board, m: Move)
    requires WellFormed(b)
    ensures SameCells(Step(Step(b, m), InvertMove(m)), b)
  {
    var b1 := Step(b, m);
    var b2 := Step(b1, InvertMove(m));
    TargetInverse(b.n, b.emptyCoord, m);
    assert b2.tiles == b.tiles;
  }

  /** One pass of the shuffle loop keeps the invariant. */
  lemma ShuffleStepKeepsInv(b: Board, m: Move)
    requires Inv(b)
    ensures Inv(ShuffleStep(b, m))
  {
    var t := Target(b.n, b.emptyCoord, m);
    var h := b.(history := b.history + [m]);
    assert Inv(h);
    RecentNoDuplicates(b.recent, b.capacity, t);
    SwapKeepsInv(h, t, AddToRecent(b.recent, b.capacity, t));
  }

  /** One pass of the shuffle loop: the move is appended, the grid moves by it. */
  lemma ShuffleStepFacts(b: Board, m: Move)
    requires Inv(b)
    ensures var r := ShuffleStep(b, m);
      && Inv(r)
      && r.history == b.history + [m]
      && SameCells(r, Step(b, m))
      && r.count == Some(Misplaced(r.tiles))
      && (r.n, r.emptyNumber, r.capacity) == (b.n, b.emptyNumber, b.capacity)
  {
    ShuffleStepKeepsInv(b, m);
  }

  /**
   * `MoveEmptyPiece` swaps exactly the old and the new empty cells, keeps the
   * invariant, recounts, and leaves history and recent queue untouched.
   */
  lemma MoveEmptyPieceFacts(b: Board, direction: string)
    requires Inv(b)
    ensures var r := AfterMoveEmptyPiece(b, direction);
      var t := GetEmptyPieceCoordByMove(b.n, b.emptyCoord, Parse(direction));
      && Inv(r)
      && r.tiles == Swap(b.tiles, b.emptyCoord - 1, t - 1)
      && r.emptyCoord == t
      && r.count == Some(Misplaced(r.tiles))
      && r.history == b.history && r.recent == b.recent
  {
    var t := GetEmptyPieceCoordByMove(b.n, b.emptyCoord, Parse(direction));
    assert AfterMoveEmptyPiece(b, direction) == Recount(SwapEmptyTo(b, t).(recent := b.recent));
    SwapKeepsInv(b, t, b.recent);
  }

  /** A direction naming no move changes nothing but the count. */
  lemma UnknownDirectionKeepsCells(b: Board, direction: string)
    requires WellFormed(b) && Parse(direction) == None
    ensures SameCells(AfterMoveEmptyPiece(b, direction), b)
  {
    UnknownDirectionStays(b.n, b.emptyCoord);
    SwapSelf(b.tiles, b.emptyCoord - 1);
  }

  /** `MoveEmptyPiece` by a move's name and then by its inverse's restores the grid. */
  lemma MoveEmptyPieceThenInverse(b: Board, m: Move)
    requires Inv(b)
    ensures var r := AfterMoveEmptyPiece(AfterMoveEmptyPiece(b, Name(m)), Name(InvertMove(m)));
      SameCells(r, b) && r.history == b.history && r.recent == b.recent && r.count == Some(Misplaced(b.tiles))
  {
    ParseName(m);
    ParseName(InvertMove(m));
    MoveThenInverseRestores(b, m);
  }

  // ---------------------------------------------------------------------------
  // The random move

  /** With no target in the recent queue, every move is allowed, in order. */
  lemma {:induction false} AllowedEverything(n: int, coord: int, recent: seq<int>, ms: seq<Move>)
    requires n >= 1 && 1 <= coord <= n * n
    requires forall m :: m in ms ==> Target(n, coord, m) !in recent
    ensures Allowed(n, coord, recent, ms) == ms
    decreases |ms|
  {
    if ms != [] {
      assert ms[0] in ms;
      AllowedEverything(n, coord, recent, ms[1..]);
      assert [ms[0]] + ms[1..] == ms;
    }
  }

  /**
   * `GetRandomMove` avoids every target in the recent queue unless all four
   * targets are in it.
   */
  lemma RandomMoveAvoidsRecent(b: Board, draw: nat)
    requires WellFormed(b)
    requires exists m :: Target(b.n, b.emptyCoord, m) !in b.recent
    ensures Target(b.n, b.emptyCoord, GetRandomMove(b, draw)) !in b.recent
  {
    var m :| Target(b.n, b.emptyCoord, m) !in b.recent;
    assert m in AllMoves;
    var possible := Allowed(b.n, b.emptyCoord, b.recent, AllMoves);
    assert m in possible;
    assert possible[Pick(draw, |possible|)] in possible;
  }

  /**
   * Every move the source may choose is chosen by some draw below 4: one of
   * the allowed moves, or any move when none is allowed.
   */
  lemma RandomMoveReachable(b: Board, m: Move)
    requires WellFormed(b)
    requires Target(b.n, b.emptyCoord, m) !in b.recent ||
             forall m' :: Target(b.n, b.emptyCoord, m') in b.recent
    ensures exists draw :: draw < 4 && GetRandomMove(b, draw) == m
  {
    var possible := Allowed(b.n, b.emptyCoord, b.recent, AllMoves);
    if |possible| == 0 {
      var i := match m case Up => 0 case Down => 1 case Left => 2 case Right => 3;
      assert AllMoves[i] == m;
      assert GetRandomMove(b, i) == m;
    } else {
      assert m in AllMoves;
      assert possible[0] in possible;
      assert m in possible;
      var i :| 0 <= i < |possible| && possible[i] == m;
      assert GetRandomMove(b, i) == m;
    }
  }

  /** The tiles of a board the operations keep are exactly the numbers 1..n². */
  lemma TileNumbers(b: Board, x: int)
    requires Inv(b)
    ensures x in b.tiles <==> 1 <= x <= b.n * b.n
  {
    var s := Solved(b.n);
    assert x in b.tiles <==> x in multiset(b.tiles);
    assert x in s <==> x in multiset(s);
    if 1 <= x <= b.n * b.n {
      assert s[x - 1] == x;
    }
  }
}
