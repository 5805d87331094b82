/**
 * The four moves of the empty tile. The source spells them as the strings
 * "up", "down", "left" and "right" and compares them after lower-casing.
 */
module Moves {
  import opened Wrappers

  datatype Move = Up | Down | Left | Right

  /** The candidate list of `GetRandomMove`, in the source's order. */
  const AllMoves: seq<Move> := [Up, Down, Left, Right]

  /** The string the engine stores for a move. */
  function Name(m: Move): (s: string)
    ensures Lower(s) == s
  {
    match m
    case Up => "up"
    case Down => "down"
    case Left => "left"
    case Right => "right"
  }

  /** ASCII lower-casing of one character (`ToLowerInvariant` on the letters that matter here). */
  function LowerChar(ch: char): (c: char)
  {
    if 'A' <= ch <= 'Z' then (ch as int - 'A' as int + 'a' as int) as char else ch
  }

  function Lower(s: string): (r: string)
    ensures |r| == |s|
    ensures forall k :: 0 <= k < |s| ==> r[k] == LowerChar(s[k])
  {
    if s == [] then [] else [LowerChar(s[0])] + Lower(s[1..])
  }

  /**
   * The `switch (move.ToLowerInvariant())` of the source: one of the four
   * names in any letter case selects its move; every other string selects none.
   */
  function Parse(s: string): (d: Option<Move>)
    ensures d.Some? ==> Name(d.value) == Lower(s)
    ensures d.None? ==> forall m :: Name(m) != Lower(s)
  {
    var l := Lower(s);
    if l == "up" then Some(Up)
    else if l == "down" then Some(Down)
    else if l == "left" then Some(Left)
    else if l == "right" then Some(Right)
    else None
  }

  /** `InvertMove`: the opposite direction. */
  function InvertMove(m: Move): (r: Move)
    ensures r != m
    ensures (m == Up || m == Down) <==> (r == Up || r == Down)
  {
    match m
    case Up => Down
    case Down => Up
    case Left => Right
    case Right => Left
  }

  /** Inverting twice gives the move back. */
  lemma InvertInvolution(m: Move)
    ensures InvertMove(InvertMove(m)) == m
  {
  }

  /** Every stored name parses back to its move. */
  lemma ParseName(m: Move)
    ensures Parse(Name(m)) == Some(m)
  {
    assert Lower(Name(m)) == Name(m);
  }

  /** The four stored names are pairwise different. */
  lemma NameInjective(m: Move, m': Move)
    ensures Name(m) == Name(m') <==> m == m'
  {
    ParseName(m);
    ParseName(m');
  }

  /** The inverse of each move, move by move. */
  function Inverses(ms: seq<Move>): (r: seq<Move>)
    ensures |r| == |ms|
    ensures forall k :: 0 <= k < |ms| ==> r[k] == InvertMove(ms[k])
  {
    if ms == [] then [] else [InvertMove(ms[0])] + Inverses(ms[1..])
  }

  lemma InversesAppend(xs: seq<Move>, ys: seq<Move>)
    ensures Inverses(xs + ys) == Inverses(xs) + Inverses(ys)
  {
    var a := Inverses(xs + ys);
    var b := Inverses(xs) + Inverses(ys);
    assert |a| == |b|;
    forall k | 0 <= k < |a|
      ensures a[k] == b[k]
    {
      if k < |xs| {
        assert (xs + ys)[k] == xs[k];
      } else {
        assert (xs + ys)[k] == ys[k - |xs|];
      }
    }
  }

  lemma InversesSnoc(h: seq<Move>, j: nat)
    requires 1 <= j <= |h|
    ensures Inverses(h[..j]) == Inverses(h[..j - 1]) + [InvertMove(h[j - 1])]
  {
    assert h[..j] == h[..j - 1] + [h[j - 1]];
    InversesAppend(h[..j - 1], [h[j - 1]]);
  }

  /** A prefix one longer is the prefix and the next move. */
  lemma SliceSnoc(h: seq<Move>, i: int)
    requires 0 <= i < |h|
    ensures h[..i + 1] == h[..i] + [h[i]]
  {
  }
}
