/**
 * Which of several shuffled trials the selector keeps, read off the list of
 * their misplaced counts (`None` is a null count, that is a trial that came
 * out solved).
 */
module Selection {
  import opened Wrappers

  /** A non-null count equal to the target (which may be any integer). */
  predicate Hits(c: Option<nat>, t: int)
  {
    c.Some? && c.value == t
  }

  /** The first trial whose count is exactly `t`, if any. */
  function FirstMatch(counts: seq<Option<nat>>, t: int): (r: Option<nat>)
    ensures r.None? <==> forall k :: 0 <= k < |counts| ==> !Hits(counts[k], t)
    ensures r.Some? ==> r.value < |counts| && Hits(counts[r.value], t)
    ensures r.Some? ==> forall k :: 0 <= k < r.value ==> !Hits(counts[k], t)
    decreases |counts|
  {
    if |counts| == 0 then None
    else if Hits(counts[0], t) then Some(0)
    else
      match FirstMatch(counts[1..], t)
      case None => None
      case Some(i) => Some(i + 1)
  }

  /**
   * The trial with the largest non-null count, the last one among equals;
   * `None` when every count is null.
   */
  function LastMax(counts: seq<Option<nat>>): (r: Option<nat>)
    ensures r.None? <==> forall k :: 0 <= k < |counts| ==> counts[k].None?
    ensures r.Some? ==> r.value < |counts| && counts[r.value].Some?
    ensures r.Some? ==> forall k :: 0 <= k < |counts| && counts[k].Some? ==> counts[k].value <= counts[r.value].value
    ensures r.Some? ==> forall k :: r.value < k < |counts| && counts[k].Some? ==> counts[k].value < counts[r.value].value
    decreases |counts|
  {
    if |counts| == 0 then None
    else
      var prev := LastMax(counts[..|counts| - 1]);
      var last := counts[|counts| - 1];
      if last.Some? && (prev.None? || last.value >= counts[prev.value].value) then Some(|counts| - 1)
      else prev
  }

  /** The last maximum of a prefix one count longer, in terms of the shorter prefix. */
  lemma LastMaxSnoc(counts: seq<Option<nat>>, v: nat)
    requires v < |counts|
    ensures var prev := LastMax(counts[..v]);
      LastMax(counts[..v + 1])
        == if counts[v].Some? && (prev.None? || counts[v].value >= counts[prev.value].value) then Some(v) else prev
  {
    assert counts[..v + 1][..v] == counts[..v];
  }

  /**
   * The trial `GetBestVarietyShuffleOfPuzzle` returns: the first one that
   * hits a given target, else the last maximum.
   */
  function Selected(counts: seq<Option<nat>>, target: Option<int>): (r: Option<nat>)
    ensures r.None? <==> forall k :: 0 <= k < |counts| ==> counts[k].None?
    ensures r.Some? ==> r.value < |counts| && counts[r.value].Some?
  {
    if target.Some? && FirstMatch(counts, target.value).Some? then FirstMatch(counts, target.value)
    else LastMax(counts)
  }

  /** A target some trial hits selects the first trial that hits it. */
  lemma SelectedHitsTarget(counts: seq<Option<nat>>, t: int, i: nat)
    requires i < |counts| && Hits(counts[i], t)
    requires forall k :: 0 <= k < i ==> !Hits(counts[k], t)
    ensures Selected(counts, Some(t)) == Some(i)
  {
    var r := FirstMatch(counts, t);
    assert r.Some?;
    assert !(r.value < i);
    assert !(r.value > i);
  }

  /**
   * Without a target, or with one no trial hits, the selection is the last
   * trial whose count is at least every other non-null count.
   */
  lemma SelectedIsLastMax(counts: seq<Option<nat>>, target: Option<int>, i: nat)
    requires target.None? || forall k :: 0 <= k < |counts| ==> !Hits(counts[k], target.value)
    requires i < |counts| && counts[i].Some?
    requires forall k :: 0 <= k < |counts| && counts[k].Some? ==> counts[k].value <= counts[i].value
    requires forall k :: i < k < |counts| && counts[k].Some? ==> counts[k].value < counts[i].value
    ensures Selected(counts, target) == Some(i)
  {
    if target.Some? {
      assert FirstMatch(counts, target.value).None?;
    }
    var r := LastMax(counts);
    assert r.Some?;
    assert !(r.value < i);
    assert !(r.value > i);
  }
}
