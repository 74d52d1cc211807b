/**
 * Choice of the insertion point while a task is dragged over a column
 * (`getDragAfterElement`, script.js:80-92).
 *
 * The candidates are the column's tasks other than the dragged one, in
 * document order; `mids[i]` is the vertical midpoint of candidate `i` and `y`
 * the pointer's vertical position. Screen coordinates grow downwards, so a
 * negative offset `y - mids[i]` means the candidate's midpoint lies below the
 * pointer.
 */
module Placement {
  import opened Wrappers

  /** The accumulator of the reduction: the seed (offset minus infinity, no
      element) or the best candidate seen so far with its offset. */
  datatype Closest = Seed | Found(offset: real, index: nat)

  /** One step of the reduction over candidate `i`. The comparison with the
      current best is strict, so an equal offset keeps the earlier candidate. */
  function Step(closest: Closest, y: real, i: nat, mid: real): Closest
  {
    var offset := y - mid;
    if offset < 0.0 && (closest.Seed? || offset > closest.offset) then Found(offset, i)
    else closest
  }

  /** The candidate whose midpoint is the nearest one below the pointer, with
      ties going to the earliest: the reference definition of the choice. */
  ghost predicate IsClosestBelow(y: real, mids: seq<real>, k: nat)
  {
    && k < |mids|
    && y - mids[k] < 0.0
    && (forall j :: 0 <= j < |mids| && y - mids[j] < 0.0 ==> y - mids[j] <= y - mids[k])
    && (forall j :: 0 <= j < k && y - mids[j] < 0.0 ==> y - mids[j] < y - mids[k])
  }

  /** The left-to-right reduction over all candidates, as the script's `reduce`. */
  function Reduce(y: real, mids: seq<real>): (c: Closest)
    ensures c.Found? ==> c.index < |mids| && c.offset == y - mids[c.index]
    ensures c.Found? ==> IsClosestBelow(y, mids, c.index)
    ensures c.Seed? <==> forall j :: 0 <= j < |mids| ==> y - mids[j] >= 0.0
  {
    if mids == [] then Seed
    else
      var n := |mids| - 1;
      assert forall j :: 0 <= j < n ==> mids[..n][j] == mids[j];
      Step(Reduce(y, mids[..n]), y, n, mids[n])
  }

  /** `getDragAfterElement`: the index of the candidate to insert before, or
      `None` (the script's `undefined`) when no midpoint lies below the pointer. */
  function DragAfterElement(y: real, mids: seq<real>): (r: Option<nat>)
    ensures r.Some? ==> IsClosestBelow(y, mids, r.value)
    ensures r.None? <==> forall j :: 0 <= j < |mids| ==> y - mids[j] >= 0.0
  {
    match Reduce(y, mids)
    case Seed => None
    case Found(_, i) => Some(i)
  }

  /** At most one candidate meets the reference definition. */
  lemma ClosestBelowUnique(y: real, mids: seq<real>, k1: nat, k2: nat)
    requires IsClosestBelow(y, mids, k1) && IsClosestBelow(y, mids, k2)
    ensures k1 == k2
  {
  }

  /** The chosen index is exactly the one the reference definition names. */
  lemma DragAfterElementIsClosestBelow(y: real, mids: seq<real>, k: nat)
    ensures DragAfterElement(y, mids) == Some(k) <==> IsClosestBelow(y, mids, k)
  {
    if IsClosestBelow(y, mids, k) {
      var r := DragAfterElement(y, mids);
      assert r.Some?;
      ClosestBelowUnique(y, mids, k, r.value);
    }
  }

  /** Three tasks with midpoints 10, 50 and 90 and the pointer at 45: the task
      is inserted before the one at 50. */
  lemma PointerBetweenFirstAndSecond()
    ensures DragAfterElement(45.0, [10.0, 50.0, 90.0]) == Some(1)
  {
    DragAfterElementIsClosestBelow(45.0, [10.0, 50.0, 90.0], 1);
  }
}
