// The undo/redo history of src/history.rs: a bounded list of register
// snapshots to step back through and a list of the snapshots stepped back
// over, to step forward through again. Both lists are deques whose back is
// the most recent entry; here they are sequences whose last element is the
// back.
module Histories {
  import opened Numbers

  /** The two lists and the bound, as a value. */
  datatype Snapshots = Snapshots(backward: seq<NumberState>, forward: seq<NumberState>, maxSize: nat)

  /**
   * `save(n)`: when the backward list is full, its oldest entry is dropped
   * (dropping from an empty list does nothing), n is pushed on the back,
   * and the forward list is cleared.
   */
  function AfterSave(h: Snapshots, n: NumberState): Snapshots
  {
    var kept := if |h.backward| + 1 > h.maxSize && |h.backward| > 0 then h.backward[1..] else h.backward;
    h.(backward := kept + [n], forward := [])
  }

  /**
   * `backward()`: with a single entry, that entry and no change; otherwise
   * the last entry moves onto the forward list and the new last entry is
   * the result.
   */
  function AfterBackward(h: Snapshots): (Snapshots, NumberState)
    requires |h.backward| >= 1
  {
    if |h.backward| == 1 then
      (h, h.backward[0])
    else
      var b := h.backward[..|h.backward| - 1];
      (h.(backward := b, forward := h.forward + [h.backward[|h.backward| - 1]]), b[|b| - 1])
  }

  /**
   * `forward()`: with nothing to step forward to, the last backward entry
   * and no change (the only case that reads the backward list); otherwise the last forward entry moves onto the backward
   * list and is the result.
   */
  function AfterForward(h: Snapshots): (Snapshots, NumberState)
    requires |h.forward| > 0 || |h.backward| >= 1
  {
    if |h.forward| == 0 then
      (h, h.backward[|h.backward| - 1])
    else
      var n := h.forward[|h.forward| - 1];
      (h.(backward := h.backward + [n], forward := h.forward[..|h.forward| - 1]), n)
  }

  /** The larger of the bound and one: `save` always keeps the entry it pushed. */
  function Capacity(maxSize: nat): nat
  {
    if maxSize == 0 then 1 else maxSize
  }

  /**
   * Saving keeps the backward list within the bound (and within one for a
   * zero bound), puts the snapshot last, empties the forward list, and
   * keeps the most recent earlier entries in order: all of them while the
   * list has room, all but the oldest otherwise.
   */
  lemma SaveBounded(h: Snapshots, n: NumberState)
    requires |h.backward| <= Capacity(h.maxSize)
    ensures var t := AfterSave(h, n);
      |t.backward| <= Capacity(h.maxSize) && t.backward[|t.backward| - 1] == n
      && t.forward == [] && t.maxSize == h.maxSize
    ensures var t := AfterSave(h, n);
      |h.backward| < h.maxSize ==> t.backward == h.backward + [n]
    ensures var t := AfterSave(h, n);
      |h.backward| >= h.maxSize && |h.backward| > 0 ==> t.backward == h.backward[1..] + [n]
    ensures var t := AfterSave(h, n);
      |h.backward| >= 1 && Capacity(h.maxSize) >= 2 ==> t.backward[|t.backward| - 2] == h.backward[|h.backward| - 1]
  {
  }

  /**
   * Stepping back over a single entry changes nothing and yields that
   * entry. Stepping back from two or more entries moves the last backward
   * entry onto the forward list and yields the entry before it, the new
   * last backward entry. The total number of snapshots is unchanged.
   */
  lemma BackwardMoves(h: Snapshots)
    requires |h.backward| >= 1
    ensures |h.backward| == 1 ==> AfterBackward(h) == (h, h.backward[0])
    ensures var (t, n) := AfterBackward(h);
      |t.backward| >= 1 && n == t.backward[|t.backward| - 1]
      && |t.backward| + |t.forward| == |h.backward| + |h.forward| && t.maxSize == h.maxSize
    ensures |h.backward| >= 2 ==> var (t, n) := AfterBackward(h);
      t.backward + [h.backward[|h.backward| - 1]] == h.backward
      && t.forward == h.forward + [h.backward[|h.backward| - 1]]
      && n == h.backward[|h.backward| - 2]
  {
    if |h.backward| >= 2 {
      var (t, n) := AfterBackward(h);
      assert t.backward + [h.backward[|h.backward| - 1]] == h.backward;
    }
  }

  /**
   * Stepping forward yields the last backward entry when there is nothing
   * to redo, and otherwise moves the last forward entry onto the backward
   * list and yields it; the total number of snapshots is unchanged and the
   * result is always the new last backward entry.
   */
  lemma ForwardMoves(h: Snapshots)
    requires |h.forward| > 0 || |h.backward| >= 1
    ensures var (t, n) := AfterForward(h);
      |t.backward| >= 1 && n == t.backward[|t.backward| - 1]
      && |t.backward| + |t.forward| == |h.backward| + |h.forward| && t.maxSize == h.maxSize
    ensures |h.forward| == 0 ==> AfterForward(h) == (h, h.backward[|h.backward| - 1])
    ensures |h.forward| > 0 ==> var (t, n) := AfterForward(h);
      n == h.forward[|h.forward| - 1] && t.backward == h.backward + [n]
      && t.forward + [n] == h.forward
  {
    if |h.forward| > 0 {
      var (t, n) := AfterForward(h);
      assert t.forward + [n] == h.forward;
    }
  }

  /** Stepping back and then forward again restores both lists and yields the entry stepped back from. */
  lemma BackwardThenForward(h: Snapshots)
    requires |h.backward| >= 2
    ensures var (t, _) := AfterBackward(h);
      |t.backward| >= 1 && AfterForward(t) == (h, h.backward[|h.backward| - 1])
  {
    var (t, _) := AfterBackward(h);
    var last := h.backward[|h.backward| - 1];
    assert t.backward + [last] == h.backward;
    assert t.forward[..|t.forward| - 1] == h.forward;
  }

  /** Saving after stepping back forgets everything that could have been stepped forward to. */
  lemma SaveForgetsRedo(h: Snapshots, n: NumberState)
    requires |h.backward| >= 1
    ensures AfterForward(AfterSave(h, n)) == (AfterSave(h, n), n)
  {
  }

  /** `History`: the backward and forward lists of snapshots and the bound on the backward list. */
  class History {
    var backwardList: seq<NumberState>
    var forwardList: seq<NumberState>
    var maxSize: nat

    function State(): Snapshots
      reads this
    {
      Snapshots(backwardList, forwardList, maxSize)
    }

    /** `History::new`: two empty lists. */
    constructor (maxSize: nat)
      ensures State() == Snapshots([], [], maxSize)
    {
      backwardList := [];
      forwardList := [];
      this.maxSize := maxSize;
    }

    /** `save`: record a snapshot, dropping the oldest when full and forgetting the redo list. */
    method Save(number: NumberState)
      modifies this
      ensures State() == AfterSave(old(State()), number)
    {
      if |backwardList| + 1 > maxSize {
        // pop_front, which does nothing on an empty deque
        if |backwardList| > 0 {
          backwardList := backwardList[1..];
        }
      }
      backwardList := backwardList + [number];
      if |forwardList| != 0 {
        forwardList := [];
      }
    }

    /** `backward`: step back one snapshot (the `unwrap`s need a non-empty backward list). */
    method Backward() returns (number: NumberState)
      requires |backwardList| >= 1
      modifies this
      ensures (State(), number) == AfterBackward(old(State()))
    {
      if |backwardList| == 1 {
        number := backwardList[|backwardList| - 1];
      } else {
        var popped := backwardList[|backwardList| - 1];
        backwardList := backwardList[..|backwardList| - 1];
        forwardList := forwardList + [popped];
        number := backwardList[|backwardList| - 1];
      }
    }

    /**
     * `forward`: step forward one snapshot, or stay at the last backward
     * entry (the `unwrap` needs a backward entry only when the forward list
     * is empty).
     */
    method Forward() returns (number: NumberState)
      requires |forwardList| > 0 || |backwardList| >= 1
      modifies this
      ensures (State(), number) == AfterForward(old(State()))
    {
      if |forwardList| == 0 {
        number := backwardList[|backwardList| - 1];
      } else {
        number := forwardList[|forwardList| - 1];
        forwardList := forwardList[..|forwardList| - 1];
        backwardList := backwardList + [number];
      }
    }
  }
}
