/**
 * The timeline a run records: segments appended one after another, each holding
 * the processor for a non-empty interval, with no gap between consecutive ones.
 */
module Timeline {
  import opened Processes

  /**
   * `tl` covers the interval from 0 to `clock` without gap: every segment is
   * non-empty and starts where the previous one ended, the first at 0.
   */
  predicate Chain(tl: seq<Segment>, clock: int)
    decreases |tl|
  {
    if tl == [] then clock == 0
    else
      var s := tl[|tl| - 1];
      s.end == clock && s.start < s.end && Chain(tl[..|tl| - 1], s.start)
  }

  /** Every occupant of `tl` is idle or a task position below `n`. */
  predicate Occupants(tl: seq<Segment>, n: nat) {
    forall k :: 0 <= k < |tl| && tl[k].occupant.Task? ==> tl[k].occupant.index < n
  }

  /** Total time `o` holds the processor in `tl`. */
  function Busy(tl: seq<Segment>, o: Occupant): int
    decreases |tl|
  {
    if tl == [] then 0
    else
      var s := tl[|tl| - 1];
      Busy(tl[..|tl| - 1], o) + (if s.occupant == o then s.end - s.start else 0)
  }

  /** The end of the last segment of `o` in `tl`, if it has one. */
  function LastEnd(tl: seq<Segment>, o: Occupant): Option<int>
    decreases |tl|
  {
    if tl == [] then None
    else if tl[|tl| - 1].occupant == o then Some(tl[|tl| - 1].end)
    else LastEnd(tl[..|tl| - 1], o)
  }

  /** Every segment of `o` in `tl` starts at or after `from`. */
  predicate RunsFrom(tl: seq<Segment>, o: Occupant, from: int) {
    forall k :: 0 <= k < |tl| && tl[k].occupant == o ==> from <= tl[k].start
  }

  /** Total length of all segments. */
  function Length(tl: seq<Segment>): int
    decreases |tl|
  {
    if tl == [] then 0 else Length(tl[..|tl| - 1]) + (tl[|tl| - 1].end - tl[|tl| - 1].start)
  }

  /** Sum over the task positions below `n` of the time each holds the processor. */
  function BusyTasks(tl: seq<Segment>, n: nat): int
    decreases n
  {
    if n == 0 then 0 else BusyTasks(tl, n - 1) + Busy(tl, Task(n - 1))
  }

  /** Appending one segment: how each summary of a timeline changes. */
  lemma {:induction false} AppendFacts(tl: seq<Segment>, s: Segment)
    ensures (tl + [s])[..|tl|] == tl
    ensures forall o :: Busy(tl + [s], o) == Busy(tl, o) + (if s.occupant == o then s.end - s.start else 0)
    ensures forall o :: LastEnd(tl + [s], o) == (if s.occupant == o then Some(s.end) else LastEnd(tl, o))
    ensures Length(tl + [s]) == Length(tl) + (s.end - s.start)
    ensures Chain(tl + [s], s.end) <==> s.start < s.end && Chain(tl, s.start)
    ensures forall o, from :: RunsFrom(tl + [s], o, from) <==> RunsFrom(tl, o, from) && (s.occupant == o ==> from <= s.start)
    ensures forall n :: Occupants(tl + [s], n) <==> Occupants(tl, n) && (s.occupant.Task? ==> s.occupant.index < n)
  {
    assert (tl + [s])[..|tl|] == tl;
  }

  /**
   * A chain is a contiguous, non-overlapping cover of [0, clock): it starts at 0,
   * each segment is non-empty and ends where the next begins, the last ends at
   * `clock`, and an earlier segment never reaches past the start of a later one.
   */
  lemma {:induction false} ChainContiguous(tl: seq<Segment>, clock: int)
    requires Chain(tl, clock)
    ensures |tl| == 0 ==> clock == 0
    ensures |tl| > 0 ==> tl[0].start == 0 && tl[|tl| - 1].end == clock
    ensures forall k :: 0 <= k < |tl| ==> 0 <= tl[k].start < tl[k].end <= clock
    ensures forall k :: 0 <= k < |tl| - 1 ==> tl[k].end == tl[k + 1].start
    ensures forall k, l :: 0 <= k < l < |tl| ==> tl[k].end <= tl[l].start
    decreases |tl|
  {
    if tl != [] {
      var pre := tl[..|tl| - 1];
      var s := tl[|tl| - 1];
      ChainContiguous(pre, s.start);
      assert forall k :: 0 <= k < |pre| ==> tl[k] == pre[k];
    }
  }

  /** The clock a chain ends at is the total length of its segments. */
  lemma {:induction false} ChainLength(tl: seq<Segment>, clock: int)
    requires Chain(tl, clock)
    ensures Length(tl) == clock
    decreases |tl|
  {
    if tl != [] {
      ChainLength(tl[..|tl| - 1], tl[|tl| - 1].start);
    }
  }

  /** The length of a timeline splits into idle time plus the time of each task below `n`. */
  lemma {:induction false} LengthSplit(tl: seq<Segment>, n: nat)
    requires Occupants(tl, n)
    ensures Length(tl) == Busy(tl, Idle) + BusyTasks(tl, n)
    decreases |tl|
  {
    if tl != [] {
      var pre := tl[..|tl| - 1];
      var s := tl[|tl| - 1];
      assert Occupants(pre, n) by {
        forall k | 0 <= k < |pre| && pre[k].occupant.Task?
          ensures pre[k].occupant.index < n
        {
          assert pre[k] == tl[k];
        }
      }
      LengthSplit(pre, n);
      assert tl == pre + [s];
      AppendFacts(pre, s);
      BusyTasksStep(pre, s, n);
      if s.occupant.Task? {
        assert tl[|tl| - 1].occupant.index < n;
      }
    } else {
      BusyTasksEmpty(n);
    }
  }

  lemma {:induction false} BusyTasksEmpty(n: nat)
    ensures BusyTasks([], n) == 0
    decreases n
  {
    if n > 0 {
      BusyTasksEmpty(n - 1);
    }
  }

  /** Appending `s` adds its length to BusyTasks exactly when it is held by a task below `n`. */
  lemma {:induction false} BusyTasksStep(pre: seq<Segment>, s: Segment, n: nat)
    ensures BusyTasks(pre + [s], n) ==
            BusyTasks(pre, n) + (if s.occupant.Task? && s.occupant.index < n then s.end - s.start else 0)
    decreases n
  {
    AppendFacts(pre, s);
    if n > 0 {
      BusyTasksStep(pre, s, n - 1);
    }
  }

  /** The last segment of `o` in a chain ends no later than the chain's clock. */
  lemma {:induction false} LastEndWithin(tl: seq<Segment>, clock: int, o: Occupant)
    requires Chain(tl, clock)
    ensures LastEnd(tl, o).Some? ==> LastEnd(tl, o).value <= clock
    decreases |tl|
  {
    if tl != [] && tl[|tl| - 1].occupant != o {
      LastEndWithin(tl[..|tl| - 1], tl[|tl| - 1].start, o);
    }
  }

  /** An occupant without a last segment has no segment at all, so no busy time. */
  lemma {:induction false} NoLastEndNoBusy(tl: seq<Segment>, o: Occupant)
    requires LastEnd(tl, o).None?
    ensures Busy(tl, o) == 0
    decreases |tl|
  {
    if tl != [] {
      NoLastEndNoBusy(tl[..|tl| - 1], o);
    }
  }

  /**
   * If every segment of `o` starts at or after `from`, the time `o` held the
   * processor fits between `from` and the end of its last segment.
   */
  lemma {:induction false} BusyWithin(tl: seq<Segment>, clock: int, o: Occupant, from: int)
    requires Chain(tl, clock)
    requires RunsFrom(tl, o, from)
    requires LastEnd(tl, o).Some?
    ensures Busy(tl, o) <= LastEnd(tl, o).value - from
    decreases |tl|
  {
    var pre := tl[..|tl| - 1];
    var s := tl[|tl| - 1];
    assert RunsFrom(pre, o, from) by {
      forall k | 0 <= k < |pre| && pre[k].occupant == o
        ensures from <= pre[k].start
      {
        assert pre[k] == tl[k];
      }
    }
    if s.occupant == o {
      assert from <= s.start by {
        assert tl[|tl| - 1] == s;
      }
      if LastEnd(pre, o).Some? {
        BusyWithin(pre, s.start, o, from);
        LastEndWithin(pre, s.start, o);
      } else {
        NoLastEndNoBusy(pre, o);
      }
    } else {
      BusyWithin(pre, s.start, o, from);
    }
  }
}
