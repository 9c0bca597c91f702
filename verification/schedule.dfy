/**
 * What a finished run looks like, whatever the policy: the timeline covers the
 * run without gap or overlap and each task's metrics agree with it.
 */
module Schedule {
  import opened Processes
  import opened Timeline

  /**
   * Task `i` is completed, it held the processor for exactly its burst, only
   * after it arrived, and its last segment ends at arrival + turnaround, with
   * waiting = turnaround - burst.
   */
  predicate Accounted(ts: seq<Process>, tl: seq<Segment>, i: nat)
    requires i < |ts|
  {
    && ts[i].state == Completed
    && ts[i].waiting == ts[i].turnaround - ts[i].burst
    && Busy(tl, Task(i)) == ts[i].burst
    && LastEnd(tl, Task(i)) == Some(Finish(ts[i]))
    && RunsFrom(tl, Task(i), ts[i].arrival)
  }

  /** Task `i` has not run yet: it is WAITING with its whole burst remaining and has no segment. */
  predicate Untouched(ts: seq<Process>, tl: seq<Segment>, i: nat)
    requires i < |ts|
  {
    && ts[i].state == Waiting
    && ts[i].remaining == ts[i].burst
    && Busy(tl, Task(i)) == 0
    && LastEnd(tl, Task(i)).None?
    && forall k :: 0 <= k < |tl| ==> tl[k].occupant != Task(i)
  }

  /** A finished run: the timeline covers [0, clock) and every task is accounted for. */
  predicate CompleteRun(ts: seq<Process>, tl: seq<Segment>, clock: int) {
    && Chain(tl, clock)
    && Occupants(tl, |ts|)
    && forall i :: 0 <= i < |ts| ==> Accounted(ts, tl, i)
  }

  /** Task `i` ran in one piece: each of its segments is exactly [Start, Finish). */
  predicate OnePiece(ts: seq<Process>, tl: seq<Segment>, i: nat)
    requires i < |ts|
  {
    forall k :: 0 <= k < |tl| && tl[k].occupant == Task(i) ==>
      tl[k].start == Start(ts[i]) && tl[k].end == Finish(ts[i])
  }

  /** The arrival times of the tasks, in task order. */
  function Arrivals(ts: seq<Process>): (r: seq<int>)
    ensures |r| == |ts| && forall j :: 0 <= j < |ts| ==> r[j] == ts[j].arrival
  {
    seq(|ts|, j requires 0 <= j < |ts| => ts[j].arrival)
  }

  /**
   * The processor idles only while nothing is ready: an idle segment ends at
   * some task's arrival, and every task that arrives before it ends had
   * already completed when it started.
   */
  predicate IdleOnlyWhenNothingReady(ts: seq<Process>, tl: seq<Segment>) {
    && (forall k, j :: 0 <= k < |tl| && 0 <= j < |ts| && tl[k].occupant == Idle && ts[j].arrival < tl[k].end ==>
          ts[j].state == Completed && Finish(ts[j]) <= tl[k].start)
    && (forall k :: 0 <= k < |tl| && tl[k].occupant == Idle ==> tl[k].end in Arrivals(ts))
  }

  /**
   * Idle segments stay justified when the timeline only gains task segments
   * and the tasks keep their arrivals, and completed tasks stay completed with
   * the same finish.
   */
  lemma {:induction false} IdleFrame(ts: seq<Process>, tl: seq<Segment>, ts2: seq<Process>, tl2: seq<Segment>)
    requires IdleOnlyWhenNothingReady(ts, tl)
    requires |ts2| == |ts|
    requires forall j :: 0 <= j < |ts| ==> ts2[j].arrival == ts[j].arrival
    requires forall j :: 0 <= j < |ts| && ts[j].state == Completed ==> ts2[j].state == Completed && Finish(ts2[j]) == Finish(ts[j])
    requires forall k :: 0 <= k < |tl2| && tl2[k].occupant == Idle ==> k < |tl| && tl2[k] == tl[k]
    ensures IdleOnlyWhenNothingReady(ts2, tl2)
  {
    forall k, j | 0 <= k < |tl2| && 0 <= j < |ts2| && tl2[k].occupant == Idle && ts2[j].arrival < tl2[k].end
      ensures ts2[j].state == Completed && Finish(ts2[j]) <= tl2[k].start
    {
      assert k < |tl| && tl2[k] == tl[k];
      assert ts[j].state == Completed;
    }
    assert Arrivals(ts2) == Arrivals(ts);
    forall k | 0 <= k < |tl2| && tl2[k].occupant == Idle
      ensures tl2[k].end in Arrivals(ts2)
    {
      assert k < |tl| && tl2[k] == tl[k];
    }
  }

  /**
   * Appending an idle segment that ends at some task's arrival, before which
   * every arriving task had completed by its start, keeps idle time justified.
   */
  lemma {:induction false} IdleAppend(ts: seq<Process>, tl: seq<Segment>, s: Segment, w: nat)
    requires IdleOnlyWhenNothingReady(ts, tl) && s.occupant == Idle
    requires forall j :: 0 <= j < |ts| && ts[j].arrival < s.end ==> ts[j].state == Completed && Finish(ts[j]) <= s.start
    requires w < |ts| && ts[w].arrival == s.end
    ensures IdleOnlyWhenNothingReady(ts, tl + [s])
  {
    var tl2 := tl + [s];
    forall k, j | 0 <= k < |tl2| && 0 <= j < |ts| && tl2[k].occupant == Idle && ts[j].arrival < tl2[k].end
      ensures ts[j].state == Completed && Finish(ts[j]) <= tl2[k].start
    {
      if k < |tl| {
        assert tl2[k] == tl[k];
      }
    }
    forall k | 0 <= k < |tl2| && tl2[k].occupant == Idle
      ensures tl2[k].end in Arrivals(ts)
    {
      if k < |tl| {
        assert tl2[k] == tl[k];
      } else {
        assert Arrivals(ts)[w] == tl2[k].end;
      }
    }
  }

  /**
   * The metrics of a finished run: every task waited a non-negative time,
   * turnaround = waiting + burst, and the final clock is the sum of the bursts
   * plus the idle time.
   */
  lemma {:induction false} RunTotals(ts: seq<Process>, tl: seq<Segment>, clock: int)
    requires CompleteRun(ts, tl, clock)
    ensures forall i :: 0 <= i < |ts| ==> ts[i].waiting >= 0 && ts[i].turnaround == ts[i].waiting + ts[i].burst
    ensures clock == SumBursts(ts) + Busy(tl, Idle)
  {
    forall i | 0 <= i < |ts|
      ensures ts[i].waiting >= 0 && ts[i].turnaround == ts[i].waiting + ts[i].burst
      ensures Busy(tl, Task(i)) == ts[i].burst
    {
      assert Accounted(ts, tl, i);
      BusyWithin(tl, clock, Task(i), ts[i].arrival);
    }
    ChainLength(tl, clock);
    LengthSplit(tl, |ts|);
    BusyTasksSum(ts, tl, |ts|);
    assert ts[..|ts|] == ts;
  }

  /** When each task's busy time is its burst, the busy time of the first `m` tasks sums their bursts. */
  lemma {:induction false} BusyTasksSum(ts: seq<Process>, tl: seq<Segment>, m: nat)
    requires m <= |ts|
    requires forall i :: 0 <= i < |ts| ==> Busy(tl, Task(i)) == ts[i].burst
    ensures BusyTasks(tl, m) == SumBursts(ts[..m])
    decreases m
  {
    if m > 0 {
      BusyTasksSum(ts, tl, m - 1);
      assert ts[..m][..m - 1] == ts[..m - 1];
    }
  }
}
