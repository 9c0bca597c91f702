/**
 * The process registry of the scheduling simulator: one record per task, holding
 * the inputs (id, arrival, burst, priority) and the run state a simulation
 * mutates (remaining, state, waiting, turnaround), plus the timeline segments
 * a run emits.
 */
module Processes {

  datatype Option<T> = None | Some(value: T)

  /** Lifecycle of a task inside one run; lower-case in the UI, upper-case in the drivers. */
  datatype State = Waiting | Running | Completed

  /** One schedulable task. A lower `priority` number means a more urgent task. */
  datatype Process = Process(
    id: int,
    arrival: int,
    burst: int,
    priority: int,
    remaining: int,
    state: State,
    waiting: int,
    turnaround: int)

  /** Who holds the processor during a segment: nobody, or the task at a position of the run's task list. */
  datatype Occupant = Idle | Task(index: nat)

  /** The processor is held by `occupant` from `start` up to (not including) `end`. */
  datatype Segment = Segment(occupant: Occupant, start: int, end: int)

  /** The instant a task first got the processor, as its metrics record it. */
  function Start(p: Process): int {
    p.arrival + p.waiting
  }

  /** The instant a task completed, as its metrics record it. */
  function Finish(p: Process): int {
    p.arrival + p.turnaround
  }

  /** The callers only ever build tasks with a burst of at least one time unit. */
  predicate ValidBursts(ts: seq<Process>) {
    forall i :: 0 <= i < |ts| ==> ts[i].burst >= 1
  }

  /** `p` and `q` were built from the same input fields. */
  predicate SameSpec(p: Process, q: Process) {
    p.id == q.id && p.arrival == q.arrival && p.burst == q.burst && p.priority == q.priority
  }

  /** Position by position, the tasks of `a` were built from the same inputs as those of `b`. */
  predicate SameSpecs(a: seq<Process>, b: seq<Process>) {
    |a| == |b| && forall i :: 0 <= i < |a| ==> SameSpec(a[i], b[i])
  }

  /** The positions 0, 1, ..., n-1 in order. */
  function Range(n: nat): (r: seq<nat>)
    ensures |r| == n
    ensures forall k :: 0 <= k < n ==> r[k] == k
  {
    seq(n, k requires 0 <= k < n => k)
  }

  /**
   * The initialisation every driver performs first: each task becomes WAITING
   * with its whole burst remaining; its inputs and previous metrics are kept.
   */
  function Reset(ts: seq<Process>): (r: seq<Process>)
    ensures SameSpecs(r, ts)
    ensures ValidBursts(ts) ==> ValidBursts(r)
    ensures forall i :: 0 <= i < |r| ==> r[i].state == Waiting && r[i].remaining == r[i].burst
  {
    seq(|ts|, i requires 0 <= i < |ts| => ts[i].(state := Waiting, remaining := ts[i].burst))
  }

  /** Sum of the bursts of all tasks. */
  function SumBursts(ts: seq<Process>): int {
    if ts == [] then 0 else SumBursts(ts[..|ts| - 1]) + ts[|ts| - 1].burst
  }

  /** Sum of the remaining times of all tasks. */
  function SumRemaining(ts: seq<Process>): int {
    if ts == [] then 0 else SumRemaining(ts[..|ts| - 1]) + ts[|ts| - 1].remaining
  }

  /** The number of tasks with nothing left to run. */
  function CountFinished(ts: seq<Process>): (r: nat)
    ensures r <= |ts|
  {
    if ts == [] then 0
    else CountFinished(ts[..|ts| - 1]) + (if ts[|ts| - 1].remaining == 0 then 1 else 0)
  }

  /** With no negative remaining time, the sum of remaining times is not negative. */
  lemma {:induction false} SumRemainingNonnegative(ts: seq<Process>)
    requires forall i :: 0 <= i < |ts| ==> ts[i].remaining >= 0
    ensures SumRemaining(ts) >= 0
    decreases |ts|
  {
    if ts != [] {
      SumRemainingNonnegative(ts[..|ts| - 1]);
    }
  }

  /** Changing one task's remaining time changes the sum of remaining times by the same amount. */
  lemma {:induction false} SumRemainingUpdate(ts: seq<Process>, j: nat, p: Process)
    requires j < |ts|
    ensures SumRemaining(ts[j := p]) == SumRemaining(ts) - ts[j].remaining + p.remaining
    decreases |ts|
  {
    var n := |ts|;
    if j < n - 1 {
      assert ts[j := p][..n - 1] == ts[..n - 1][j := p];
      SumRemainingUpdate(ts[..n - 1], j, p);
    } else {
      assert ts[j := p][..n - 1] == ts[..n - 1];
    }
  }

  /** Finishing one unfinished task adds one to the count of finished tasks; other updates keep it. */
  lemma {:induction false} CountFinishedUpdate(ts: seq<Process>, j: nat, p: Process)
    requires j < |ts|
    ensures CountFinished(ts[j := p]) ==
            CountFinished(ts) - (if ts[j].remaining == 0 then 1 else 0) + (if p.remaining == 0 then 1 else 0)
    decreases |ts|
  {
    var n := |ts|;
    if j < n - 1 {
      assert ts[j := p][..n - 1] == ts[..n - 1][j := p];
      CountFinishedUpdate(ts[..n - 1], j, p);
    } else {
      assert ts[j := p][..n - 1] == ts[..n - 1];
    }
  }

  /** While fewer tasks are finished than there are tasks, some task still has time remaining. */
  lemma {:induction false} SomeUnfinished(ts: seq<Process>) returns (j: nat)
    requires CountFinished(ts) < |ts|
    ensures j < |ts| && ts[j].remaining != 0
    decreases |ts|
  {
    var n := |ts|;
    if ts[n - 1].remaining != 0 {
      j := n - 1;
    } else {
      j := SomeUnfinished(ts[..n - 1]);
    }
  }

  /** When every task is finished, the count of finished tasks is the number of tasks. */
  lemma {:induction false} AllFinishedCount(ts: seq<Process>)
    requires forall i :: 0 <= i < |ts| ==> ts[i].remaining == 0
    ensures CountFinished(ts) == |ts|
    decreases |ts|
  {
    if ts != [] {
      AllFinishedCount(ts[..|ts| - 1]);
    }
  }

  /** When the count of finished tasks is the number of tasks, every task is finished. */
  lemma {:induction false} CountAllFinished(ts: seq<Process>)
    requires CountFinished(ts) == |ts|
    ensures forall i :: 0 <= i < |ts| ==> ts[i].remaining == 0
    decreases |ts|
  {
    if ts != [] {
      var pre := ts[..|ts| - 1];
      CountAllFinished(pre);
      assert forall i :: 0 <= i < |pre| ==> ts[i] == pre[i];
    }
  }
}
