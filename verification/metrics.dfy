/**
 * The summary a finished run reports: the totals of the waiting and turnaround
 * times over all tasks, their averages, and the final clock as the total time.
 */
module Metrics {
  import opened Processes
  import opened Timeline
  import opened Schedule

  /** The figures shown after a run; an average is absent where the source divides 0 by 0. */
  datatype Summary = Summary(
    totalWaiting: int,
    totalTurnaround: int,
    averageWaiting: Option<real>,
    averageTurnaround: Option<real>,
    totalTime: int)

  /** `simTasks.reduce((s, t) => s + (t.waiting || 0), 0)`. */
  function TotalWaiting(ts: seq<Process>): int {
    if ts == [] then 0 else TotalWaiting(ts[..|ts| - 1]) + ts[|ts| - 1].waiting
  }

  /** `simTasks.reduce((s, t) => s + (t.turnaround || 0), 0)`. */
  function TotalTurnaround(ts: seq<Process>): int {
    if ts == [] then 0 else TotalTurnaround(ts[..|ts| - 1]) + ts[|ts| - 1].turnaround
  }

  /**
   * `total / n`: the number whose n-fold is the total; with no tasks the
   * source computes 0 / 0, which is not a number, modelled as None.
   */
  function Average(total: int, n: nat): (r: Option<real>)
    ensures r.None? <==> n == 0
    ensures r.Some? ==> r.value * n as real == total as real
  {
    if n == 0 then None else Some(total as real / n as real)
  }

  /** `finishMetrics(simTasks, curTime)` without its display. */
  function FinishMetrics(ts: seq<Process>, clock: int): (m: Summary)
    ensures m.totalTime == clock
    ensures m.averageWaiting.Some? <==> |ts| > 0
    ensures m.averageWaiting.Some? ==> m.averageWaiting.value * |ts| as real == m.totalWaiting as real
    ensures m.averageTurnaround.Some? ==> m.averageTurnaround.value * |ts| as real == m.totalTurnaround as real
  {
    var w := TotalWaiting(ts);
    var t := TotalTurnaround(ts);
    Summary(w, t, Average(w, |ts|), Average(t, |ts|), clock)
  }

  /** When every task's turnaround is its waiting plus its burst, the totals differ by the sum of the bursts. */
  lemma {:induction false} TurnaroundSplit(ts: seq<Process>)
    requires forall i :: 0 <= i < |ts| ==> ts[i].turnaround == ts[i].waiting + ts[i].burst
    ensures TotalTurnaround(ts) == TotalWaiting(ts) + SumBursts(ts)
    decreases |ts|
  {
    if ts != [] {
      var pre := ts[..|ts| - 1];
      assert forall i :: 0 <= i < |pre| ==> pre[i] == ts[i];
      TurnaroundSplit(pre);
    }
  }

  /** A sum of waiting times none of which is negative is not negative. */
  lemma {:induction false} WaitingNonnegative(ts: seq<Process>)
    requires forall i :: 0 <= i < |ts| ==> ts[i].waiting >= 0
    ensures TotalWaiting(ts) >= 0
    decreases |ts|
  {
    if ts != [] {
      var pre := ts[..|ts| - 1];
      assert forall i :: 0 <= i < |pre| ==> pre[i] == ts[i];
      WaitingNonnegative(pre);
    }
  }

  /**
   * The summary of any complete run: total waiting is not negative, total
   * turnaround is total waiting plus the sum of the bursts, and the total
   * time is the sum of the bursts plus the idle time.
   */
  lemma {:induction false} RunSummary(ts: seq<Process>, tl: seq<Segment>, clock: int)
    requires CompleteRun(ts, tl, clock)
    ensures FinishMetrics(ts, clock).totalWaiting >= 0
    ensures FinishMetrics(ts, clock).totalTurnaround == FinishMetrics(ts, clock).totalWaiting + SumBursts(ts)
    ensures FinishMetrics(ts, clock).totalTime == SumBursts(ts) + Busy(tl, Idle)
  {
    RunTotals(ts, tl, clock);
    WaitingNonnegative(ts);
    TurnaroundSplit(ts);
  }
}
