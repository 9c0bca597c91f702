/**
 * What the run-to-completion policies (FCFS and the non-preemptive SJF,
 * Priority and Focus) have in common: a dispatched task holds the processor
 * for its whole burst in one segment, and an idle processor jumps to the next
 * arrival. The invariant of such a run and the two steps that keep it.
 */
module WholeBurst {
  import opened Processes
  import opened Timeline
  import opened Ordering
  import opened Schedule

  /**
   * A run in progress at `clock`: the timeline covers [0, clock); every
   * completed task is accounted for, ran in one piece after it arrived and
   * kept its whole burst as remaining time; every other task is untouched.
   */
  predicate Progress(ts: seq<Process>, tl: seq<Segment>, clock: int) {
    && ValidBursts(ts)
    && Chain(tl, clock)
    && Occupants(tl, |ts|)
    && (forall i :: 0 <= i < |ts| && ts[i].state == Completed ==>
          && Accounted(ts, tl, i)
          && OnePiece(ts, tl, i)
          && ts[i].remaining == ts[i].burst
          && ts[i].arrival <= Start(ts[i])
          && Finish(ts[i]) <= clock)
    && (forall i :: 0 <= i < |ts| && ts[i].state != Completed ==> Untouched(ts, tl, i))
  }

  /**
   * Each dispatch chose by `key`: a completed task `i` Precedes every other task
   * that had arrived when `i` started and was still waiting then (not
   * completed yet, or started later).
   */
  predicate Dispatched(key: Key, ts: seq<Process>) {
    forall i, j :: 0 <= i < |ts| && 0 <= j < |ts| && i != j && ts[i].state == Completed &&
                   ts[j].arrival <= Start(ts[i]) && (ts[j].state != Completed || Start(ts[i]) < Start(ts[j])) ==>
      Precedes(key, ts, i, j)
  }

  /** Task `p` run to completion from `clock`: its metrics filled in, the rest unchanged. */
  function Complete(ts: seq<Process>, p: nat, clock: int): (r: seq<Process>)
    requires p < |ts|
    ensures |r| == |ts| && SameSpecs(r, ts)
    ensures r[p].state == Completed && Start(r[p]) == clock && Finish(r[p]) == clock + ts[p].burst
    ensures r[p].remaining == ts[p].remaining
    ensures forall i :: 0 <= i < |ts| && i != p ==> r[i] == ts[i]
  {
    ts[p := ts[p].(state := Completed, waiting := clock - ts[p].arrival, turnaround := clock + ts[p].burst - ts[p].arrival)]
  }

  /** Comparators read only the inputs and the remaining time, so metric updates leave Precedes alone. */
  lemma {:induction false} PrecedesFrame(key: Key, ts: seq<Process>, ts2: seq<Process>, i: nat, j: nat)
    requires i < |ts| && j < |ts| && SameSpecs(ts2, ts)
    requires ts2[i].remaining == ts[i].remaining && ts2[j].remaining == ts[j].remaining
    ensures Precedes(key, ts2, i, j) == Precedes(key, ts, i, j)
  {
    assert SameSpec(ts2[i], ts[i]) && SameSpec(ts2[j], ts[j]);
  }

  /** Running an arrived, untouched task that Precedes every other arrived waiting task keeps the invariant. */
  lemma {:induction false} RunStep(key: Key, ts: seq<Process>, tl: seq<Segment>, clock: int, p: nat,
                ts2: seq<Process>, tl2: seq<Segment>, clock2: int)
    requires Progress(ts, tl, clock) && Dispatched(key, ts) && IdleOnlyWhenNothingReady(ts, tl)
    requires p < |ts| && ts[p].state != Completed && ts[p].arrival <= clock
    requires forall j :: 0 <= j < |ts| && j != p && ts[j].state != Completed && ts[j].arrival <= clock ==>
               Precedes(key, ts, p, j)
    requires ts2 == Complete(ts, p, clock) && clock2 == clock + ts[p].burst
    requires tl2 == tl + [Segment(Task(p), clock, clock2)]
    ensures Progress(ts2, tl2, clock2) && Dispatched(key, ts2) && IdleOnlyWhenNothingReady(ts2, tl2)
  {
    var s := Segment(Task(p), clock, clock2);
    AppendFacts(tl, s);
    assert Untouched(ts, tl, p);
    forall i | 0 <= i < |ts2| && ts2[i].state == Completed
      ensures Accounted(ts2, tl2, i) && OnePiece(ts2, tl2, i) && Finish(ts2[i]) <= clock2
    {
      if i != p {
        assert Accounted(ts, tl, i) && OnePiece(ts, tl, i);
      }
    }
    forall i | 0 <= i < |ts2| && ts2[i].state != Completed
      ensures Untouched(ts2, tl2, i)
    {
      assert Untouched(ts, tl, i);
    }
    assert Progress(ts2, tl2, clock2);
    forall i, j | 0 <= i < |ts2| && 0 <= j < |ts2| && i != j && ts2[i].state == Completed &&
                  ts2[j].arrival <= Start(ts2[i]) && (ts2[j].state != Completed || Start(ts2[i]) < Start(ts2[j]))
      ensures Precedes(key, ts2, i, j)
    {
      PrecedesFrame(key, ts, ts2, i, j);
      if i != p && j == p {
        assert Start(ts[i]) < Finish(ts[i]) <= clock;
      }
    }
    IdleFrame(ts, tl, ts2, tl2);
  }

  /**
   * Idling from `clock` to a later `next`, the arrival of task `w`, while no
   * waiting task arrives before `next`, keeps the invariant.
   */
  lemma {:induction false} IdleStep(key: Key, ts: seq<Process>, tl: seq<Segment>, clock: int, next: int, w: nat)
    requires Progress(ts, tl, clock) && Dispatched(key, ts) && IdleOnlyWhenNothingReady(ts, tl)
    requires clock < next && w < |ts| && ts[w].arrival == next
    requires forall j :: 0 <= j < |ts| && ts[j].state != Completed ==> next <= ts[j].arrival
    ensures Progress(ts, tl + [Segment(Idle, clock, next)], next)
    ensures IdleOnlyWhenNothingReady(ts, tl + [Segment(Idle, clock, next)])
  {
    var s := Segment(Idle, clock, next);
    var tl2 := tl + [s];
    AppendFacts(tl, s);
    forall i | 0 <= i < |ts| && ts[i].state == Completed
      ensures Accounted(ts, tl2, i) && OnePiece(ts, tl2, i)
    {
      assert Accounted(ts, tl, i) && OnePiece(ts, tl, i);
    }
    forall i | 0 <= i < |ts| && ts[i].state != Completed
      ensures Untouched(ts, tl2, i)
    {
      assert Untouched(ts, tl, i);
    }
    IdleAppend(ts, tl, s, w);
  }

  /**
   * One dispatch: the task is marked RUNNING, its waiting time is the time
   * since its arrival, it holds the processor for its whole burst, and it is
   * marked COMPLETED with its turnaround time.
   */
  method RunWhole(ts: seq<Process>, tl: seq<Segment>, clock: int, p: nat)
    returns (ts2: seq<Process>, tl2: seq<Segment>, clock2: int)
    requires p < |ts|
    ensures ts2 == Complete(ts, p, clock)
    ensures tl2 == tl + [Segment(Task(p), clock, clock2)]
    ensures clock2 == clock + ts[p].burst
  {
    ts2 := ts[p := ts[p].(state := Running)];
    ts2 := ts2[p := ts2[p].(waiting := clock - ts2[p].arrival)];
    tl2 := tl + [Segment(Task(p), clock, clock + ts2[p].burst)];
    clock2 := clock + ts2[p].burst;
    ts2 := ts2[p := ts2[p].(turnaround := clock2 - ts2[p].arrival, state := Completed)];
  }

  /** A run begins at 0 with an empty timeline and every task untouched. */
  lemma {:induction false} Begin(key: Key, ts: seq<Process>)
    requires ValidBursts(ts)
    requires forall i :: 0 <= i < |ts| ==> ts[i].state == Waiting && ts[i].remaining == ts[i].burst
    ensures Progress(ts, [], 0) && Dispatched(key, ts) && IdleOnlyWhenNothingReady(ts, [])
  {
  }

  /** A run with every task completed is a complete run. */
  lemma {:induction false} End(ts: seq<Process>, tl: seq<Segment>, clock: int)
    requires Progress(ts, tl, clock)
    requires forall i :: 0 <= i < |ts| ==> ts[i].state == Completed
    ensures CompleteRun(ts, tl, clock)
    ensures forall i :: 0 <= i < |ts| ==> ts[i].remaining == ts[i].burst && OnePiece(ts, tl, i)
  {
  }
}
