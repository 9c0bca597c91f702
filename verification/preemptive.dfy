/**
 * The unit-step policies (preemptive SJF, SRTF, preemptive Priority and
 * preemptive Focus): at every time unit the policy picks one of the available
 * tasks and runs it for one unit; a task keeps one open segment while it stays
 * picked, and the segment is closed when another task is picked or it
 * completes. With nothing available the processor idles to the earliest
 * arrival among the unfinished tasks.
 */
module Preemptive {
  import opened Processes
  import opened Timeline
  import opened Ordering
  import opened Selectors
  import opened Schedule

  /** The timeline with the running task's open segment closed at `clock`. */
  function Closed(tl: seq<Segment>, current: Option<nat>, lastStart: int, clock: int): (r: seq<Segment>)
    ensures current.None? ==> r == tl
    ensures current.Some? ==> r == tl + [Segment(Task(current.value), lastStart, clock)]
  {
    if current.Some? then tl + [Segment(Task(current.value), lastStart, clock)] else tl
  }

  /**
   * Task `j` as of `clock`: it has held the processor for its burst minus its
   * remaining time, only after it arrived; with no time remaining it is
   * accounted for, otherwise it is WAITING.
   */
  predicate Tracked(ts: seq<Process>, tl: seq<Segment>, clock: int, j: nat)
    requires j < |ts|
  {
    && 0 <= ts[j].remaining <= ts[j].burst
    && Busy(tl, Task(j)) == ts[j].burst - ts[j].remaining
    && RunsFrom(tl, Task(j), ts[j].arrival)
    && (ts[j].remaining == 0 ==> Accounted(ts, tl, j) && Finish(ts[j]) <= clock)
    && (ts[j].remaining > 0 ==> ts[j].state == Waiting)
  }

  /**
   * The loop variables of a unit-step driver, with the open segment closed at
   * `clock` in `tlc`: `completed` counts the finished tasks, the timeline
   * covers [0, clock), every task is tracked, and the processor idled only
   * while nothing was ready.
   */
  predicate Stepping(ts: seq<Process>, tlc: seq<Segment>, clock: int, completed: nat) {
    && ValidBursts(ts)
    && completed == CountFinished(ts)
    && Chain(tlc, clock)
    && Occupants(tlc, |ts|)
    && (forall j :: 0 <= j < |ts| ==> Tracked(ts, tlc, clock, j))
    && IdleOnlyWhenNothingReady(ts, tlc)
  }

  /** The running task, if any, is unfinished, had arrived when its open segment began, and has run since. */
  predicate OpenSegment(ts: seq<Process>, current: Option<nat>, lastStart: int, clock: int) {
    current.Some? ==>
      current.value < |ts| && AvailableTask(ts, current.value, clock) && ts[current.value].arrival <= lastStart < clock
  }

  /** Task `p` after running one more time unit, up to `clock2`; on reaching zero it completes. */
  function Ran(p: Process, clock2: int): (r: Process)
    ensures SameSpec(r, p) && r.remaining == p.remaining - 1
    ensures r.remaining == 0 ==> r.state == Completed && Finish(r) == clock2 && r.waiting == r.turnaround - r.burst
    ensures r.remaining != 0 ==> r == p.(remaining := p.remaining - 1)
  {
    var q := p.(remaining := p.remaining - 1);
    if q.remaining == 0 then q.(turnaround := clock2 - q.arrival, waiting := clock2 - q.arrival - q.burst, state := Completed)
    else q
  }

  /**
   * One time unit of task `r`, which was available at `clock`: whatever the
   * timeline `tlc2` it leads to, if it adds the unit to `r` and changes nothing
   * else the invariant cares about, the invariant holds after the unit.
   */
  lemma {:induction false} UnitKeeps(ts: seq<Process>, tlc: seq<Segment>, clock: int, completed: nat, r: nat, tlc2: seq<Segment>, clock2: int)
    requires Stepping(ts, tlc, clock, completed)
    requires r < |ts| && AvailableTask(ts, r, clock) && clock2 == clock + 1
    requires Chain(tlc2, clock2) && Occupants(tlc2, |ts|)
    requires forall o :: Busy(tlc2, o) == Busy(tlc, o) + (if o == Task(r) then 1 else 0)
    requires forall o :: o != Task(r) ==> LastEnd(tlc2, o) == LastEnd(tlc, o)
    requires LastEnd(tlc2, Task(r)) == Some(clock2)
    requires RunsFrom(tlc2, Task(r), ts[r].arrival)
    requires forall o, from :: o != Task(r) && RunsFrom(tlc, o, from) ==> RunsFrom(tlc2, o, from)
    requires forall k :: 0 <= k < |tlc2| && tlc2[k].occupant == Idle ==> k < |tlc| && tlc2[k] == tlc[k]
    ensures Stepping(ts[r := Ran(ts[r], clock2)], tlc2, clock2, completed + (if ts[r].remaining == 1 then 1 else 0))
  {
    var ts2 := ts[r := Ran(ts[r], clock2)];
    CountFinishedUpdate(ts, r, ts2[r]);
    assert Tracked(ts, tlc, clock, r);
    forall j | 0 <= j < |ts2|
      ensures Tracked(ts2, tlc2, clock2, j)
    {
      assert Tracked(ts, tlc, clock, j);
      if j != r {
        assert ts2[j] == ts[j];
        assert Busy(tlc2, Task(j)) == Busy(tlc, Task(j));
        assert RunsFrom(tlc2, Task(j), ts[j].arrival);
      }
    }
    IdleUnchanged(ts, tlc, r, ts2, tlc2);
  }

  /** Running an available task `r` adds no idle segment, so idle time stays justified. */
  lemma {:induction false} IdleUnchanged(ts: seq<Process>, tlc: seq<Segment>, r: nat, ts2: seq<Process>, tlc2: seq<Segment>)
    requires IdleOnlyWhenNothingReady(ts, tlc)
    requires r < |ts| && |ts2| == |ts| && ts[r].state == Waiting
    requires forall j :: 0 <= j < |ts| && j != r ==> ts2[j] == ts[j]
    requires ts2[r].arrival == ts[r].arrival
    requires forall k :: 0 <= k < |tlc2| && tlc2[k].occupant == Idle ==> k < |tlc| && tlc2[k] == tlc[k]
    ensures IdleOnlyWhenNothingReady(ts2, tlc2)
  {
    assert forall j :: 0 <= j < |ts| && j != r ==> ts2[j] == ts[j];
    IdleFrame(ts, tlc, ts2, tlc2);
  }

  /** A unit run by a newly picked task opens a new segment [clock, clock + 1). */
  lemma {:induction false} AppendUnit(ts: seq<Process>, tlc: seq<Segment>, clock: int, completed: nat, r: nat)
    requires Stepping(ts, tlc, clock, completed)
    requires r < |ts| && AvailableTask(ts, r, clock)
    ensures Stepping(ts[r := Ran(ts[r], clock + 1)], tlc + [Segment(Task(r), clock, clock + 1)], clock + 1,
                     completed + (if ts[r].remaining == 1 then 1 else 0))
  {
    var s := Segment(Task(r), clock, clock + 1);
    AppendFacts(tlc, s);
    assert Tracked(ts, tlc, clock, r);
    UnitKeeps(ts, tlc, clock, completed, r, tlc + [s], clock + 1);
  }

  /** A unit run by the task already running extends its open segment to `clock + 1`. */
  lemma {:induction false} ExtendUnit(ts: seq<Process>, tl: seq<Segment>, clock: int, completed: nat, r: nat, lastStart: int)
    requires Stepping(ts, tl + [Segment(Task(r), lastStart, clock)], clock, completed)
    requires r < |ts| && AvailableTask(ts, r, clock)
    ensures Stepping(ts[r := Ran(ts[r], clock + 1)], tl + [Segment(Task(r), lastStart, clock + 1)], clock + 1,
                     completed + (if ts[r].remaining == 1 then 1 else 0))
  {
    var s := Segment(Task(r), lastStart, clock);
    var s2 := Segment(Task(r), lastStart, clock + 1);
    AppendFacts(tl, s);
    AppendFacts(tl, s2);
    assert Tracked(ts, tl + [s], clock, r);
    UnitKeeps(ts, tl + [s], clock, completed, r, tl + [s2], clock + 1);
  }

  /**
   * Idling from `clock` to `next`, the arrival of task `w`, while no task is
   * available and no unfinished task arrives before `next`, keeps the invariant.
   */
  lemma {:induction false} IdleKeeps(ts: seq<Process>, tl: seq<Segment>, clock: int, completed: nat, next: int, w: nat)
    requires Stepping(ts, tl, clock, completed) && clock < next
    requires forall j :: 0 <= j < |ts| ==> !AvailableTask(ts, j, clock)
    requires forall j :: 0 <= j < |ts| && ts[j].remaining > 0 ==> next <= ts[j].arrival
    requires w < |ts| && ts[w].arrival == next
    ensures Stepping(ts, tl + [Segment(Idle, clock, next)], next, completed)
  {
    var s := Segment(Idle, clock, next);
    var tl2 := tl + [s];
    AppendFacts(tl, s);
    forall j | 0 <= j < |ts|
      ensures Tracked(ts, tl2, next, j)
    {
      assert Tracked(ts, tl, clock, j);
    }
    forall j | 0 <= j < |ts| && ts[j].arrival < s.end
      ensures ts[j].state == Completed && Finish(ts[j]) <= s.start
    {
      assert Tracked(ts, tl, clock, j);
    }
    IdleAppend(ts, tl, s, w);
  }

  /** A reset task list starts the loop in its invariant, with nothing finished and an empty timeline. */
  lemma {:induction false} Init(ts: seq<Process>)
    requires ValidBursts(ts)
    requires forall i :: 0 <= i < |ts| ==> ts[i].state == Waiting && ts[i].remaining == ts[i].burst
    ensures Stepping(ts, [], 0, 0)
  {
    NoneFinished(ts);
  }

  /** With every burst still ahead, no task is finished. */
  lemma {:induction false} NoneFinished(ts: seq<Process>)
    requires forall i :: 0 <= i < |ts| ==> ts[i].remaining > 0
    ensures CountFinished(ts) == 0
    decreases |ts|
  {
    if ts != [] {
      var pre := ts[..|ts| - 1];
      assert forall i :: 0 <= i < |pre| ==> pre[i] == ts[i];
      NoneFinished(pre);
    }
  }

  /** When every task is counted as finished, no segment is open and the run is complete. */
  lemma {:induction false} Done(ts: seq<Process>, tl: seq<Segment>, clock: int, current: Option<nat>, lastStart: int)
    requires Stepping(ts, Closed(tl, current, lastStart, clock), clock, |ts|)
    requires OpenSegment(ts, current, lastStart, clock)
    ensures current.None?
    ensures CompleteRun(ts, tl, clock) && IdleOnlyWhenNothingReady(ts, tl)
    ensures forall i :: 0 <= i < |ts| ==> ts[i].remaining == 0
  {
    CountAllFinished(ts);
    forall i | 0 <= i < |ts|
      ensures Accounted(ts, tl, i)
    {
      assert Tracked(ts, tl, clock, i);
    }
  }

  /**
   * The time remaining in all tasks is a measure that the loop reduces: it is
   * never negative while the invariant holds.
   */
  lemma {:induction false} RemainingBound(ts: seq<Process>, tlc: seq<Segment>, clock: int, completed: nat)
    requires Stepping(ts, tlc, clock, completed)
    ensures SumRemaining(ts) >= 0
  {
    forall i | 0 <= i < |ts|
      ensures ts[i].remaining >= 0
    {
      assert Tracked(ts, tlc, clock, i);
    }
    SumRemainingNonnegative(ts);
  }

  /**
   * The idle branch: nothing is available, so the processor idles from
   * `clock` to the earliest arrival among the unfinished tasks, where one of
   * them becomes available.
   */
  method IdleTick(ts: seq<Process>, tl: seq<Segment>, clock: int, completed: nat)
    returns (tl2: seq<Segment>, clock2: int)
    requires Stepping(ts, tl, clock, completed) && completed < |ts|
    requires forall j :: 0 <= j < |ts| ==> !AvailableTask(ts, j, clock)
    ensures Stepping(ts, tl2, clock2, completed)
    ensures Idled(ts, tl, clock, tl2, clock2)
    ensures exists j :: 0 <= j < |ts| && AvailableTask(ts, j, clock2)
  {
    var w := SomeUnfinished(ts);
    InRange(|ts|);
    var unfinished := Filter(ts, Range(|ts|), Unfinished);
    assert Tracked(ts, tl, clock, w);
    assert w in unfinished;
    var nextArrival := MinArrival(ts, unfinished);
    var v :| v in unfinished && ts[v].arrival == nextArrival;
    assert Tracked(ts, tl, clock, v) && !AvailableTask(ts, v, clock);
    assert AvailableTask(ts, v, nextArrival);
    IdleKeeps(ts, tl, clock, completed, nextArrival, v);
    tl2 := tl + [Segment(Idle, clock, nextArrival)];
    clock2 := nextArrival;
  }

  /**
   * The run branch: task `r` is the pick. On a switch the open segment of the
   * previous task is closed and a new one opened at `clock`; `r` runs one
   * unit; on completion its metrics are set and its segment is closed.
   */
  method RunTick(ts: seq<Process>, tl: seq<Segment>, clock: int, completed: nat, current: Option<nat>, lastStart: int, r: nat)
    returns (ts2: seq<Process>, tl2: seq<Segment>, clock2: int, completed2: nat, current2: Option<nat>, lastStart2: int)
    requires Stepping(ts, Closed(tl, current, lastStart, clock), clock, completed)
    requires OpenSegment(ts, current, lastStart, clock)
    requires r < |ts| && AvailableTask(ts, r, clock)
    ensures clock2 == clock + 1 && ts2 == ts[r := Ran(ts[r], clock2)]
    ensures Stepping(ts2, Closed(tl2, current2, lastStart2, clock2), clock2, completed2)
    ensures OpenSegment(ts2, current2, lastStart2, clock2)
    ensures ts2[r].remaining > 0 <==> current2 == Some(r)
    ensures Switched(tl, clock, current, lastStart, r, ts2[r].remaining == 0, tl2, clock2, lastStart2)
  {
    var tlx := tl;
    var start := lastStart;
    if current != Some(r) {
      if current.Some? {
        tlx := tl + [Segment(Task(current.value), lastStart, clock)];
      }
      start := clock;
      AppendUnit(ts, tlx, clock, completed, r);
    } else {
      ExtendUnit(ts, tl, clock, completed, r, lastStart);
    }
    var p := ts[r];
    p := p.(remaining := p.remaining - 1);
    clock2 := clock + 1;
    if p.remaining == 0 {
      p := p.(turnaround := clock2 - p.arrival);
      p := p.(waiting := p.turnaround - p.burst);
      p := p.(state := Completed);
      tl2 := tlx + [Segment(Task(r), start, clock2)];
      completed2 := completed + 1;
      current2 := None;
      lastStart2 := start;
    } else {
      tl2 := tlx;
      completed2 := completed;
      current2 := Some(r);
      lastStart2 := start;
    }
    assert p == Ran(ts[r], clock2);
    ts2 := ts[r := p];
  }

  /**
   * The timeline after a unit of `r` up to `clock2`: a switch from another
   * running task closes that task's segment at `clock` and opens one for `r`
   * there; staying with `r` keeps its segment open since `lastStart`; when `r`
   * completes, its segment is closed at `clock2`. While `r` stays unfinished
   * its open segment starts at `lastStart2`.
   */
  predicate Switched(tl: seq<Segment>, clock: int, current: Option<nat>, lastStart: int, r: nat, finished: bool,
                     tl2: seq<Segment>, clock2: int, lastStart2: int)
  {
    var base := if current == Some(r) then tl else Closed(tl, current, lastStart, clock);
    var start := if current == Some(r) then lastStart else clock;
    && tl2 == base + (if finished then [Segment(Task(r), start, clock2)] else [])
    && (!finished ==> lastStart2 == start)
  }

  /**
   * The timeline after idling from `clock` to `clock2`, the earliest arrival
   * among the unfinished tasks, which is later than `clock`.
   */
  predicate Idled(ts: seq<Process>, tl: seq<Segment>, clock: int, tl2: seq<Segment>, clock2: int) {
    && clock < clock2 && tl2 == tl + [Segment(Idle, clock, clock2)]
    && (forall j :: 0 <= j < |ts| && ts[j].remaining > 0 ==> clock2 <= ts[j].arrival)
    && (exists j :: 0 <= j < |ts| && ts[j].remaining > 0 && ts[j].arrival == clock2)
  }

  /** The loop variables of the unit-step driver at the top of one pass. */
  datatype Snapshot = Snapshot(ts: seq<Process>, tl: seq<Segment>, clock: int, current: Option<nat>, lastStart: int)

  /**
   * One pass of the loop of `policy`, from `a` to `b`. With nothing available
   * the processor idles from the clock to the earliest arrival among the
   * unfinished tasks and nothing else changes. Otherwise the policy's pick
   * runs one unit: only its remaining time drops, it stays the running task
   * exactly while unfinished, and the timeline changes as `Switched` says.
   */
  predicate Unit(policy: UnitPolicy, a: Snapshot, b: Snapshot) {
    match PickAvailable(policy, a.ts, a.clock)
    case None =>
      b.ts == a.ts && a.current == None && b.current == None && Idled(a.ts, a.tl, a.clock, b.tl, b.clock)
    case Some(r) =>
      && b.clock == a.clock + 1 && b.ts == a.ts[r := Ran(a.ts[r], b.clock)]
      && (b.ts[r].remaining > 0 <==> b.current == Some(r))
      && Switched(a.tl, a.clock, a.current, a.lastStart, r, b.ts[r].remaining == 0, b.tl, b.clock, b.lastStart)
  }

  /** A run of `policy`: every snapshot but the last has an unfinished task, and each pass is a `Unit`. */
  predicate Trace(policy: UnitPolicy, trace: seq<Snapshot>) {
    forall k :: 0 <= k < |trace| - 1 ==> CountFinished(trace[k].ts) < |trace[k].ts| && Unit(policy, trace[k], trace[k + 1])
  }

  /** One pass of the loop: idle when nothing is available, otherwise run the policy's pick for one unit. */
  method Tick(policy: UnitPolicy, ts: seq<Process>, tl: seq<Segment>, clock: int, completed: nat, current: Option<nat>, lastStart: int)
    returns (ts2: seq<Process>, tl2: seq<Segment>, clock2: int, completed2: nat, current2: Option<nat>, lastStart2: int)
    requires Stepping(ts, Closed(tl, current, lastStart, clock), clock, completed) && completed < |ts|
    requires OpenSegment(ts, current, lastStart, clock)
    ensures Stepping(ts2, Closed(tl2, current2, lastStart2, clock2), clock2, completed2)
    ensures OpenSegment(ts2, current2, lastStart2, clock2)
    ensures Unit(policy, Snapshot(ts, tl, clock, current, lastStart), Snapshot(ts2, tl2, clock2, current2, lastStart2))
    ensures current.Some? ==>
              PickAvailable(policy, ts, clock).Some? &&
              var r := PickAvailable(policy, ts, clock).value;
              r == current.value || Beats(policy, ts, r, current.value)
  {
    match PickAvailable(policy, ts, clock)
    case None =>
      assert current.None?;
      ts2, completed2, current2, lastStart2 := ts, completed, current, lastStart;
      tl2, clock2 := IdleTick(ts, tl, clock, completed);
    case Some(r) =>
      ts2, tl2, clock2, completed2, current2, lastStart2 := RunTick(ts, tl, clock, completed, current, lastStart, r);
  }

  /**
   * A pass changes no task's specification and either lowers the total
   * remaining time, which stays non-negative, or idles until a task is
   * available: the measure of the driver's loop.
   */
  lemma {:induction false} UnitProgress(policy: UnitPolicy, a: Snapshot, b: Snapshot, completed: nat)
    requires Stepping(a.ts, Closed(a.tl, a.current, a.lastStart, a.clock), a.clock, completed)
    requires Unit(policy, a, b)
    ensures SameSpecs(b.ts, a.ts) && 0 <= SumRemaining(b.ts)
    ensures SumRemaining(b.ts) < SumRemaining(a.ts) ||
            (b.ts == a.ts && PickAvailable(policy, a.ts, a.clock).None? && PickAvailable(policy, b.ts, b.clock).Some?)
  {
    RemainingBound(a.ts, Closed(a.tl, a.current, a.lastStart, a.clock), a.clock, completed);
    match PickAvailable(policy, a.ts, a.clock)
    case None =>
      var j :| 0 <= j < |a.ts| && a.ts[j].remaining > 0 && a.ts[j].arrival == b.clock;
      assert AvailableTask(b.ts, j, b.clock);
    case Some(r) =>
      SumRemainingUpdate(a.ts, r, b.ts[r]);
      forall i | 0 <= i < |b.ts|
        ensures b.ts[i].remaining >= 0
      {
        assert Tracked(a.ts, Closed(a.tl, a.current, a.lastStart, a.clock), a.clock, i);
      }
      SumRemainingNonnegative(b.ts);
  }

  /**
   * The unit-step driver shared by the four preemptive policies. SRTF first
   * sorts the list by (arrival, id); the others keep the caller's order.
   * The run is a `Trace` of `policy` from the reset list and an empty
   * timeline at time 0 to the final state, in which nothing runs. Every task
   * completes, each ran exactly its burst after it arrived, and the processor
   * idled only while nothing was ready.
   */
  method SimulatePreemptive(policy: UnitPolicy, input: seq<Process>) returns (ts: seq<Process>, tl: seq<Segment>, clock: int, ghost trace: seq<Snapshot>)
    requires ValidBursts(input)
    ensures SameSpecs(ts, if policy == SRTF then ByArrival(input) else input)
    ensures Runs(policy, if policy == SRTF then ByArrival(input) else input, trace, ts, tl, clock)
    ensures CompleteRun(ts, tl, clock)
    ensures forall i :: 0 <= i < |ts| ==> ts[i].remaining == 0
    ensures IdleOnlyWhenNothingReady(ts, tl)
  {
    var order := if policy == SRTF then ByArrival(input) else input;
    ts := Reset(order);
    Init(ts);
    var current, lastStart;
    ts, tl, clock, current, lastStart, trace := Drive(policy, order, Snapshot(ts, [], 0, None, 0));
    Done(ts, tl, clock, current, lastStart);
  }

  /**
   * The loop invariant of the driver: `trace` is a run of `policy` from the
   * reset `order` whose last snapshot, with `completed` tasks finished,
   * satisfies `Stepping` and `OpenSegment`.
   */
  predicate Looping(policy: UnitPolicy, order: seq<Process>, trace: seq<Snapshot>, completed: nat) {
    && |trace| > 0 && trace[0] == Snapshot(Reset(order), [], 0, None, 0) && Trace(policy, trace)
    && (var s := trace[|trace| - 1];
        && SameSpecs(s.ts, order)
        && Stepping(s.ts, Closed(s.tl, s.current, s.lastStart, s.clock), s.clock, completed)
        && OpenSegment(s.ts, s.current, s.lastStart, s.clock))
  }

  /** The driver's loop: passes of `policy` from `start` until every task is finished. */
  method Drive(policy: UnitPolicy, ghost order: seq<Process>, start: Snapshot)
    returns (ts: seq<Process>, tl: seq<Segment>, clock: int, current: Option<nat>, lastStart: int, ghost trace: seq<Snapshot>)
    requires start == Snapshot(Reset(order), [], 0, None, 0) && Stepping(start.ts, [], 0, 0)
    ensures Looping(policy, order, trace, |ts|)
    ensures trace[|trace| - 1] == Snapshot(ts, tl, clock, current, lastStart)
    ensures SameSpecs(ts, order) && CountFinished(ts) == |ts| && Chain(Closed(tl, current, lastStart, clock), clock)
  {
    ts, tl, clock, current, lastStart := start.ts, start.tl, start.clock, start.current, start.lastStart;
    var completed: nat := 0;
    trace := [start];
    LoopStart(policy, order, start);
    RemainingBound(ts, [], 0, 0);
    while completed < |ts|
      invariant Looping(policy, order, trace, completed)
      invariant trace[|trace| - 1] == Snapshot(ts, tl, clock, current, lastStart)
      invariant completed <= |ts| && 0 <= SumRemaining(ts)
      decreases SumRemaining(ts), if PickAvailable(policy, ts, clock).None? then 1 else 0
    {
      ts, tl, clock, completed, current, lastStart, trace := Pass(policy, order, ts, tl, clock, completed, current, lastStart, trace);
    }
  }

  /** One `Tick` of the driver's loop, recorded at the end of the trace. */
  method Pass(policy: UnitPolicy, ghost order: seq<Process>, ts: seq<Process>, tl: seq<Segment>, clock: int, completed: nat,
              current: Option<nat>, lastStart: int, ghost trace: seq<Snapshot>)
    returns (ts2: seq<Process>, tl2: seq<Segment>, clock2: int, completed2: nat, current2: Option<nat>, lastStart2: int,
             ghost trace2: seq<Snapshot>)
    requires Looping(policy, order, trace, completed) && completed < |ts|
    requires trace[|trace| - 1] == Snapshot(ts, tl, clock, current, lastStart)
    ensures Looping(policy, order, trace2, completed2)
    ensures trace2 == trace + [Snapshot(ts2, tl2, clock2, current2, lastStart2)]
    ensures trace2[|trace2| - 1] == Snapshot(ts2, tl2, clock2, current2, lastStart2) && completed2 <= |ts2|
    ensures 0 <= SumRemaining(ts2)
    ensures SumRemaining(ts2) < SumRemaining(ts) ||
            (ts2 == ts && PickAvailable(policy, ts, clock).None? && PickAvailable(policy, ts2, clock2).Some?)
  {
    ghost var a := Snapshot(ts, tl, clock, current, lastStart);
    ts2, tl2, clock2, completed2, current2, lastStart2 := Tick(policy, ts, tl, clock, completed, current, lastStart);
    ghost var b := Snapshot(ts2, tl2, clock2, current2, lastStart2);
    UnitProgress(policy, a, b, completed);
    LoopStep(policy, order, trace, completed, b, completed2);
    trace2 := trace + [b];
  }

  /** The reset list with an empty timeline at time 0 starts a looping trace. */
  lemma {:induction false} LoopStart(policy: UnitPolicy, order: seq<Process>, start: Snapshot)
    requires start == Snapshot(Reset(order), [], 0, None, 0) && Stepping(start.ts, [], 0, 0)
    ensures Looping(policy, order, [start], 0)
  {
  }

  /** A pass from the last snapshot of a looping trace, ending in the invariant, extends it. */
  lemma {:induction false} LoopStep(policy: UnitPolicy, order: seq<Process>, trace: seq<Snapshot>, completed: nat, b: Snapshot, completed2: nat)
    requires Looping(policy, order, trace, completed) && completed < |trace[|trace| - 1].ts|
    requires Unit(policy, trace[|trace| - 1], b) && SameSpecs(b.ts, trace[|trace| - 1].ts)
    requires Stepping(b.ts, Closed(b.tl, b.current, b.lastStart, b.clock), b.clock, completed2)
    requires OpenSegment(b.ts, b.current, b.lastStart, b.clock)
    ensures Looping(policy, order, trace + [b], completed2)
  {
    TraceExtend(policy, trace, b);
    var t2 := trace + [b];
    assert t2[0] == trace[0] && t2[|t2| - 1] == b;
  }

  /**
   * `trace` runs `policy` from the reset `order` to the final `ts`, `tl` and
   * `clock`, with no task running at the end.
   */
  predicate Runs(policy: UnitPolicy, order: seq<Process>, trace: seq<Snapshot>, ts: seq<Process>, tl: seq<Segment>, clock: int) {
    && |trace| > 0 && trace[0] == Snapshot(Reset(order), [], 0, None, 0)
    && (var last := trace[|trace| - 1];
        last.ts == ts && last.tl == tl && last.clock == clock && last.current == None)
    && Trace(policy, trace)
  }

  /** A trace extended by one pass from its last snapshot is still a trace. */
  lemma {:induction false} TraceExtend(policy: UnitPolicy, trace: seq<Snapshot>, b: Snapshot)
    requires |trace| > 0 && Trace(policy, trace)
    requires CountFinished(trace[|trace| - 1].ts) < |trace[|trace| - 1].ts| && Unit(policy, trace[|trace| - 1], b)
    ensures Trace(policy, trace + [b])
  {
    var t2 := trace + [b];
    forall k | 0 <= k < |t2| - 1
      ensures CountFinished(t2[k].ts) < |t2[k].ts| && Unit(policy, t2[k], t2[k + 1])
    {
      assert t2[k] == trace[k];
      if k < |trace| - 1 {
        assert t2[k + 1] == trace[k + 1];
      }
    }
  }

  /** `simulateSJFPreemptive`: the available task with the least remaining time; among ties, the last in list order. */
  method SimulateSJFPreemptive(input: seq<Process>) returns (ts: seq<Process>, tl: seq<Segment>, clock: int, ghost trace: seq<Snapshot>)
    requires ValidBursts(input)
    ensures SameSpecs(ts, input) && CompleteRun(ts, tl, clock) && IdleOnlyWhenNothingReady(ts, tl)
    ensures forall i :: 0 <= i < |ts| ==> ts[i].remaining == 0
    ensures Runs(SJFPreemptive, input, trace, ts, tl, clock)
  {
    ts, tl, clock, trace := SimulatePreemptive(SJFPreemptive, input);
  }

  /** `simulateSRTF`: sort by (arrival, id), then the least remaining time; among ties, the first in list order. */
  method SimulateSRTF(input: seq<Process>) returns (ts: seq<Process>, tl: seq<Segment>, clock: int, ghost trace: seq<Snapshot>)
    requires ValidBursts(input)
    ensures SameSpecs(ts, ByArrival(input)) && CompleteRun(ts, tl, clock) && IdleOnlyWhenNothingReady(ts, tl)
    ensures forall i :: 0 <= i < |ts| ==> ts[i].remaining == 0
    ensures Runs(SRTF, ByArrival(input), trace, ts, tl, clock)
  {
    ts, tl, clock, trace := SimulatePreemptive(SRTF, input);
  }

  /** `simulatePriorityPreemptive`: the available task with the lowest priority number; among ties, the last in list order. */
  method SimulatePriorityPreemptive(input: seq<Process>) returns (ts: seq<Process>, tl: seq<Segment>, clock: int, ghost trace: seq<Snapshot>)
    requires ValidBursts(input)
    ensures SameSpecs(ts, input) && CompleteRun(ts, tl, clock) && IdleOnlyWhenNothingReady(ts, tl)
    ensures forall i :: 0 <= i < |ts| ==> ts[i].remaining == 0
    ensures Runs(PriorityPreemptive, input, trace, ts, tl, clock)
  {
    ts, tl, clock, trace := SimulatePreemptive(PriorityPreemptive, input);
  }

  /** `simulateFocusPreemptive`: lowest priority number, then least remaining time; among ties, the first in list order. */
  method SimulateFocusPreemptive(input: seq<Process>) returns (ts: seq<Process>, tl: seq<Segment>, clock: int, ghost trace: seq<Snapshot>)
    requires ValidBursts(input)
    ensures SameSpecs(ts, input) && CompleteRun(ts, tl, clock) && IdleOnlyWhenNothingReady(ts, tl)
    ensures forall i :: 0 <= i < |ts| ==> ts[i].remaining == 0
    ensures Runs(FocusPreemptive, input, trace, ts, tl, clock)
  {
    ts, tl, clock, trace := SimulatePreemptive(FocusPreemptive, input);
  }
}
