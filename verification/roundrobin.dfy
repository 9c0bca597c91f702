/**
 * Round Robin: tasks in (arrival, id) order join a FIFO ready queue as they
 * arrive; the head of the queue runs for at most one quantum and, if it still
 * has time remaining, rejoins the queue behind the tasks that arrived during
 * its slice.
 */
module RoundRobin {
  import opened Processes
  import opened Timeline
  import opened Ordering
  import opened Schedule

  /** No position occurs twice in `q`. */
  predicate Distinct(q: seq<nat>) {
    forall a, b :: 0 <= a < b < |q| ==> q[a] != q[b]
  }

  /**
   * Every slice task `j` got lasts at most one quantum, and a slice shorter
   * than a quantum is the one that completed the task.
   */
  predicate Slices(ts: seq<Process>, tl: seq<Segment>, quantum: int, j: nat)
    requires j < |ts|
  {
    forall k :: 0 <= k < |tl| && tl[k].occupant == Task(j) ==>
      && tl[k].end - tl[k].start <= quantum
      && (tl[k].end - tl[k].start < quantum ==> ts[j].remaining == 0 && tl[k].end == Finish(ts[j]))
  }

  /**
   * Task `j` has joined the queue by `clock`: it has held the processor for
   * its burst minus its remaining time, in slices of at most a quantum, and
   * only after it arrived; with no time remaining it is accounted for,
   * otherwise it is WAITING.
   */
  predicate Admitted(ts: seq<Process>, tl: seq<Segment>, clock: int, quantum: int, j: nat)
    requires j < |ts|
  {
    && ts[j].arrival <= clock
    && 0 <= ts[j].remaining <= ts[j].burst
    && Busy(tl, Task(j)) == ts[j].burst - ts[j].remaining
    && RunsFrom(tl, Task(j), ts[j].arrival)
    && Slices(ts, tl, quantum, j)
    && (ts[j].remaining == 0 ==> Accounted(ts, tl, j) && Finish(ts[j]) <= clock)
    && (ts[j].remaining > 0 ==> ts[j].state == Waiting)
  }

  /**
   * The loop variables of `simulateRR`: the tasks before `next` have joined,
   * the queue holds exactly those of them with time remaining, once each, and
   * the tasks from `next` on are untouched.
   */
  predicate Round(ts: seq<Process>, tl: seq<Segment>, clock: int, quantum: int, queue: seq<nat>, next: nat) {
    && quantum >= 1
    && ValidBursts(ts)
    && (forall a, b :: 0 <= a < b < |ts| ==> ts[a].arrival <= ts[b].arrival)
    && Chain(tl, clock)
    && Occupants(tl, |ts|)
    && next <= |ts|
    && Below(queue, next) && Distinct(queue)
    && (forall j :: 0 <= j < next ==> (j in queue <==> ts[j].remaining > 0))
    && (forall j :: 0 <= j < next ==> Admitted(ts, tl, clock, quantum, j))
    && (forall j :: next <= j < |ts| ==> Untouched(ts, tl, j))
    && IdleOnlyWhenNothingReady(ts, tl)
  }

  /** The positions `lo`, `lo + 1`, ..., `hi - 1`. */
  function Span(lo: nat, hi: nat): (r: seq<nat>)
    requires lo <= hi
    ensures |r| == hi - lo
    ensures forall k :: 0 <= k < |r| ==> r[k] == lo + k
  {
    seq(hi - lo, k requires 0 <= k < hi - lo => lo + k)
  }

  /**
   * Where admission from `next` stops at `clock`: the first position from
   * `next` on whose task has not arrived by `clock`, or the end of the list.
   */
  function Joined(ts: seq<Process>, clock: int, next: nat): (r: nat)
    requires next <= |ts|
    ensures next <= r <= |ts|
    ensures forall j :: next <= j < r ==> ts[j].arrival <= clock
    ensures r == |ts| || ts[r].arrival > clock
    decreases |ts| - next
  {
    if next < |ts| && ts[next].arrival <= clock then Joined(ts, clock, next + 1) else next
  }

  /**
   * `while (i < simTasks.length && simTasks[i].arrival <= curTime) queue.push(simTasks[i++])`:
   * the tasks from `next` on that have arrived by `clock` join the back of the
   * queue in list order, up to the first one that has not arrived.
   */
  method Admit(ts: seq<Process>, clock: int, queue: seq<nat>, next: nat) returns (queue2: seq<nat>, next2: nat)
    requires next <= |ts|
    ensures next <= next2 <= |ts|
    ensures queue2 == queue + Span(next, next2)
    ensures forall j :: next <= j < next2 ==> ts[j].arrival <= clock
    ensures next2 == |ts| || ts[next2].arrival > clock
    ensures next2 == Joined(ts, clock, next)
  {
    queue2, next2 := queue, next;
    while next2 < |ts| && ts[next2].arrival <= clock
      invariant next <= next2 <= |ts|
      invariant queue2 == queue + Span(next, next2)
      invariant forall j :: next <= j < next2 ==> ts[j].arrival <= clock
      invariant Joined(ts, clock, next2) == Joined(ts, clock, next)
    {
      assert Span(next, next2 + 1) == Span(next, next2) + [next2];
      queue2 := queue2 + [next2];
      next2 := next2 + 1;
    }
  }

  /** Inserting the new positions `next`..`next2 - 1` into a queue of positions below `next`. */
  lemma {:induction false} QueueGrow(front: seq<nat>, back: seq<nat>, next: nat, next2: nat)
    requires Below(front + back, next) && Distinct(front + back) && next <= next2
    ensures Below(front + Span(next, next2) + back, next2) && Distinct(front + Span(next, next2) + back)
    ensures forall j :: j in front + Span(next, next2) + back <==> j in front + back || next <= j < next2
  {
    QueueMembers(front, back, next, next2);
    QueueDistinct(front, back, next, next2);
  }

  /** Where each entry of `front + Span(next, next2) + back` comes from. */
  lemma {:induction false} QueueIndex(front: seq<nat>, back: seq<nat>, next: nat, next2: nat)
    requires next <= next2
    ensures forall k :: 0 <= k < |front + Span(next, next2) + back| ==>
              (front + Span(next, next2) + back)[k] ==
              (if k < |front| then (front + back)[k]
               else if k < |front| + (next2 - next) then next + (k - |front|)
               else (front + back)[k - (next2 - next)])
  {
    var span := Span(next, next2);
    var q := front + span + back;
    forall k | 0 <= k < |q|
      ensures q[k] == (if k < |front| then (front + back)[k]
                       else if k < |front| + |span| then next + (k - |front|)
                       else (front + back)[k - |span|])
    {
      if k >= |front| + |span| {
        assert q[k] == back[k - |front| - |span|];
      }
    }
  }

  /** The members of the grown queue: the old members and the new positions. */
  lemma {:induction false} QueueMembers(front: seq<nat>, back: seq<nat>, next: nat, next2: nat)
    requires Below(front + back, next) && next <= next2
    ensures Below(front + Span(next, next2) + back, next2)
    ensures forall j :: j in front + Span(next, next2) + back <==> j in front + back || next <= j < next2
  {
    var old_q := front + back;
    var span := Span(next, next2);
    var q := front + span + back;
    QueueIndex(front, back, next, next2);
    forall j | next <= j < next2
      ensures j in q
    {
      assert q[|front| + (j - next)] == j;
    }
    forall j | j in old_q
      ensures j in q
    {
      var k :| 0 <= k < |old_q| && old_q[k] == j;
      if k < |front| {
        assert q[k] == j;
      } else {
        assert q[k + |span|] == j;
      }
    }
    forall k | 0 <= k < |q|
      ensures q[k] < next2 && (q[k] in old_q || next <= q[k] < next2)
    {
      if k < |front| {
        assert q[k] == old_q[k];
      } else if k >= |front| + |span| {
        assert q[k] == old_q[k - |span|];
      }
    }
  }

  /** The grown queue holds no position twice. */
  lemma {:induction false} QueueDistinct(front: seq<nat>, back: seq<nat>, next: nat, next2: nat)
    requires Below(front + back, next) && Distinct(front + back) && next <= next2
    ensures Distinct(front + Span(next, next2) + back)
  {
    var old_q := front + back;
    var span := Span(next, next2);
    var q := front + span + back;
    QueueIndex(front, back, next, next2);
    forall a, b | 0 <= a < b < |q|
      ensures q[a] != q[b]
    {
      var inA := |front| <= a < |front| + |span|;
      var inB := |front| <= b < |front| + |span|;
      if !inA && !inB {
        var a' := if a < |front| then a else a - |span|;
        var b' := if b < |front| then b else b - |span|;
        assert q[a] == old_q[a'] && q[b] == old_q[b'] && a' < b';
      } else if inA && inB {
        assert q[a] == next + (a - |front|) && q[b] == next + (b - |front|);
      } else if inA {
        assert q[b] == old_q[if b < |front| then b else b - |span|];
      } else {
        assert q[a] == old_q[if a < |front| then a else a - |span|];
      }
    }
  }

  /** Admitting tasks that have arrived keeps the invariant, wherever they enter the queue. */
  lemma {:induction false} AdmitKeeps(ts: seq<Process>, tl: seq<Segment>, clock: int, quantum: int,
                   front: seq<nat>, back: seq<nat>, next: nat, next2: nat)
    requires Round(ts, tl, clock, quantum, front + back, next)
    requires next <= next2 <= |ts|
    requires forall j :: next <= j < next2 ==> ts[j].arrival <= clock
    ensures Round(ts, tl, clock, quantum, front + Span(next, next2) + back, next2)
  {
    QueueGrow(front, back, next, next2);
    forall j | next <= j < next2
      ensures Admitted(ts, tl, clock, quantum, j) && ts[j].remaining > 0
    {
      assert Untouched(ts, tl, j);
    }
  }

  /** Taking the head `t` off a queue and, if `keep`, putting it at the back. */
  lemma {:induction false} QueueRotate(queue: seq<nat>, next: nat, keep: bool)
    requires Below(queue, next) && Distinct(queue) && |queue| > 0
    ensures Below(queue[1..] + (if keep then [queue[0]] else []), next)
    ensures Distinct(queue[1..] + (if keep then [queue[0]] else []))
    ensures forall j :: j in queue[1..] + (if keep then [queue[0]] else []) <==> j in queue && (j != queue[0] || keep)
  {
    var t := queue[0];
    assert queue == [t] + queue[1..];
    forall j | j in queue[1..]
      ensures j != t
    {
      var k :| 0 <= k < |queue[1..]| && queue[1..][k] == j;
      assert queue[k + 1] == j;
    }
  }

  /**
   * Task `p` after a slice of `exec` time units ending at `clock2`: WAITING with
   * less time remaining, or COMPLETED with turnaround = clock2 - arrival and
   * waiting = turnaround - burst.
   */
  function Sliced(p: Process, exec: int, clock2: int): (r: Process)
    ensures SameSpec(r, p) && r.remaining == if p.remaining - exec > 0 then p.remaining - exec else 0
    ensures r.remaining == 0 ==> r.state == Completed && Finish(r) == clock2 && r.waiting == r.turnaround - r.burst
    ensures r.remaining > 0 ==> r.state == Waiting
  {
    if p.remaining - exec > 0 then p.(state := Waiting, remaining := p.remaining - exec)
    else p.(state := Completed, remaining := 0, turnaround := clock2 - p.arrival, waiting := clock2 - p.arrival - p.burst)
  }

  /** The task that ran the slice stays admitted. */
  lemma {:induction false} SliceRunner(ts: seq<Process>, tl: seq<Segment>, clock: int, quantum: int, t: nat, exec: int, ts2: seq<Process>)
    requires t < |ts| && Chain(tl, clock) && quantum >= 1
    requires Admitted(ts, tl, clock, quantum, t) && ts[t].remaining > 0
    requires exec == if ts[t].remaining < quantum then ts[t].remaining else quantum
    requires ts2 == ts[t := Sliced(ts[t], exec, clock + exec)]
    ensures Admitted(ts2, tl + [Segment(Task(t), clock, clock + exec)], clock + exec, quantum, t)
  {
    var s := Segment(Task(t), clock, clock + exec);
    var tl2 := tl + [s];
    AppendFacts(tl, s);
    ChainContiguous(tl, clock);
    forall k | 0 <= k < |tl2| && tl2[k].occupant == Task(t)
      ensures tl2[k].end - tl2[k].start <= quantum
      ensures tl2[k].end - tl2[k].start < quantum ==> ts2[t].remaining == 0 && tl2[k].end == Finish(ts2[t])
    {
      if k < |tl| {
        assert tl2[k] == tl[k];
      }
    }
  }

  /** The other admitted tasks stay admitted across a slice of task `t`. */
  lemma {:induction false} SliceOther(ts: seq<Process>, tl: seq<Segment>, clock: int, quantum: int, t: nat, exec: int, ts2: seq<Process>, j: nat)
    requires t < |ts| && j < |ts| && j != t && exec >= 1
    requires Admitted(ts, tl, clock, quantum, j)
    requires ts2 == ts[t := Sliced(ts[t], exec, clock + exec)]
    ensures Admitted(ts2, tl + [Segment(Task(t), clock, clock + exec)], clock + exec, quantum, j)
  {
    var s := Segment(Task(t), clock, clock + exec);
    var tl2 := tl + [s];
    AppendFacts(tl, s);
    forall k | 0 <= k < |tl2| && tl2[k].occupant == Task(j)
      ensures k < |tl| && tl2[k] == tl[k]
    {
    }
  }

  /** Every admitted task stays admitted across a slice of task `t`. */
  lemma {:induction false} SliceAdmitted(ts: seq<Process>, tl: seq<Segment>, clock: int, quantum: int, t: nat, exec: int,
                      ts2: seq<Process>, tl2: seq<Segment>, clock2: int, next: nat)
    requires t < next <= |ts| && Chain(tl, clock) && quantum >= 1
    requires forall j :: 0 <= j < next ==> Admitted(ts, tl, clock, quantum, j)
    requires ts[t].remaining > 0
    requires exec == if ts[t].remaining < quantum then ts[t].remaining else quantum
    requires clock2 == clock + exec && tl2 == tl + [Segment(Task(t), clock, clock2)]
    requires ts2 == ts[t := Sliced(ts[t], exec, clock2)]
    ensures forall j :: 0 <= j < next ==> Admitted(ts2, tl2, clock2, quantum, j)
  {
    forall j | 0 <= j < next
      ensures Admitted(ts2, tl2, clock2, quantum, j)
    {
      if j == t {
        SliceRunner(ts, tl, clock, quantum, t, exec, ts2);
      } else {
        SliceOther(ts, tl, clock, quantum, t, exec, ts2, j);
      }
    }
  }

  /** The tasks that have not joined stay untouched across a slice of task `t`. */
  lemma {:induction false} SliceUntouched(ts: seq<Process>, tl: seq<Segment>, t: nat, ts2: seq<Process>, tl2: seq<Segment>, next: nat)
    requires t < next <= |ts| && |ts2| == |ts| && |tl2| == |tl| + 1 && tl2[..|tl|] == tl
    requires forall j :: next <= j < |ts| ==> Untouched(ts, tl, j)
    requires forall j :: 0 <= j < |ts| && j != t ==> ts2[j] == ts[j]
    requires tl2[|tl|].occupant == Task(t)
    ensures forall j :: next <= j < |ts2| ==> Untouched(ts2, tl2, j)
  {
    var s := tl2[|tl|];
    assert tl2 == tl + [s];
    AppendFacts(tl, s);
    forall j | next <= j < |ts2|
      ensures Untouched(ts2, tl2, j)
    {
      assert Untouched(ts, tl, j);
    }
  }

  /** Running task `t` for one slice from `clock`, before the arrivals during the slice are admitted. */
  lemma {:induction false} SliceKeeps(ts: seq<Process>, tl: seq<Segment>, clock: int, quantum: int, queue: seq<nat>, next: nat,
                   t: nat, exec: int, ts2: seq<Process>, tl2: seq<Segment>, clock2: int, queue2: seq<nat>)
    requires Round(ts, tl, clock, quantum, queue, next) && |queue| > 0 && t == queue[0]
    requires exec == if ts[t].remaining < quantum then ts[t].remaining else quantum
    requires clock2 == clock + exec && tl2 == tl + [Segment(Task(t), clock, clock2)]
    requires ts2 == ts[t := Sliced(ts[t], exec, clock2)]
    requires queue2 == queue[1..] + (if ts2[t].remaining > 0 then [t] else [])
    ensures Round(ts2, tl2, clock2, quantum, queue2, next)
    ensures SumRemaining(ts2) == SumRemaining(ts) - exec && exec >= 1
  {
    var s := Segment(Task(t), clock, clock2);
    AppendFacts(tl, s);
    assert t in queue;
    assert Admitted(ts, tl, clock, quantum, t);
    SumRemainingUpdate(ts, t, ts2[t]);
    QueueRotate(queue, next, ts2[t].remaining > 0);
    SliceAdmitted(ts, tl, clock, quantum, t, exec, ts2, tl2, clock2, next);
    SliceUntouched(ts, tl, t, ts2, tl2, next);
    SliceIdle(ts, tl, t, ts2, tl2);
  }

  /** A slice of a task that had not completed adds no idle time and leaves the completed tasks alone. */
  lemma {:induction false} SliceIdle(ts: seq<Process>, tl: seq<Segment>, t: nat, ts2: seq<Process>, tl2: seq<Segment>)
    requires t < |ts| && |ts2| == |ts| && ts[t].state != Completed
    requires forall j :: 0 <= j < |ts| && j != t ==> ts2[j] == ts[j]
    requires SameSpec(ts2[t], ts[t])
    requires |tl2| == |tl| + 1 && tl2[..|tl|] == tl && tl2[|tl|].occupant == Task(t)
    requires IdleOnlyWhenNothingReady(ts, tl)
    ensures IdleOnlyWhenNothingReady(ts2, tl2)
  {
    forall k | 0 <= k < |tl2| && tl2[k].occupant == Idle
      ensures k < |tl| && tl2[k] == tl[k]
    {
    }
    IdleFrame(ts, tl, ts2, tl2);
  }

  /** Idling from `clock` to the arrival of task `next` when nothing is queued keeps the invariant. */
  lemma {:induction false} IdleKeeps(ts: seq<Process>, tl: seq<Segment>, clock: int, quantum: int, next: nat, nextArrival: int)
    requires Round(ts, tl, clock, quantum, [], next)
    requires next < |ts| && nextArrival == ts[next].arrival && clock < nextArrival
    ensures Round(ts, tl + [Segment(Idle, clock, nextArrival)], nextArrival, quantum, [], next)
  {
    var s := Segment(Idle, clock, nextArrival);
    var tl2 := tl + [s];
    AppendFacts(tl, s);
    forall j | 0 <= j < next
      ensures Admitted(ts, tl2, nextArrival, quantum, j)
    {
      assert Admitted(ts, tl, clock, quantum, j);
      assert j !in [];
      forall k | 0 <= k < |tl2| && tl2[k].occupant == Task(j)
        ensures k < |tl| && tl2[k] == tl[k]
      {
      }
    }
    forall j | next <= j < |ts|
      ensures Untouched(ts, tl2, j)
    {
      assert Untouched(ts, tl, j);
    }
    forall j | 0 <= j < |ts| && ts[j].arrival < s.end
      ensures ts[j].state == Completed && Finish(ts[j]) <= s.start
    {
      assert j < next;
      assert Admitted(ts, tl, clock, quantum, j);
      assert j !in [];
    }
    IdleAppend(ts, tl, s, next);
  }

  /** What is left to do: the remaining time of all tasks plus the tasks yet to join. */
  function Work(ts: seq<Process>, next: nat): int {
    SumRemaining(ts) + (|ts| - next)
  }

  /** Nothing is queued and the next task has not arrived: this pass will idle. */
  predicate Stalled(ts: seq<Process>, queue: seq<nat>, next: nat, clock: int) {
    |queue| == 0 && next < |ts| && ts[next].arrival > clock
  }

  /** Under the invariant no task has negative remaining time, so the work left is not negative. */
  lemma {:induction false} WorkBound(ts: seq<Process>, tl: seq<Segment>, clock: int, quantum: int, queue: seq<nat>, next: nat)
    requires Round(ts, tl, clock, quantum, queue, next)
    ensures Work(ts, next) >= 0
  {
    forall j | 0 <= j < |ts|
      ensures ts[j].remaining >= 0
    {
      if j < next {
        assert Admitted(ts, tl, clock, quantum, j);
      } else {
        assert Untouched(ts, tl, j);
      }
    }
    SumRemainingNonnegative(ts);
  }

  /**
   * One slice of the head `t` of `queue`: it runs from `clock` for the lesser
   * of its remaining time and the quantum; the tasks that arrived by the end
   * of the slice join the back of the queue, and then `t` rejoins behind
   * them if it has time remaining.
   */
  predicate Turn(ts: seq<Process>, tl: seq<Segment>, clock: int, quantum: int, queue: seq<nat>, next: nat,
                 ts2: seq<Process>, tl2: seq<Segment>, clock2: int, queue2: seq<nat>, next2: nat)
  {
    && |queue| > 0 && queue[0] < |ts| && next <= |ts|
    && var t := queue[0];
       var exec := if ts[t].remaining < quantum then ts[t].remaining else quantum;
       && clock2 == clock + exec && tl2 == tl + [Segment(Task(t), clock, clock2)]
       && ts2 == ts[t := Sliced(ts[t], exec, clock2)]
       && next2 == Joined(ts, clock2, next)
       && queue2 == queue[1..] + Span(next, next2) + (if ts2[t].remaining > 0 then [t] else [])
  }

  /**
   * One pass of the `simulateRR` loop: the tasks that arrived by `clock` join
   * the queue; if it is still empty the processor idles to the arrival of the
   * next task to join, otherwise its head runs a `Turn`.
   */
  predicate Pass(ts: seq<Process>, tl: seq<Segment>, clock: int, quantum: int, queue: seq<nat>, next: nat,
                 ts2: seq<Process>, tl2: seq<Segment>, clock2: int, queue2: seq<nat>, next2: nat)
    requires next <= |ts|
  {
    var next1 := Joined(ts, clock, next);
    var ready := queue + Span(next, next1);
    if |ready| == 0 then
      && next1 < |ts| && ts2 == ts && queue2 == [] && next2 == next1
      && clock2 == ts[next1].arrival && tl2 == tl + [Segment(Idle, clock, clock2)]
    else
      Turn(ts, tl, clock, quantum, ready, next1, ts2, tl2, clock2, queue2, next2)
  }

  /**
   * One pass of the `simulateRR` loop: admit the arrived tasks; then idle up
   * to the next arrival if the queue is empty, or run the head of the queue
   * for one slice.
   */
  method Step(ts: seq<Process>, tl: seq<Segment>, clock: int, quantum: int, queue: seq<nat>, next: nat)
    returns (ts2: seq<Process>, tl2: seq<Segment>, clock2: int, queue2: seq<nat>, next2: nat)
    requires Round(ts, tl, clock, quantum, queue, next) && (|queue| > 0 || next < |ts|)
    ensures Pass(ts, tl, clock, quantum, queue, next, ts2, tl2, clock2, queue2, next2)
    ensures SameSpecs(ts2, ts)
    ensures Round(ts2, tl2, clock2, quantum, queue2, next2)
    ensures Work(ts2, next2) < Work(ts, next) ||
            (Work(ts2, next2) == Work(ts, next) && Stalled(ts, queue, next, clock) && !Stalled(ts2, queue2, next2, clock2))
  {
    var admitted, next1 := Admit(ts, clock, queue, next);
    AdmitKeeps(ts, tl, clock, quantum, queue, [], next, next1);
    assert queue + [] == queue && admitted + [] == admitted;
    if |admitted| == 0 {
      assert next1 == next && queue == [];
      var nextArrival := ts[next].arrival;
      IdleKeeps(ts, tl, clock, quantum, next, nextArrival);
      ts2, tl2, clock2, queue2, next2 := ts, tl + [Segment(Idle, clock, nextArrival)], nextArrival, [], next;
    } else {
      ts2, tl2, clock2, queue2, next2 := Slice(ts, tl, clock, quantum, admitted, next1);
      assert next <= next1;
    }
  }

  /**
   * Run the head of the queue for `min(remaining, quantum)`, admit the tasks
   * that arrived meanwhile, then put the head back at the end of the queue if
   * it has time remaining, or complete it.
   */
  method Slice(ts: seq<Process>, tl: seq<Segment>, clock: int, quantum: int, queue: seq<nat>, next: nat)
    returns (ts2: seq<Process>, tl2: seq<Segment>, clock2: int, queue2: seq<nat>, next2: nat)
    requires Round(ts, tl, clock, quantum, queue, next) && |queue| > 0
    ensures Turn(ts, tl, clock, quantum, queue, next, ts2, tl2, clock2, queue2, next2)
    ensures SameSpecs(ts2, ts) && next <= next2
    ensures Round(ts2, tl2, clock2, quantum, queue2, next2)
    ensures SumRemaining(ts2) < SumRemaining(ts)
  {
    var t := queue[0];
    var rest := queue[1..];
    var exec := if ts[t].remaining < quantum then ts[t].remaining else quantum;
    tl2 := tl + [Segment(Task(t), clock, clock + exec)];
    clock2 := clock + exec;
    var p := Sliced(ts[t], exec, clock2);
    ts2 := ts[t := p];
    ghost var back := if p.remaining > 0 then [t] else [];
    SliceKeeps(ts, tl, clock, quantum, queue, next, t, exec, ts2, tl2, clock2, rest + back);
    queue2, next2 := Admit(ts, clock2, rest, next);
    AdmitKeeps(ts2, tl2, clock2, quantum, rest, back, next, next2);
    if p.remaining > 0 {
      queue2 := queue2 + [t];
    } else {
      assert queue2 + back == queue2;
    }
  }

  /** The loop variables of `simulateRR` at the top of one pass. */
  datatype RoundState = RoundState(ts: seq<Process>, tl: seq<Segment>, clock: int, queue: seq<nat>, next: nat)

  /** A run of the loop: every state but the last has work left, and each step is one `Pass`. */
  predicate Passes(quantum: int, trace: seq<RoundState>) {
    forall k :: 0 <= k < |trace| - 1 ==>
      && (|trace[k].queue| > 0 || trace[k].next < |trace[k].ts|) && trace[k].next <= |trace[k].ts|
      && Pass(trace[k].ts, trace[k].tl, trace[k].clock, quantum, trace[k].queue, trace[k].next,
              trace[k + 1].ts, trace[k + 1].tl, trace[k + 1].clock, trace[k + 1].queue, trace[k + 1].next)
  }

  /** A run extended by one pass from its last state is still a run. */
  lemma {:induction false} PassesExtend(quantum: int, trace: seq<RoundState>, b: RoundState)
    requires |trace| > 0 && Passes(quantum, trace)
    requires var a := trace[|trace| - 1];
             && (|a.queue| > 0 || a.next < |a.ts|) && a.next <= |a.ts|
             && Pass(a.ts, a.tl, a.clock, quantum, a.queue, a.next, b.ts, b.tl, b.clock, b.queue, b.next)
    ensures Passes(quantum, trace + [b])
  {
    var t2 := trace + [b];
    forall k | 0 <= k < |t2| - 1
      ensures && (|t2[k].queue| > 0 || t2[k].next < |t2[k].ts|) && t2[k].next <= |t2[k].ts|
              && Pass(t2[k].ts, t2[k].tl, t2[k].clock, quantum, t2[k].queue, t2[k].next,
                      t2[k + 1].ts, t2[k + 1].tl, t2[k + 1].clock, t2[k + 1].queue, t2[k + 1].next)
    {
      assert t2[k] == trace[k];
      if k < |trace| - 1 {
        assert t2[k + 1] == trace[k + 1];
      }
    }
  }

  /**
   * `simulateRR`: sort by arrival then id, reset, and loop while tasks are
   * queued or yet to join. The run is a sequence of `Pass`es from the reset
   * list, an empty queue and time 0 to the result, where the queue is empty
   * and every task has joined. Every task completes; the timeline covers the
   * run; every slice lasts at most one quantum and only a task's completing
   * slice may be shorter; the processor idles only while nothing is ready.
   */
  method SimulateRR(input: seq<Process>, quantum: int) returns (ts: seq<Process>, tl: seq<Segment>, clock: int, ghost trace: seq<RoundState>)
    requires ValidBursts(input) && quantum >= 1
    ensures SameSpecs(ts, ByArrival(input))
    ensures |trace| > 0 && trace[0] == RoundState(Reset(ByArrival(input)), [], 0, [], 0)
    ensures trace[|trace| - 1] == RoundState(ts, tl, clock, [], |ts|) && Passes(quantum, trace)
    ensures CompleteRun(ts, tl, clock)
    ensures forall i :: 0 <= i < |ts| ==> ts[i].remaining == 0 && Slices(ts, tl, quantum, i)
    ensures IdleOnlyWhenNothingReady(ts, tl)
  {
    var sorted := ByArrival(input);
    ts := Reset(sorted);
    tl := [];
    clock := 0;
    var queue: seq<nat> := [];
    var next: nat := 0;
    trace := [RoundState(ts, tl, clock, queue, next)];
    Init(ts, input, sorted, quantum);
    ServingStart(quantum, sorted, trace);
    WorkBound(ts, tl, clock, quantum, queue, next);
    while |queue| > 0 || next < |ts|
      invariant Serving(quantum, sorted, trace)
      invariant trace[|trace| - 1] == RoundState(ts, tl, clock, queue, next) && Work(ts, next) >= 0
      decreases Work(ts, next), if Stalled(ts, queue, next, clock) then 1 else 0
    {
      ts, tl, clock, queue, next, trace := Visit(quantum, sorted, ts, tl, clock, queue, next, trace);
    }
    Done(ts, tl, clock, quantum, queue, next);
  }

  /**
   * The invariant of the `simulateRR` loop: `trace` is a run from the reset
   * `sorted` list whose last state keeps the specifications and `Round`.
   */
  predicate Serving(quantum: int, sorted: seq<Process>, trace: seq<RoundState>) {
    && |trace| > 0 && trace[0] == RoundState(Reset(sorted), [], 0, [], 0) && Passes(quantum, trace)
    && (var s := trace[|trace| - 1];
        SameSpecs(s.ts, sorted) && Round(s.ts, s.tl, s.clock, quantum, s.queue, s.next))
  }

  /** The reset list with an empty queue at time 0 starts a serving run. */
  lemma {:induction false} ServingStart(quantum: int, sorted: seq<Process>, trace: seq<RoundState>)
    requires trace == [RoundState(Reset(sorted), [], 0, [], 0)]
    requires SameSpecs(Reset(sorted), sorted) && Round(Reset(sorted), [], 0, quantum, [], 0)
    ensures Serving(quantum, sorted, trace)
  {
  }

  /** One `Step` of the `simulateRR` loop, recorded at the end of the run. */
  method Visit(quantum: int, ghost sorted: seq<Process>, ts: seq<Process>, tl: seq<Segment>, clock: int, queue: seq<nat>, next: nat,
               ghost trace: seq<RoundState>)
    returns (ts2: seq<Process>, tl2: seq<Segment>, clock2: int, queue2: seq<nat>, next2: nat, ghost trace2: seq<RoundState>)
    requires Serving(quantum, sorted, trace) && trace[|trace| - 1] == RoundState(ts, tl, clock, queue, next)
    requires |queue| > 0 || next < |ts|
    ensures Serving(quantum, sorted, trace2)
    ensures trace2 == trace + [RoundState(ts2, tl2, clock2, queue2, next2)]
    ensures trace2[|trace2| - 1] == RoundState(ts2, tl2, clock2, queue2, next2) && Work(ts2, next2) >= 0
    ensures Work(ts2, next2) < Work(ts, next) ||
            (Work(ts2, next2) == Work(ts, next) && Stalled(ts, queue, next, clock) && !Stalled(ts2, queue2, next2, clock2))
  {
    ts2, tl2, clock2, queue2, next2 := Step(ts, tl, clock, quantum, queue, next);
    WorkBound(ts2, tl2, clock2, quantum, queue2, next2);
    ghost var b := RoundState(ts2, tl2, clock2, queue2, next2);
    PassesExtend(quantum, trace, b);
    trace2 := trace + [b];
    assert trace2[0] == trace[0] && trace2[|trace2| - 1] == b;
  }

  /** The reset list sorted by (arrival, id) starts the loop in its invariant. */
  lemma {:induction false} Init(ts: seq<Process>, input: seq<Process>, sorted: seq<Process>, quantum: int)
    requires sorted == ByArrival(input) && SameSpecs(ts, sorted) && ValidBursts(ts) && quantum >= 1
    requires forall i :: 0 <= i < |ts| ==> ts[i].state == Waiting && ts[i].remaining == ts[i].burst
    ensures Round(ts, [], 0, quantum, [], 0)
  {
    ArrivalOrder(ts, input, sorted);
  }

  /** With nothing queued and every task joined, every task has completed. */
  lemma {:induction false} Done(ts: seq<Process>, tl: seq<Segment>, clock: int, quantum: int, queue: seq<nat>, next: nat)
    requires Round(ts, tl, clock, quantum, queue, next) && |queue| == 0 && next >= |ts|
    ensures CompleteRun(ts, tl, clock) && IdleOnlyWhenNothingReady(ts, tl)
    ensures forall i :: 0 <= i < |ts| ==> ts[i].remaining == 0 && Slices(ts, tl, quantum, i)
  {
    forall i | 0 <= i < |ts|
      ensures Accounted(ts, tl, i) && ts[i].remaining == 0 && Slices(ts, tl, quantum, i)
    {
      assert Admitted(ts, tl, clock, quantum, i);
      assert i !in queue;
    }
  }
}
