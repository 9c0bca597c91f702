/**
 * The non-preemptive SJF, Priority and Focus policies: one driver that, while
 * tasks are pending, dispatches the arrived pending task ranked first by the
 * policy's comparator and runs it whole, or idles to the earliest pending
 * arrival when none has arrived.
 */
module NonPreemptive {
  import opened Processes
  import opened Timeline
  import opened Ordering
  import opened Selectors
  import opened Schedule
  import opened WholeBurst

  /** `s.indexOf(x)`: the position of `x` in `s`. */
  function IndexOf(s: seq<nat>, x: nat): (k: nat)
    requires x in s
    ensures k < |s| && s[k] == x
  {
    if s[0] == x then 0 else 1 + IndexOf(s[1..], x)
  }

  /**
   * `pending.splice(pending.indexOf(x), 1)`: the list without `x`, otherwise
   * unchanged, so still in task order.
   */
  function Remove(s: seq<nat>, x: nat): (r: seq<nat>)
    requires x in s && Increasing(s)
    ensures |r| == |s| - 1
    ensures forall j :: j in r <==> j in s && j != x
    ensures Increasing(r)
    ensures forall n: nat :: Below(s, n) ==> Below(r, n)
  {
    var k := IndexOf(s, x);
    RemoveAt(s, k);
    s[..k] + s[k + 1..]
  }

  /** Dropping entry `k` of an increasing list drops exactly the value `s[k]` and keeps the rest in order. */
  lemma {:induction false} RemoveAt(s: seq<nat>, k: nat)
    requires k < |s| && Increasing(s)
    ensures forall j :: j in s[..k] + s[k + 1..] <==> j in s && j != s[k]
    ensures Increasing(s[..k] + s[k + 1..])
  {
    var r := s[..k] + s[k + 1..];
    assert forall a :: 0 <= a < |r| ==> r[a] == if a < k then s[a] else s[a + 1];
    forall j | j in s && j != s[k]
      ensures j in r
    {
      var a :| 0 <= a < |s| && s[a] == j;
      if a < k {
        assert r[a] == j;
      } else {
        assert r[a - 1] == j;
      }
    }
  }

  /** The loop variables of the driver hold the run's invariant; `pending` lists the tasks not yet run, in task order. */
  predicate Pending(key: Key, ts: seq<Process>, tl: seq<Segment>, clock: int, pending: seq<nat>) {
    && Below(pending, |ts|) && Increasing(pending)
    && (forall j :: 0 <= j < |ts| ==> (j in pending <==> ts[j].state != Completed))
    && Progress(ts, tl, clock) && Dispatched(key, ts) && IdleOnlyWhenNothingReady(ts, tl)
  }

  /**
   * `simulateSJF_Nonpreemptive`, `simulatePriority_Nonpreemptive` and
   * `simulateFocus_Nonpreemptive`, with the policy's comparator as `key`.
   * Every task runs once, whole, after it arrived; each dispatch picks the
   * arrived task ranked first by `key` (ties to the earlier task in the list);
   * the processor idles only while no pending task has arrived.
   */
  method SimulateNonPreemptive(key: Key, input: seq<Process>) returns (ts: seq<Process>, tl: seq<Segment>, clock: int)
    requires ValidBursts(input)
    ensures SameSpecs(ts, input)
    ensures CompleteRun(ts, tl, clock)
    ensures forall i :: 0 <= i < |ts| ==> ts[i].remaining == ts[i].burst && OnePiece(ts, tl, i)
    ensures Dispatched(key, ts)
    ensures IdleOnlyWhenNothingReady(ts, tl)
  {
    ts := Reset(input);
    tl := [];
    clock := 0;
    Init(key, ts);
    var ts1 := ts;
    ts, tl, clock := Drain(key, ts1, tl, clock, Range(|ts1|));
    Done(key, ts, tl, clock, []);
  }

  /** The dispatch loop: passes until nothing is pending. */
  method Drain(key: Key, ts0: seq<Process>, tl0: seq<Segment>, clock0: int, pending0: seq<nat>)
    returns (ts: seq<Process>, tl: seq<Segment>, clock: int)
    requires Pending(key, ts0, tl0, clock0, pending0)
    ensures SameSpecs(ts, ts0) && Pending(key, ts, tl, clock, [])
  {
    ts, tl, clock := ts0, tl0, clock0;
    var pending := pending0;
    while |pending| > 0
      invariant Pending(key, ts, tl, clock, pending)
      invariant SameSpecs(ts, ts0)
      decreases |pending|, if PickArrived(key, ts, pending, clock).None? then 1 else 0
    {
      ts, tl, clock, pending := Next(key, ts, tl, clock, pending);
    }
  }

  /** At the start every task is pending and untouched. */
  lemma {:induction false} Init(key: Key, ts: seq<Process>)
    requires ValidBursts(ts)
    requires forall i :: 0 <= i < |ts| ==> ts[i].state == Waiting && ts[i].remaining == ts[i].burst
    ensures Pending(key, ts, [], 0, Range(|ts|))
  {
    InRange(|ts|);
    Begin(key, ts);
  }

  /** With nothing pending every task has completed. */
  lemma {:induction false} Done(key: Key, ts: seq<Process>, tl: seq<Segment>, clock: int, pending: seq<nat>)
    requires Pending(key, ts, tl, clock, pending) && |pending| == 0
    ensures CompleteRun(ts, tl, clock) && Dispatched(key, ts) && IdleOnlyWhenNothingReady(ts, tl)
    ensures forall i :: 0 <= i < |ts| ==> ts[i].remaining == ts[i].burst && OnePiece(ts, tl, i)
  {
    End(ts, tl, clock);
  }

  /**
   * What one pass of the loop does: when no pending task has arrived, idle
   * from `clock` to the earliest pending arrival; otherwise run the pick `p`
   * whole from `clock` in one segment and drop exactly it from `pending`.
   */
  predicate Pass(key: Key, ts: seq<Process>, tl: seq<Segment>, clock: int, pending: seq<nat>,
                 ts2: seq<Process>, tl2: seq<Segment>, clock2: int, pending2: seq<nat>)
    requires Below(pending, |ts|) && Increasing(pending)
  {
    match PickArrived(key, ts, pending, clock)
    case None =>
      |pending| > 0 && ts2 == ts && pending2 == pending && clock2 == MinArrival(ts, pending) &&
      tl2 == tl + [Segment(Idle, clock, clock2)]
    case Some(p) =>
      pending2 == Remove(pending, p) && ts2 == Complete(ts, p, clock) &&
      clock2 == clock + ts[p].burst && tl2 == tl + [Segment(Task(p), clock, clock2)]
  }

  /**
   * One pass of the loop: dispatch the pick and run it whole, or, when no
   * pending task has arrived, idle to the earliest pending arrival.
   */
  method Next(key: Key, ts: seq<Process>, tl: seq<Segment>, clock: int, pending: seq<nat>)
    returns (ts2: seq<Process>, tl2: seq<Segment>, clock2: int, pending2: seq<nat>)
    requires Pending(key, ts, tl, clock, pending) && |pending| > 0
    ensures SameSpecs(ts2, ts)
    ensures Pending(key, ts2, tl2, clock2, pending2)
    ensures |pending2| < |pending| ||
            (|pending2| == |pending| && PickArrived(key, ts, pending, clock).None? && PickArrived(key, ts2, pending2, clock2).Some?)
    ensures Pass(key, ts, tl, clock, pending, ts2, tl2, clock2, pending2)
  {
    var pick := PickArrived(key, ts, pending, clock);
    if pick.None? {
      ts2, tl2, clock2, pending2 := IdleUntilArrival(key, ts, tl, clock, pending);
    } else {
      ts2, tl2, clock2, pending2 := Dispatch(key, ts, tl, clock, pending, pick.value);
    }
  }

  /**
   * No pending task has arrived: idle from `clock` to the earliest pending
   * arrival, which is later, after which a pending task has arrived.
   */
  method IdleUntilArrival(key: Key, ts: seq<Process>, tl: seq<Segment>, clock: int, pending: seq<nat>)
    returns (ts2: seq<Process>, tl2: seq<Segment>, clock2: int, pending2: seq<nat>)
    requires Pending(key, ts, tl, clock, pending) && |pending| > 0
    requires PickArrived(key, ts, pending, clock).None?
    ensures ts2 == ts && pending2 == pending
    ensures clock < clock2 && clock2 == MinArrival(ts, pending)
    ensures tl2 == tl + [Segment(Idle, clock, clock2)]
    ensures Pending(key, ts2, tl2, clock2, pending2)
    ensures PickArrived(key, ts2, pending2, clock2).Some?
  {
    var nextA := MinArrival(ts, pending);
    var w :| w in pending && ts[w].arrival == nextA;
    IdleStep(key, ts, tl, clock, nextA, w);
    ts2, tl2, clock2, pending2 := ts, tl + [Segment(Idle, clock, nextA)], nextA, pending;
  }

  /** Run the pick `p` whole from `clock` in one segment and drop exactly it from the pending list. */
  method Dispatch(key: Key, ts: seq<Process>, tl: seq<Segment>, clock: int, pending: seq<nat>, p: nat)
    returns (ts2: seq<Process>, tl2: seq<Segment>, clock2: int, pending2: seq<nat>)
    requires Pending(key, ts, tl, clock, pending)
    requires PickArrived(key, ts, pending, clock) == Some(p)
    ensures p in pending && pending2 == Remove(pending, p) && |pending2| < |pending|
    ensures ts2 == Complete(ts, p, clock) && SameSpecs(ts2, ts)
    ensures clock2 == clock + ts[p].burst && tl2 == tl + [Segment(Task(p), clock, clock2)]
    ensures Pending(key, ts2, tl2, clock2, pending2)
  {
    assert p in pending && ts[p].arrival <= clock;
    assert forall j :: 0 <= j < |ts| && j != p && ts[j].state != Completed && ts[j].arrival <= clock ==>
             Precedes(key, ts, p, j) by {
      forall j | 0 <= j < |ts| && j != p && ts[j].state != Completed && ts[j].arrival <= clock
        ensures Precedes(key, ts, p, j)
      {
        assert j in pending;
      }
    }
    pending2 := Remove(pending, p);
    ts2, tl2, clock2 := RunWhole(ts, tl, clock, p);
    RunStep(key, ts, tl, clock, p, ts2, tl2, clock2);
    assert forall j :: 0 <= j < |ts2| ==> (j in pending2 <==> ts2[j].state != Completed) by {
      forall j | 0 <= j < |ts2|
        ensures j in pending2 <==> ts2[j].state != Completed
      {
        if j != p {
          assert ts2[j] == ts[j];
        }
      }
    }
  }

  /** `simulateSJF_Nonpreemptive`: shortest burst first, then earliest arrival. */
  method SimulateSJF(input: seq<Process>) returns (ts: seq<Process>, tl: seq<Segment>, clock: int)
    requires ValidBursts(input)
    ensures SameSpecs(ts, input) && CompleteRun(ts, tl, clock) && IdleOnlyWhenNothingReady(ts, tl)
    ensures forall i :: 0 <= i < |ts| ==> ts[i].remaining == ts[i].burst && OnePiece(ts, tl, i)
    ensures Dispatched(BurstThenArrival, ts)
  {
    ts, tl, clock := SimulateNonPreemptive(BurstThenArrival, input);
  }

  /** `simulatePriority_Nonpreemptive`: lowest priority number first, then earliest arrival. */
  method SimulatePriority(input: seq<Process>) returns (ts: seq<Process>, tl: seq<Segment>, clock: int)
    requires ValidBursts(input)
    ensures SameSpecs(ts, input) && CompleteRun(ts, tl, clock) && IdleOnlyWhenNothingReady(ts, tl)
    ensures forall i :: 0 <= i < |ts| ==> ts[i].remaining == ts[i].burst && OnePiece(ts, tl, i)
    ensures Dispatched(PriorityThenArrival, ts)
  {
    ts, tl, clock := SimulateNonPreemptive(PriorityThenArrival, input);
  }

  /** `simulateFocus_Nonpreemptive`: lowest priority number first, then earliest arrival, then lowest id. */
  method SimulateFocus(input: seq<Process>) returns (ts: seq<Process>, tl: seq<Segment>, clock: int)
    requires ValidBursts(input)
    ensures SameSpecs(ts, input) && CompleteRun(ts, tl, clock) && IdleOnlyWhenNothingReady(ts, tl)
    ensures forall i :: 0 <= i < |ts| ==> ts[i].remaining == ts[i].burst && OnePiece(ts, tl, i)
    ensures Dispatched(PriorityThenArrivalThenId, ts)
  {
    ts, tl, clock := SimulateNonPreemptive(PriorityThenArrivalThenId, input);
  }
}
