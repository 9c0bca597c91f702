/** First-come first-served: the tasks run whole, in (arrival, id) order. */
module Fcfs {
  import opened Processes
  import opened Timeline
  import opened Ordering
  import opened Schedule
  import opened WholeBurst

  /**
   * `simulateFCFS`: sort by arrival then id, reset, then for each task in
   * turn idle up to its arrival if it has not arrived, and run it whole.
   * Returns the final task list, the timeline and the final clock.
   */
  method SimulateFCFS(input: seq<Process>) returns (ts: seq<Process>, tl: seq<Segment>, clock: int)
    requires ValidBursts(input)
    ensures SameSpecs(ts, ByArrival(input))
    ensures CompleteRun(ts, tl, clock)
    ensures forall i :: 0 <= i < |ts| ==> ts[i].remaining == ts[i].burst && OnePiece(ts, tl, i)
    ensures Dispatched(ArrivalThenId, ts)
    ensures IdleOnlyWhenNothingReady(ts, tl)
    ensures forall a, b :: 0 <= a < b < |ts| ==> Finish(ts[a]) <= Start(ts[b])
  {
    var sorted := ByArrival(input);
    ts := Reset(sorted);
    tl := [];
    clock := 0;
    var n := |ts|;
    Begin(ArrivalThenId, ts);
    for i := 0 to n
      invariant |ts| == n && SameSpecs(ts, sorted)
      invariant Served(ts, tl, clock, i)
    {
      ArrivalOrder(ts, input, sorted);
      ts, tl, clock := Next(ts, tl, clock, i);
    }
    End(ts, tl, clock);
  }

  /**
   * The loop invariant after the first `i` tasks: exactly they have completed,
   * each finishing before the next started and by `clock`; the timeline
   * covers [0, clock), each dispatch was the (arrival, id) pick, and idling
   * happened only while nothing was ready.
   */
  predicate Served(ts: seq<Process>, tl: seq<Segment>, clock: int, i: nat) {
    && Progress(ts, tl, clock) && Dispatched(ArrivalThenId, ts) && IdleOnlyWhenNothingReady(ts, tl)
    && (forall j :: 0 <= j < |ts| ==> (ts[j].state == Completed <==> j < i))
    && (forall a, b :: 0 <= a < b < i && b < |ts| ==> Finish(ts[a]) <= Start(ts[b]))
    && (forall a :: 0 <= a < i && a < |ts| ==> Finish(ts[a]) <= clock)
  }

  /**
   * One iteration: idle up to task `i`'s arrival if it has not arrived, then
   * run it whole from the later of the clock and its arrival.
   */
  method Next(ts: seq<Process>, tl: seq<Segment>, clock: int, i: nat)
    returns (ts2: seq<Process>, tl2: seq<Segment>, clock2: int)
    requires i < |ts| && Served(ts, tl, clock, i)
    requires forall a, b :: 0 <= a < b < |ts| ==> ts[a].arrival <= ts[b].arrival && Precedes(ArrivalThenId, ts, a, b)
    ensures SameSpecs(ts2, ts) && Served(ts2, tl2, clock2, i + 1)
    ensures var start := if clock < ts[i].arrival then ts[i].arrival else clock;
            ts2 == Complete(ts, i, start) && clock2 == start + ts[i].burst &&
            tl2 == tl + (if clock < ts[i].arrival then [Segment(Idle, clock, start)] else []) + [Segment(Task(i), start, clock2)]
  {
    var tl1, start := CatchUp(ts, tl, clock, i);
    ts2, tl2, clock2 := RunWhole(ts, tl1, start, i);
    RunStep(ArrivalThenId, ts, tl1, start, i, ts2, tl2, clock2);
    RunAfter(ts, i, clock, start);
  }

  /**
   * `if (curTime < t.arrival)`: when task `i` has not arrived, idle from the
   * clock to its arrival; the clock is then the later of the two.
   */
  method CatchUp(ts: seq<Process>, tl: seq<Segment>, clock: int, i: nat) returns (tl2: seq<Segment>, clock2: int)
    requires i < |ts|
    requires Progress(ts, tl, clock) && Dispatched(ArrivalThenId, ts) && IdleOnlyWhenNothingReady(ts, tl)
    requires forall j :: 0 <= j < |ts| ==> (ts[j].state == Completed <==> j < i)
    requires forall a, b :: 0 <= a < b < |ts| ==> ts[a].arrival <= ts[b].arrival && Precedes(ArrivalThenId, ts, a, b)
    ensures clock2 == if clock < ts[i].arrival then ts[i].arrival else clock
    ensures tl2 == tl + (if clock < ts[i].arrival then [Segment(Idle, clock, clock2)] else [])
    ensures Progress(ts, tl2, clock2) && IdleOnlyWhenNothingReady(ts, tl2)
  {
    if clock < ts[i].arrival {
      IdleStep(ArrivalThenId, ts, tl, clock, ts[i].arrival, i);
      tl2, clock2 := tl + [Segment(Idle, clock, ts[i].arrival)], ts[i].arrival;
    } else {
      tl2, clock2 := tl, clock;
      assert tl + [] == tl;
    }
  }

  /** Run at or after `clock`, task `i` starts after every earlier task finished. */
  lemma {:induction false} RunAfter(ts: seq<Process>, i: nat, clock: int, start: int)
    requires i < |ts| && clock <= start
    requires forall a, b :: 0 <= a < b < i ==> Finish(ts[a]) <= Start(ts[b])
    requires forall a :: 0 <= a < i ==> Finish(ts[a]) <= clock
    ensures forall a, b :: 0 <= a < b <= i ==> Finish(Complete(ts, i, start)[a]) <= Start(Complete(ts, i, start)[b])
  {
  }
}
