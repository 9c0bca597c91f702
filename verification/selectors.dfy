/**
 * The selection strategies: which pending task a whole-burst policy dispatches,
 * which available task a unit-step policy runs for the next time unit, and how
 * far an idle processor jumps. All are pure functions of the task list and the
 * clock; lists of candidates are lists of task positions kept in task order.
 */
module Selectors {
  import opened Processes
  import opened Ordering

  /** The conditions the drivers filter the task list by. */
  datatype Test =
    | ArrivedBy(clock: int)    // `p.arrival <= curTime`
    | AvailableAt(clock: int)  // `t.arrival <= curTime && t.remaining > 0`
    | Unfinished               // `t.remaining > 0`

  predicate Passes(test: Test, p: Process) {
    match test
    case ArrivedBy(clock) => p.arrival <= clock
    case AvailableAt(clock) => p.arrival <= clock && p.remaining > 0
    case Unfinished => p.remaining > 0
  }

  /** `s.filter(test)`: the entries of `s` whose task passes, in the order of `s`. */
  function Filter(ts: seq<Process>, s: seq<nat>, test: Test): (r: seq<nat>)
    requires Below(s, |ts|)
    ensures Below(r, |ts|)
    ensures forall j :: j in r <==> j in s && Passes(test, ts[j])
    ensures Increasing(s) ==> Increasing(r)
    decreases |s|
  {
    if s == [] then []
    else
      var rest := Filter(ts, s[1..], test);
      assert s == [s[0]] + s[1..];
      if Passes(test, ts[s[0]]) then
        assert Increasing(s) ==> forall k :: 0 <= k < |rest| ==> s[0] < rest[k] by {
          if Increasing(s) {
            forall k | 0 <= k < |rest|
              ensures s[0] < rest[k]
            {
              assert rest[k] in s[1..];
            }
          }
        }
        [s[0]] + rest
      else rest
  }

  /**
   * `Math.min` over the arrivals of a non-empty list of tasks: the earliest
   * arrival among them, which one of them has.
   */
  function MinArrival(ts: seq<Process>, s: seq<nat>): (m: int)
    requires Below(s, |ts|) && |s| > 0
    ensures exists j :: j in s && ts[j].arrival == m
    ensures forall j :: j in s ==> m <= ts[j].arrival
    decreases |s|
  {
    if |s| == 1 then ts[s[0]].arrival
    else
      var m := MinArrival(ts, s[1..]);
      assert s == [s[0]] + s[1..];
      if ts[s[0]].arrival < m then ts[s[0]].arrival else m
  }

  /**
   * The whole-burst pick, `arrived.sort(cmp)[0]` over the arrived pending
   * tasks: none exactly when no pending task has arrived; otherwise an arrived
   * pending task that Precedes every other arrived pending task, i.e. ranks
   * lowest by the comparator and, among ties, comes first in task order.
   */
  function PickArrived(key: Key, ts: seq<Process>, pending: seq<nat>, clock: int): (r: Option<nat>)
    requires Below(pending, |ts|) && Increasing(pending)
    ensures r.None? <==> forall j :: j in pending ==> ts[j].arrival > clock
    ensures r.Some? ==> r.value in pending && ts[r.value].arrival <= clock
    ensures r.Some? ==> forall j :: j in pending && ts[j].arrival <= clock && j != r.value ==>
                          Precedes(key, ts, r.value, j)
  {
    var arrived := Filter(ts, pending, ArrivedBy(clock));
    if |arrived| == 0 then None
    else
      StableSortHead(key, ts, arrived);
      Some(StableSort(key, ts, arrived)[0])
  }

  /**
   * Task `i` wins a `<` reduction against task `j`: it compares lower, or it
   * ties and comes later (the reduction keeps the right operand on a tie).
   */
  predicate Supersedes(key: Key, ts: seq<Process>, i: nat, j: nat)
    requires i < |ts| && j < |ts|
  {
    var c := Compare(key, ts[i], ts[j]);
    c < 0 || (c == 0 && i > j)
  }

  /** The reduction `(a, b) => cmp(a, b) < 0 ? a : b` (strict) or `<= 0` keeps its left operand. */
  predicate Keeps(key: Key, strict: bool, a: Process, b: Process) {
    var c := Compare(key, a, b);
    if strict then c < 0 else c <= 0
  }

  /** What the result of a strict reduction (Supersedes) or a non-strict one (Precedes) has over the others. */
  predicate Wins(key: Key, strict: bool, ts: seq<Process>, r: nat, j: nat)
    requires r < |ts| && j < |ts|
  {
    if strict then Supersedes(key, ts, r, j) else Precedes(key, ts, r, j)
  }

  /**
   * `[acc] + rest` reduced by `(a, b) => cmp(a, b) < 0 ? a : b` when `strict`,
   * or by `(a, b) => cmp(a, b) <= 0 ? a : b` otherwise. On a list in task
   * order the strict form returns the LAST of the lowest-ranked tasks and the
   * other form the FIRST.
   */
  function Reduce(key: Key, strict: bool, ts: seq<Process>, acc: nat, rest: seq<nat>): (r: nat)
    requires acc < |ts| && Below(rest, |ts|)
    requires Increasing(rest) && forall j :: j in rest ==> acc < j
    ensures r == acc || r in rest
    ensures forall j :: (j == acc || j in rest) && j != r ==> Wins(key, strict, ts, r, j)
    decreases |rest|
  {
    if rest == [] then acc
    else
      var next := if Keeps(key, strict, ts[acc], ts[rest[0]]) then acc else rest[0];
      ReduceTail(acc, rest);
      assert rest[0] in rest;
      assert forall j :: j in rest[1..] ==> j in rest;
      var r := Reduce(key, strict, ts, next, rest[1..]);
      ReduceStep(key, strict, ts, acc, rest, next, r);
      r
  }

  /** The tail of an increasing list is increasing and lies above its head. */
  lemma {:induction false} ReduceTail(acc: nat, rest: seq<nat>)
    requires |rest| > 0 && Increasing(rest)
    ensures Increasing(rest[1..])
    ensures forall j :: j in rest[1..] ==> rest[0] < j
  {
    forall j | j in rest[1..]
      ensures rest[0] < j
    {
      var k :| 0 <= k < |rest[1..]| && rest[1..][k] == j;
      assert rest[k + 1] == j;
    }
  }

  /**
   * One step of a reduction: the accumulator `acc` meets `rest[0]`, the
   * reduction keeps `next` of the two and, over `[next] + rest[1..]`, ends at
   * `r`; then `r` wins over all of `[acc] + rest`.
   */
  lemma {:induction false} ReduceStep(key: Key, strict: bool, ts: seq<Process>, acc: nat, rest: seq<nat>, next: nat, r: nat)
    requires acc < |ts| && r < |ts| && Below(rest, |ts|) && |rest| > 0
    requires acc < rest[0] && forall j :: j in rest[1..] ==> rest[0] < j
    requires next == if Keeps(key, strict, ts[acc], ts[rest[0]]) then acc else rest[0]
    requires r == next || r in rest[1..]
    requires forall j :: (j == next || j in rest[1..]) && j != r ==> Wins(key, strict, ts, r, j)
    ensures r == acc || r in rest
    ensures forall j :: (j == acc || j in rest) && j != r ==> Wins(key, strict, ts, r, j)
  {
    var b := rest[0];
    assert rest == [b] + rest[1..];
    assert r == next || r > b;
    forall j | (j == acc || j in rest) && j != r
      ensures Wins(key, strict, ts, r, j)
    {
      if j != next && j !in rest[1..] {
        var dropped := if next == acc then b else acc;
        assert j == dropped;
        CompareOrder(key, ts[r], ts[acc], ts[b]);
        CompareOrder(key, ts[r], ts[b], ts[acc]);
        CompareOrder(key, ts[acc], ts[b], ts[r]);
        if r != next {
          assert Wins(key, strict, ts, r, next);
        }
      }
    }
  }

  lemma {:induction false} InRange(n: nat)
    ensures forall j :: 0 <= j < n ==> j in Range(n)
  {
    forall j | 0 <= j < n
      ensures j in Range(n)
    {
      assert Range(n)[j] == j;
    }
  }

  /** The unit-step policies; each picks from the available tasks at every time unit. */
  datatype UnitPolicy =
    | SJFPreemptive       // reduce by remaining with `<`
    | SRTF                // reduce by remaining with `<=`, over the (arrival, id)-sorted list
    | PriorityPreemptive  // reduce by priority with `<`
    | FocusPreemptive     // stable sort by (priority, remaining), take the head

  /** The policy's selection prefers task `i` over task `j`. */
  predicate Beats(policy: UnitPolicy, ts: seq<Process>, i: nat, j: nat)
    requires i < |ts| && j < |ts|
  {
    match policy
    case SJFPreemptive => Supersedes(RemainingOnly, ts, i, j)
    case SRTF => Precedes(RemainingOnly, ts, i, j)
    case PriorityPreemptive => Supersedes(PriorityOnly, ts, i, j)
    case FocusPreemptive => Precedes(PriorityThenRemaining, ts, i, j)
  }

  /** Task `j` has arrived by `clock` and still has time remaining. */
  predicate AvailableTask(ts: seq<Process>, j: nat, clock: int)
    requires j < |ts|
  {
    ts[j].arrival <= clock && ts[j].remaining > 0
  }

  /**
   * The policy's pick among a non-empty list of available tasks in task order:
   * a listed task the policy prefers over every other listed task.
   */
  function Choose(policy: UnitPolicy, ts: seq<Process>, available: seq<nat>): (r: nat)
    requires |available| > 0 && Below(available, |ts|) && Increasing(available)
    ensures r in available
    ensures forall j :: j in available && j != r ==> Beats(policy, ts, r, j)
  {
    ReduceTail(available[0], available);
    assert available == [available[0]] + available[1..];
    match policy
    case SJFPreemptive => Reduce(RemainingOnly, true, ts, available[0], available[1..])
    case SRTF => Reduce(RemainingOnly, false, ts, available[0], available[1..])
    case PriorityPreemptive => Reduce(PriorityOnly, true, ts, available[0], available[1..])
    case FocusPreemptive =>
      StableSortHead(PriorityThenRemaining, ts, available);
      StableSort(PriorityThenRemaining, ts, available)[0]
  }

  /**
   * The unit-step pick over `simTasks.filter(t => t.arrival <= curTime && t.remaining > 0)`:
   * none exactly when no task is available; otherwise an available task that
   * the policy prefers over every other available task.
   */
  function PickAvailable(policy: UnitPolicy, ts: seq<Process>, clock: int): (r: Option<nat>)
    ensures r.None? <==> forall j :: 0 <= j < |ts| ==> !AvailableTask(ts, j, clock)
    ensures r.Some? ==> r.value < |ts| && AvailableTask(ts, r.value, clock)
    ensures r.Some? ==> forall j :: 0 <= j < |ts| && AvailableTask(ts, j, clock) && j != r.value ==>
                          Beats(policy, ts, r.value, j)
  {
    var available := Filter(ts, Range(|ts|), AvailableAt(clock));
    InRange(|ts|);
    if |available| == 0 then None
    else
      var w := available[0];
      assert w in available;
      assert w < |ts| && Passes(AvailableAt(clock), ts[w]);
      assert AvailableTask(ts, w, clock);
      Some(Choose(policy, ts, available))
  }
}
