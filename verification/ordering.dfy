/**
 * The comparators the policies sort and reduce with, and the stable sort of a
 * list of task positions. A comparator is the source's numeric one: a chain of
 * field differences joined by `||`, so the first non-zero difference decides.
 */
module Ordering {
  import opened Processes

  /** The field sequences the policies order tasks by, most significant first. */
  datatype Key =
    | ArrivalThenId
    | BurstThenArrival
    | PriorityThenArrival
    | PriorityThenArrivalThenId
    | PriorityThenRemaining
    | RemainingOnly
    | PriorityOnly

  /** `d || e` on numbers: the first difference unless it is zero. */
  function OrElse(d: int, e: int): int {
    if d != 0 then d else e
  }

  /** The comparator for `key`: negative when `a` goes first, zero on a tie. */
  function Compare(key: Key, a: Process, b: Process): int {
    match key
    case ArrivalThenId => OrElse(a.arrival - b.arrival, a.id - b.id)
    case BurstThenArrival => OrElse(a.burst - b.burst, a.arrival - b.arrival)
    case PriorityThenArrival => OrElse(a.priority - b.priority, a.arrival - b.arrival)
    case PriorityThenArrivalThenId =>
      OrElse(a.priority - b.priority, OrElse(a.arrival - b.arrival, a.id - b.id))
    case PriorityThenRemaining => OrElse(a.priority - b.priority, a.remaining - b.remaining)
    case RemainingOnly => a.remaining - b.remaining
    case PriorityOnly => a.priority - b.priority
  }

  /** Each comparator is antisymmetric and transitive, both for ties and for strict order. */
  lemma {:induction false} CompareOrder(key: Key, a: Process, b: Process, c: Process)
    ensures Compare(key, a, b) == -Compare(key, b, a)
    ensures Compare(key, a, b) <= 0 && Compare(key, b, c) <= 0 ==> Compare(key, a, c) <= 0
    ensures Compare(key, a, b) < 0 && Compare(key, b, c) <= 0 ==> Compare(key, a, c) < 0
    ensures Compare(key, a, b) <= 0 && Compare(key, b, c) < 0 ==> Compare(key, a, c) < 0
  {
  }

  /** Every entry of `s` is a task position below `n`. */
  predicate Below(s: seq<nat>, n: nat) {
    forall k :: 0 <= k < |s| ==> s[k] < n
  }

  /** The positions in `s` are strictly increasing, so the list keeps task order. */
  predicate Increasing(s: seq<nat>) {
    forall a, b :: 0 <= a < b < |s| ==> s[a] < s[b]
  }

  /**
   * Task `i` goes before task `j` in a stable sort by `key` of a list kept in
   * task order: it compares lower, or it ties and comes earlier.
   */
  predicate Precedes(key: Key, ts: seq<Process>, i: nat, j: nat)
    requires i < |ts| && j < |ts|
  {
    var c := Compare(key, ts[i], ts[j]);
    c < 0 || (c == 0 && i < j)
  }

  /** Precedes is a strict total order on task positions. */
  lemma {:induction false} PrecedesOrder(key: Key, ts: seq<Process>, i: nat, j: nat, l: nat)
    requires i < |ts| && j < |ts| && l < |ts|
    ensures !Precedes(key, ts, i, i)
    ensures i != j ==> (Precedes(key, ts, i, j) <==> !Precedes(key, ts, j, i))
    ensures Precedes(key, ts, i, j) && Precedes(key, ts, j, l) ==> Precedes(key, ts, i, l)
  {
    CompareOrder(key, ts[i], ts[j], ts[l]);
    CompareOrder(key, ts[j], ts[i], ts[l]);
  }

  /** `s` lists its positions in Precedes order. */
  predicate SortedBy(key: Key, ts: seq<Process>, s: seq<nat>)
    requires Below(s, |ts|)
  {
    forall a, b :: 0 <= a < b < |s| ==> Precedes(key, ts, s[a], s[b])
  }

  /** Puts `x` in front of the first entry it precedes. */
  function Insert(key: Key, ts: seq<Process>, x: nat, s: seq<nat>): (r: seq<nat>)
    requires x < |ts| && Below(s, |ts|) && SortedBy(key, ts, s) && x !in s
    ensures Below(r, |ts|) && SortedBy(key, ts, r)
    ensures multiset(r) == multiset(s) + multiset{x}
    decreases |s|
  {
    if s == [] then [x]
    else if Precedes(key, ts, x, s[0]) then
      InsertFront(key, ts, x, s);
      [x] + s
    else
      var tail := Insert(key, ts, x, s[1..]);
      InsertBehind(key, ts, x, s, tail);
      [s[0]] + tail
  }

  /** An entry that precedes the head of a sorted list precedes all of it. */
  lemma {:induction false} InsertFront(key: Key, ts: seq<Process>, x: nat, s: seq<nat>)
    requires x < |ts| && Below(s, |ts|) && SortedBy(key, ts, s) && |s| > 0
    requires Precedes(key, ts, x, s[0])
    ensures forall b :: 0 <= b < |s| ==> Precedes(key, ts, x, s[b])
  {
    forall b | 0 <= b < |s|
      ensures Precedes(key, ts, x, s[b])
    {
      PrecedesOrder(key, ts, x, s[0], s[b]);
    }
  }

  /** The head of a sorted list precedes the rest of it with an entry it precedes inserted. */
  lemma {:induction false} InsertBehind(key: Key, ts: seq<Process>, x: nat, s: seq<nat>, tail: seq<nat>)
    requires x < |ts| && Below(s, |ts|) && SortedBy(key, ts, s) && |s| > 0 && x !in s
    requires !Precedes(key, ts, x, s[0])
    requires Below(tail, |ts|) && multiset(tail) == multiset(s[1..]) + multiset{x}
    ensures forall b :: 0 <= b < |tail| ==> Precedes(key, ts, s[0], tail[b])
    ensures multiset([s[0]] + tail) == multiset(s) + multiset{x}
  {
    assert s == [s[0]] + s[1..];
    forall b | 0 <= b < |tail|
      ensures Precedes(key, ts, s[0], tail[b])
    {
      assert tail[b] in multiset(tail);
      if tail[b] == x {
        PrecedesOrder(key, ts, x, s[0], x);
      } else {
        assert tail[b] in s[1..];
        var k :| 0 <= k < |s[1..]| && s[1..][k] == tail[b];
        assert s[k + 1] == tail[b];
      }
    }
  }

  /**
   * The source's `list.sort(cmp)` on a list of task positions kept in task
   * order: a stable sort, realised as an insertion sort by Precedes.
   */
  function StableSort(key: Key, ts: seq<Process>, s: seq<nat>): (r: seq<nat>)
    requires Below(s, |ts|) && Increasing(s)
    ensures Below(r, |ts|) && SortedBy(key, ts, r)
    ensures multiset(r) == multiset(s)
    decreases |s|
  {
    if s == [] then []
    else
      var rest := StableSort(key, ts, s[1..]);
      assert s[0] !in s[1..] by {
        assert forall k :: 0 <= k < |s| - 1 ==> s[1..][k] == s[k + 1];
      }
      assert s[0] !in multiset(rest);
      assert s == [s[0]] + s[1..];
      Insert(key, ts, s[0], rest)
  }

  /**
   * What a stable sort of `s` by the comparator of `key` delivers: a
   * rearrangement of `s` in non-decreasing comparator order in which tied
   * tasks keep their order in `s` (task order, as `s` is increasing).
   */
  predicate IsStableSortOf(key: Key, ts: seq<Process>, s: seq<nat>, r: seq<nat>) {
    && Below(r, |ts|)
    && multiset(r) == multiset(s)
    && (forall a, b :: 0 <= a < b < |r| ==> Compare(key, ts[r[a]], ts[r[b]]) <= 0)
    && (forall a, b :: 0 <= a < b < |r| && Compare(key, ts[r[a]], ts[r[b]]) == 0 ==> r[a] < r[b])
  }

  /** StableSort delivers a stable sort, and it is the only list that does. */
  lemma {:induction false} StableSortIsTheStableSort(key: Key, ts: seq<Process>, s: seq<nat>, r: seq<nat>)
    requires Below(s, |ts|) && Increasing(s)
    ensures IsStableSortOf(key, ts, s, StableSort(key, ts, s))
    ensures IsStableSortOf(key, ts, s, r) <==> r == StableSort(key, ts, s)
  {
    var q := StableSort(key, ts, s);
    SortedIsStable(key, ts, s, q);
    if IsStableSortOf(key, ts, s, r) {
      StableIsSorted(key, ts, s, r);
      SortedUnique(key, ts, r, q);
    }
  }

  lemma {:induction false} SortedIsStable(key: Key, ts: seq<Process>, s: seq<nat>, q: seq<nat>)
    requires Below(q, |ts|) && SortedBy(key, ts, q) && multiset(q) == multiset(s)
    ensures IsStableSortOf(key, ts, s, q)
  {
    forall a, b | 0 <= a < b < |q|
      ensures Compare(key, ts[q[a]], ts[q[b]]) <= 0
    {
      assert Precedes(key, ts, q[a], q[b]);
    }
  }

  lemma {:induction false} StableIsSorted(key: Key, ts: seq<Process>, s: seq<nat>, r: seq<nat>)
    requires IsStableSortOf(key, ts, s, r)
    ensures SortedBy(key, ts, r)
  {
    forall a, b | 0 <= a < b < |r|
      ensures Precedes(key, ts, r[a], r[b])
    {
      assert Compare(key, ts[r[a]], ts[r[b]]) <= 0;
    }
  }

  /** Two lists sorted by Precedes with the same entries are equal. */
  lemma {:induction false} SortedUnique(key: Key, ts: seq<Process>, r1: seq<nat>, r2: seq<nat>)
    requires Below(r1, |ts|) && Below(r2, |ts|)
    requires SortedBy(key, ts, r1) && SortedBy(key, ts, r2)
    requires multiset(r1) == multiset(r2)
    ensures r1 == r2
    decreases |r1|
  {
    if r1 == [] {
      assert |multiset(r2)| == 0;
    } else {
      assert |r2| > 0 by {
        assert r1[0] in multiset(r2);
      }
      assert r1[0] in r2 by { assert r1[0] in multiset(r2); }
      assert r2[0] in r1 by { assert r2[0] in multiset(r1); }
      SortedHead(key, ts, r1, r2);
      SortedTail(key, ts, r1, r2);
      SortedUnique(key, ts, r1[1..], r2[1..]);
    }
  }

  /** Two sorted lists, each holding the other's head, start with the same position. */
  lemma {:induction false} SortedHead(key: Key, ts: seq<Process>, r1: seq<nat>, r2: seq<nat>)
    requires Below(r1, |ts|) && Below(r2, |ts|) && |r1| > 0 && |r2| > 0
    requires SortedBy(key, ts, r1) && SortedBy(key, ts, r2)
    requires r1[0] in r2 && r2[0] in r1
    ensures r1[0] == r2[0]
  {
    if r1[0] != r2[0] {
      var a :| 0 <= a < |r1| && r1[a] == r2[0];
      var b :| 0 <= b < |r2| && r2[b] == r1[0];
      assert Precedes(key, ts, r1[0], r2[0]);
      assert Precedes(key, ts, r2[0], r1[0]);
      PrecedesOrder(key, ts, r1[0], r2[0], r1[0]);
    }
  }

  /** Sorted lists with equal heads and equal contents have sorted tails with equal contents. */
  lemma {:induction false} SortedTail(key: Key, ts: seq<Process>, r1: seq<nat>, r2: seq<nat>)
    requires Below(r1, |ts|) && Below(r2, |ts|) && |r1| > 0 && |r2| > 0
    requires SortedBy(key, ts, r1) && SortedBy(key, ts, r2)
    requires multiset(r1) == multiset(r2) && r1[0] == r2[0]
    ensures Below(r1[1..], |ts|) && Below(r2[1..], |ts|)
    ensures SortedBy(key, ts, r1[1..]) && SortedBy(key, ts, r2[1..])
    ensures multiset(r1[1..]) == multiset(r2[1..])
  {
    assert r1 == [r1[0]] + r1[1..];
    assert r2 == [r2[0]] + r2[1..];
    assert multiset(r1[1..]) == multiset(r1) - multiset{r1[0]};
    assert multiset(r2[1..]) == multiset(r2) - multiset{r2[0]};
  }

  /**
   * The head of a stable sort, `list.sort(cmp)[0]`, is the first task in task
   * order among those the comparator ranks lowest.
   */
  lemma {:induction false} StableSortHead(key: Key, ts: seq<Process>, s: seq<nat>)
    requires Below(s, |ts|) && Increasing(s) && |s| > 0
    ensures StableSort(key, ts, s)[0] in s
    ensures forall j :: j in s && j != StableSort(key, ts, s)[0] ==> Precedes(key, ts, StableSort(key, ts, s)[0], j)
  {
    var r := StableSort(key, ts, s);
    assert r[0] in multiset(s);
    forall j | j in s && j != r[0]
      ensures Precedes(key, ts, r[0], j)
    {
      assert j in multiset(r);
      var b :| 0 <= b < |r| && r[b] == j;
    }
  }

  /** The tasks listed in the order `order` gives. */
  function Reorder(ts: seq<Process>, order: seq<nat>): (r: seq<Process>)
    requires Below(order, |ts|)
    ensures |r| == |order|
    ensures forall k :: 0 <= k < |order| ==> r[k] == ts[order[k]]
  {
    seq(|order|, k requires 0 <= k < |order| => ts[order[k]])
  }

  /** `simTasks.sort((a, b) => a.arrival - b.arrival || a.id - b.id)`. */
  function ByArrival(ts: seq<Process>): (r: seq<Process>)
  {
    Reorder(ts, StableSort(ArrivalThenId, ts, Range(|ts|)))
  }

  /**
   * Sorting by (arrival, id) rearranges the tasks: every input task appears
   * exactly once, the result is ordered by arrival and then id, and tasks
   * with equal arrival and id keep their input order.
   */
  lemma {:induction false} ByArrivalSorted(ts: seq<Process>)
    ensures |ByArrival(ts)| == |ts|
    ensures forall a, b :: 0 <= a < b < |ts| ==>
              ByArrival(ts)[a].arrival < ByArrival(ts)[b].arrival ||
              (ByArrival(ts)[a].arrival == ByArrival(ts)[b].arrival && ByArrival(ts)[a].id <= ByArrival(ts)[b].id)
    ensures exists order: seq<nat> :: IsStableSortOf(ArrivalThenId, ts, Range(|ts|), order) && ByArrival(ts) == Reorder(ts, order)
  {
    var s := Range(|ts|);
    var order := StableSort(ArrivalThenId, ts, s);
    var w := ByArrival(ts);
    StableSortIsTheStableSort(ArrivalThenId, ts, s, order);
    assert |multiset(order)| == |multiset(s)|;
  }

  /**
   * A list with the inputs of the (arrival, id)-sorted list is in arrival order,
   * and each task Precedes the later ones by (arrival, id).
   */
  lemma {:induction false} ArrivalOrder(ts: seq<Process>, input: seq<Process>, sorted: seq<Process>)
    requires sorted == ByArrival(input) && SameSpecs(ts, sorted)
    ensures forall a, b :: 0 <= a < b < |ts| ==> ts[a].arrival <= ts[b].arrival && Precedes(ArrivalThenId, ts, a, b)
  {
    ByArrivalSorted(input);
    forall a, b | 0 <= a < b < |ts|
      ensures ts[a].arrival <= ts[b].arrival && Precedes(ArrivalThenId, ts, a, b)
    {
      assert SameSpec(ts[a], ByArrival(input)[a]) && SameSpec(ts[b], ByArrival(input)[b]);
    }
  }
}
