/**
 * The progress panel of the frontend: how many tasks are in each status and
 * what rounded percentage of all tasks each count is.
 */
module TaskProgress {
  import opened JsArrays
  import opened TaskModel

  /** The callback given to `filter` when counting one status. */
  function HasStatus(s: string): Task -> bool {
    (t: Task) => t.status == s
  }

  /** `tasks.filter(task => task.status === s).length`. */
  function CountStatus(tasks: seq<Task>, s: string): (c: nat)
    ensures c <= |tasks|
    ensures c == 0 <==> forall t :: t in tasks ==> t.status != s
  {
    var kept := Filter(tasks, HasStatus(s));
    assert kept != [] ==> kept[0] in kept;
    |kept|
  }

  /** The tasks whose status is outside the enum. */
  function CountOther(tasks: seq<Task>): (c: nat)
    ensures c <= |tasks|
    ensures c == 0 <==> forall t :: t in tasks ==> IsStatus(t.status)
  {
    var kept := Filter(tasks, (t: Task) => !IsStatus(t.status));
    assert kept != [] ==> kept[0] in kept;
    |kept|
  }

  /**
   * `totalTasks ? Math.round((count / totalTasks) * 100) : 0` in exact
   * arithmetic: the integer nearest to 100 * count / total, halves rounded up.
   */
  function RoundedPercent(count: nat, total: nat): (r: nat)
    ensures total == 0 ==> r == 0
    ensures total > 0 ==> 2 * total * r <= 200 * count + total < 2 * total * (r + 1)
  {
    if total == 0 then 0 else (200 * count + total) / (2 * total)
  }

  /** The statistics the panel shows. */
  datatype Progress = Progress(
    total: nat,
    completed: nat,
    inProgress: nat,
    pending: nat,
    completionPercentage: nat,
    inProgressPercentage: nat,
    pendingPercentage: nat)

  function Stats(tasks: seq<Task>): (p: Progress)
    ensures p.total == |tasks|
    ensures p.completed <= p.total && p.inProgress <= p.total && p.pending <= p.total
  {
    var c := CountStatus(tasks, Completed);
    var i := CountStatus(tasks, InProgress);
    var n := CountStatus(tasks, Pending);
    Progress(|tasks|, c, i, n,
      RoundedPercent(c, |tasks|), RoundedPercent(i, |tasks|), RoundedPercent(n, |tasks|))
  }

  // ----- Properties -----

  /** A share of at most the whole is at most 100 percent; none is 0, all is 100. */
  lemma PercentBounds(count: nat, total: nat)
    requires count <= total
    ensures RoundedPercent(count, total) <= 100
    ensures count == 0 ==> RoundedPercent(count, total) == 0
    ensures 0 < total && count == total ==> RoundedPercent(count, total) == 100
  {
    if total > 0 {
      var r := RoundedPercent(count, total);
      if r > 100 {
        MulAtLeast(2 * total, r, 101);
        assert false;
      }
      if count == 0 && r > 0 {
        MulAtLeast(2 * total, r, 1);
        assert false;
      }
      if count == total && r < 100 {
        MulAtLeast(2 * total, 100, r + 1);
        assert false;
      }
    }
  }

  lemma MulAtLeast(a: nat, x: nat, y: nat)
    requires x >= y
    ensures a * x >= a * y
  {
  }

  /** Counting one more task adds one to the count of its status only. */
  lemma CountCons(t: Task, rest: seq<Task>, s: string)
    ensures CountStatus([t] + rest, s) == (if t.status == s then 1 else 0) + CountStatus(rest, s)
  {
    assert ([t] + rest)[1..] == rest;
  }

  lemma CountOtherCons(t: Task, rest: seq<Task>)
    ensures CountOther([t] + rest) == (if IsStatus(t.status) then 0 else 1) + CountOther(rest)
  {
    assert ([t] + rest)[1..] == rest;
  }

  /** Every task is counted exactly once: in its status, or among the others. */
  lemma {:induction false} CountsPartition(tasks: seq<Task>)
    ensures CountStatus(tasks, Completed) + CountStatus(tasks, InProgress)
      + CountStatus(tasks, Pending) + CountOther(tasks) == |tasks|
  {
    if tasks != [] {
      var t, rest := tasks[0], tasks[1..];
      assert tasks == [t] + rest;
      CountCons(t, rest, Completed);
      CountCons(t, rest, InProgress);
      CountCons(t, rest, Pending);
      CountOtherCons(t, rest);
      CountsPartition(rest);
    }
  }

  /** When every status is in the enum, the three counts add up to the total. */
  lemma CountsSumToTotal(tasks: seq<Task>)
    requires forall t :: t in tasks ==> IsStatus(t.status)
    ensures var p := Stats(tasks); p.completed + p.inProgress + p.pending == p.total
  {
    CountsPartition(tasks);
  }

  /** Every percentage lies in 0..100, and all are 0 for an empty list. */
  lemma PercentagesInRange(tasks: seq<Task>)
    ensures var p := Stats(tasks);
      p.completionPercentage <= 100 && p.inProgressPercentage <= 100 && p.pendingPercentage <= 100
    ensures tasks == [] ==> var p := Stats(tasks);
      p.completionPercentage == 0 && p.inProgressPercentage == 0 && p.pendingPercentage == 0
  {
    var p := Stats(tasks);
    PercentBounds(p.completed, p.total);
    PercentBounds(p.inProgress, p.total);
    PercentBounds(p.pending, p.total);
  }

  /** Completion is 100 percent when every task is completed, 0 when none is. */
  lemma CompletionExtremes(tasks: seq<Task>)
    ensures tasks != [] && (forall t :: t in tasks ==> t.status == Completed) ==>
      Stats(tasks).completionPercentage == 100
    ensures (forall t :: t in tasks ==> t.status != Completed) ==>
      Stats(tasks).completionPercentage == 0
  {
    if tasks != [] && forall t :: t in tasks ==> t.status == Completed {
      FilterKeepsAll(tasks, HasStatus(Completed));
      PercentBounds(|tasks|, |tasks|);
    }
    PercentBounds(CountStatus(tasks, Completed), |tasks|);
  }

  /**
   * Rounding each share separately can miss 100 by one either way: with
   * every status in the enum the three percentages add up to 99, 100 or 101.
   */
  lemma PercentagesNearlySum(tasks: seq<Task>)
    requires tasks != [] && forall t :: t in tasks ==> IsStatus(t.status)
    ensures var p := Stats(tasks);
      99 <= p.completionPercentage + p.inProgressPercentage + p.pendingPercentage <= 101
  {
    var p := Stats(tasks);
    CountsSumToTotal(tasks);
    RoundingsNearlySum(p.completed, p.inProgress, p.pending, p.total);
  }

  /** Three round-half-up shares of a whole add up to 99, 100 or 101. */
  lemma RoundingsNearlySum(c1: nat, c2: nat, c3: nat, t: nat)
    requires t > 0 && c1 + c2 + c3 == t
    ensures 99 <= RoundedPercent(c1, t) + RoundedPercent(c2, t) + RoundedPercent(c3, t) <= 101
  {
    var r1, r2, r3 := RoundedPercent(c1, t), RoundedPercent(c2, t), RoundedPercent(c3, t);
    var a := 2 * t;
    var sum := r1 + r2 + r3;
    assert a * sum == a * r1 + a * r2 + a * r3;
    assert a * (sum + 3) == a * (r1 + 1) + a * (r2 + 1) + a * (r3 + 1);
    assert 200 * c1 + 200 * c2 + 200 * c3 == 200 * t;
    assert a * sum <= 203 * t < a * (sum + 3);
    if sum > 101 {
      MulAtLeast(a, sum, 102);
      assert false;
    }
    if sum < 99 {
      MulAtLeast(a, 101, sum + 3);
      assert false;
    }
  }
}
