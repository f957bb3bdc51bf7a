/**
 The Joseph and Pandya response-time test that load_analysis.cpp sets out to
 solve, and what its solutions say about every preemptive static-priority log.
 */
module ResponseTime {
  import opened Options
  import opened Arith
  import opened TaskModel
  import opened Schedules

  /** Work released by ts[..n] in a window of length x that starts with a release of each. */
  function Interference(ts: seq<Task>, n: nat, x: nat): nat
    requires ValidSet(ts) && n <= |ts|
  {
    if n == 0 then 0 else Interference(ts, n - 1, x) + Arrived(ts[n - 1], x)
  }

  /** Right-hand side of the recurrence for task i when every task of lower index interferes. */
  function Demand(ts: seq<Task>, i: nat, x: nat): nat
    requires ValidSet(ts) && i < |ts|
  {
    ts[i].wcet + Interference(ts, i, x)
  }

  /** r is the least solution of the recurrence, and lies below every x that satisfies its demand. */
  ghost predicate LeastResponse(ts: seq<Task>, i: nat, r: nat)
    requires ValidSet(ts) && i < |ts|
  {
    && Demand(ts, i, r) == r
    && forall x: nat :: Demand(ts, i, x) <= x ==> r <= x
  }

  /** Some window not longer than the deadline satisfies its own demand. */
  ghost predicate Responsive(ts: seq<Task>, i: nat)
    requires ValidSet(ts) && i < |ts|
  {
    exists x: nat :: x <= ts[i].deadline && Demand(ts, i, x) <= x
  }

  lemma {:induction false} InterferenceMono(ts: seq<Task>, n: nat, x: nat, y: nat)
    requires ValidSet(ts) && n <= |ts| && x <= y
    ensures Interference(ts, n, x) <= Interference(ts, n, y)
  {
    if n == 0 {
    } else {
      InterferenceMono(ts, n - 1, x, y);
      ArrivedMono(ts[n - 1], x, y);
    }
  }

  /**
   The fixed-point iteration started from the task's own work. It climbs
   monotonically, stops at the least solution when one lies within the bound,
   and otherwise proves that no window within the bound satisfies its demand.
   */
  method SolveResponse(ts: seq<Task>, i: nat, bound: nat) returns (r: Option<nat>)
    requires ValidSet(ts) && i < |ts|
    ensures r.Some? ==> r.value <= bound && LeastResponse(ts, i, r.value)
    ensures r.None? ==> forall x: nat :: x <= bound ==> x < Demand(ts, i, x)
  {
    var guess := ts[i].wcet;
    while guess <= bound
      invariant guess <= Demand(ts, i, guess)
      invariant forall x: nat :: Demand(ts, i, x) <= x ==> guess <= x
      decreases bound - guess
    {
      var next := Demand(ts, i, guess);
      if next == guess {
        return Some(guess);
      }
      forall x: nat | Demand(ts, i, x) <= x
        ensures next <= x
      {
        InterferenceMono(ts, i, guess, x);
      }
      InterferenceMono(ts, i, guess, next);
      guess := next;
    }
    return None;
  }

  /** Start of the interval, ending at t, during which only tasks of index below i ran. */
  lemma {:induction false} BusyStart(ts: seq<Task>, log: Log, i: nat, t: nat) returns (s: nat)
    requires ValidSet(ts) && i <= |ts| && t <= |log| && PriorityLog(ts, log)
    ensures s <= t
    ensures forall u :: s <= u < t ==> log[u].Run? && log[u].task < i
    ensures forall j :: 0 <= j < i ==> Arrived(ts[j], s) <= Work(log, j, s)
  {
    if t == 0 {
      s := 0;
    } else if log[t - 1].Run? && log[t - 1].task < i {
      s := BusyStart(ts, log, i, t - 1);
    } else {
      s := t;
      forall j | 0 <= j < i
        ensures Arrived(ts[j], t) <= Work(log, j, t)
      {
        NotPendingServed(ts, log, j, t);
      }
    }
  }

  lemma {:induction false} NotPendingServed(ts: seq<Task>, log: Log, j: nat, t: nat)
    requires ValidSet(ts) && j < |ts| && 0 < t <= |log| && !Pending(ts, log, j, t - 1)
    ensures Arrived(ts[j], t) <= Work(log, j, t)
  {
    WorkMono(log, j, t - 1, t);
  }

  /** From a point where all its earlier releases are served, a window serves a task at most its new releases. */
  lemma WindowWorkOne(ts: seq<Task>, log: Log, j: nat, s: nat, x: nat)
    requires ValidSet(ts) && j < |ts| && s + x <= |log| && RunsPending(ts, log)
    requires Arrived(ts[j], s) <= Work(log, j, s)
    ensures Work(log, j, s + x) <= Work(log, j, s) + Arrived(ts[j], x)
  {
    WorkWithinReleases(ts, log, j, s + x);
    ArrivedSubadditive(ts[j], s, x);
  }

  lemma {:induction false} WindowWork(ts: seq<Task>, log: Log, n: nat, s: nat, x: nat)
    requires ValidSet(ts) && n <= |ts| && s + x <= |log|
    requires forall j :: 0 <= j < n ==> Work(log, j, s + x) <= Work(log, j, s) + Arrived(ts[j], x)
    ensures SumWork(log, n, s + x) <= SumWork(log, n, s) + Interference(ts, n, x)
  {
    if n == 0 {
    } else {
      WindowWork(ts, log, n - 1, s, x);
    }
  }

  /** While work of task i released by time a is unfinished, only tasks of index at most i run. */
  lemma BusyWhilePending(ts: seq<Task>, log: Log, i: nat, a: nat, t: nat)
    requires ValidSet(ts) && i < |ts| && t <= |log| && PriorityLog(ts, log)
    requires Work(log, i, t) < Released(ts[i], a)
    ensures forall u :: a <= u < t ==> log[u].Run? && log[u].task <= i
  {
    forall u | a <= u < t
      ensures log[u].Run? && log[u].task <= i
    {
      WorkMono(log, i, u, t);
      PeriodWorkMono(ts[i], a, u);
      assert Pending(ts, log, i, u);
    }
  }

  /** A job unfinished r after its release at a, with no older job left at a, forces demand above r. */
  lemma LateJobDemand(ts: seq<Task>, log: Log, i: nat, a: nat, r: nat)
    requires ValidSet(ts) && i < |ts| && PriorityLog(ts, log) && a + r <= |log|
    requires forall u :: a <= u < a + r ==> log[u].Run? && log[u].task <= i
    requires Work(log, i, a + r) < Work(log, i, a) + ts[i].wcet
    ensures r < Demand(ts, i, r)
  {
    var s := BusyStart(ts, log, i, a);
    forall j | 0 <= j < i
      ensures Work(log, j, s + r) <= Work(log, j, s) + Arrived(ts[j], r)
    {
      WindowWorkOne(ts, log, j, s, r);
    }
    WindowWork(ts, log, i, s, r);
    BusyWindow(log, i, s, a, r);
  }

  /** Counting in a window that starts with higher-priority tasks only and continues with tasks of index at most i. */
  lemma BusyWindow(log: Log, i: nat, s: nat, a: nat, r: nat)
    requires s <= a && a + r <= |log|
    requires forall u :: s <= u < a ==> log[u].Run? && log[u].task < i
    requires forall u :: a <= u < a + r ==> log[u].Run? && log[u].task <= i
    ensures SumWork(log, i, s + r) - SumWork(log, i, s) + Work(log, i, a + r) - Work(log, i, a) >= r
  {
    WorkFlat(log, i, s, a);
    WorkMono(log, i, s + r, a + r);
    SumWorkBusy(log, i + 1, s, s + r);
  }

  /**
   Soundness for one task: if some window r, not longer than the period,
   satisfies the demand of task i, every job of task i is finished r after its
   release, in every log and whatever the other tasks' deadlines.
   */
  lemma {:induction false} ResponseBound(ts: seq<Task>, log: Log, i: nat, r: nat, j: nat)
    requires ValidSet(ts) && i < |ts| && PriorityLog(ts, log)
    requires Demand(ts, i, r) <= r <= ts[i].period
    requires j * ts[i].period + r <= |log|
    ensures (j + 1) * ts[i].wcet <= Work(log, i, j * ts[i].period + r)
    decreases j
  {
    var a := j * ts[i].period;
    if j > 0 {
      var b := (j - 1) * ts[i].period;
      assert a == b + ts[i].period;
      ResponseBound(ts, log, i, r, j - 1);
      WorkMono(log, i, b + r, a);
    }
    ReleasedAt(ts[i], j);
    JobBound(ts, log, i, r, a);
  }

  lemma ReleasedAt(k: Task, j: nat)
    requires ValidTask(k)
    ensures Released(k, j * k.period) == (j + 1) * k.wcet == j * k.wcet + k.wcet
  {
    PeriodWorkClosed(k, j * k.period);
    CeilDivMultiple(j, k.period);
    AddOne(j, k.wcet);
  }

  lemma JobBound(ts: seq<Task>, log: Log, i: nat, r: nat, a: nat)
    requires ValidSet(ts) && i < |ts| && PriorityLog(ts, log)
    requires Demand(ts, i, r) <= r && a + r <= |log|
    requires Released(ts[i], a) <= Work(log, i, a) + ts[i].wcet
    ensures Released(ts[i], a) <= Work(log, i, a + r)
  {
    if Work(log, i, a + r) < Released(ts[i], a) {
      BusyWhilePending(ts, log, i, a, a + r);
      LateJobDemand(ts, log, i, a, r);
    }
  }

  /** The first job of task i, released together with all others, finishes exactly at a solution. */
  lemma FirstFinishSolves(ts: seq<Task>, log: Log, i: nat, f: nat)
    requires ValidSet(ts) && i < |ts| && PriorityLog(ts, log)
    requires 0 < f <= |log|
    requires Work(log, i, f - 1) < ts[i].wcet <= Work(log, i, f)
    ensures Demand(ts, i, f) == f
  {
    FirstJobBusy(ts, log, i, f);
    AllReleasedServed(ts, log, i, i, f);
  }

  lemma FirstJobBusy(ts: seq<Task>, log: Log, i: nat, f: nat)
    requires ValidSet(ts) && i < |ts| && PriorityLog(ts, log)
    requires 0 < f <= |log|
    requires Work(log, i, f - 1) < ts[i].wcet <= Work(log, i, f)
    ensures log[f - 1] == Run(i)
    ensures SumWork(log, i, f) + ts[i].wcet == f
  {
    BusyWhilePending(ts, log, i, 0, f - 1);
    BusyFromStart(log, i, f);
  }

  lemma BusyFromStart(log: Log, i: nat, f: nat)
    requires 0 < f <= |log| && log[f - 1] == Run(i)
    requires forall u :: 0 <= u < f - 1 ==> log[u].Run? && log[u].task <= i
    ensures SumWork(log, i, f) + Work(log, i, f) == f
  {
    SumWorkBusy(log, i + 1, 0, f);
    SumWorkZero(log, i + 1);
  }

  lemma {:induction false} AllReleasedServed(ts: seq<Task>, log: Log, i: nat, n: nat, f: nat)
    requires ValidSet(ts) && n <= i < |ts| && PriorityLog(ts, log)
    requires 0 < f <= |log| && log[f - 1] == Run(i)
    ensures SumWork(log, n, f) == Interference(ts, n, f)
  {
    if n == 0 {
    } else {
      AllReleasedServed(ts, log, i, n - 1, f);
      assert !Pending(ts, log, n - 1, f - 1);
      WorkWithinReleases(ts, log, n - 1, f);
    }
  }

  /** First instant at which task i has received w ticks. */
  lemma {:induction false} FirstReach(log: Log, i: nat, w: nat, t: nat) returns (f: nat)
    requires t <= |log| && 0 < w <= Work(log, i, t)
    ensures 0 < f <= t
    ensures Work(log, i, f - 1) < w <= Work(log, i, f)
  {
    if w <= Work(log, i, t - 1) {
      f := FirstReach(log, i, w, t - 1);
    } else {
      f := t;
    }
  }

  /** The test is sufficient. */
  lemma ResponsiveSufficient(ts: seq<Task>, log: Log)
    requires ValidSet(ts) && PriorityLog(ts, log)
    requires forall i :: 0 <= i < |ts| ==> Responsive(ts, i)
    ensures MeetsDeadlines(ts, log)
  {
    forall i: nat, j: nat | i < |ts| && JobDeadline(ts[i], j) <= |log|
      ensures JobMet(ts, log, i, j)
    {
      assert Responsive(ts, i);
      var r: nat :| r <= ts[i].deadline && Demand(ts, i, r) <= r;
      ResponseBound(ts, log, i, r, j);
      WorkMono(log, i, j * ts[i].period + r, JobDeadline(ts[i], j));
    }
  }

  /** A first job finished by t finished at a solution of the recurrence. */
  lemma FirstFinishBy(ts: seq<Task>, log: Log, i: nat, t: nat) returns (f: nat)
    requires ValidSet(ts) && i < |ts| && PriorityLog(ts, log)
    requires t <= |log| && ts[i].wcet <= Work(log, i, t)
    ensures 0 < f <= t && Demand(ts, i, f) == f
    ensures Work(log, i, f - 1) < ts[i].wcet <= Work(log, i, f)
  {
    f := FirstReach(log, i, ts[i].wcet, t);
    FirstFinishSolves(ts, log, i, f);
  }

  /** The test is necessary: a log that reaches the first deadline of task i and meets it solves the recurrence. */
  lemma ResponsiveNecessary(ts: seq<Task>, log: Log, i: nat)
    requires ValidSet(ts) && i < |ts| && PriorityLog(ts, log)
    requires ts[i].deadline <= |log| && MeetsDeadlines(ts, log)
    ensures Responsive(ts, i)
  {
    assert JobDeadline(ts[i], 0) == ts[i].deadline;
    assert JobMet(ts, log, i, 0);
    var f := FirstFinishBy(ts, log, i, ts[i].deadline);
  }

  /** The worst case is attained: the first job of task i takes exactly the least response. */
  lemma LeastResponseAttained(ts: seq<Task>, log: Log, i: nat, r: nat)
    requires ValidSet(ts) && i < |ts| && PriorityLog(ts, log)
    requires LeastResponse(ts, i, r) && r <= |log|
    ensures 0 < r && Work(log, i, r - 1) < ts[i].wcet <= Work(log, i, r)
  {
    JobBound(ts, log, i, r, 0);
    var f := FirstFinishBy(ts, log, i, r);
  }
}
