/**
 The utilization checks of static_sched_analysis.cpp and what their verdicts say
 about every run of the simulated kernel.
 */
module StaticAnalysis {
  import opened TaskModel
  import opened Schedules
  import opened Kernel
  import opened Guarantees
  import LiuLayland
  import Hyperperiod

  /** An assigned task, with or without a period. */
  datatype Entry = Periodic(task: Task) | Aperiodic(wcet: nat)

  /** Aborted: a utilization was asked of a task without a period. */
  datatype Verdict = Passed | Failed | Skipped | Aborted

  predicate AllPeriodic(es: seq<Entry>) {
    forall k :: 0 <= k < |es| ==> es[k].Periodic?
  }

  function TasksOf(es: seq<Entry>): (ts: seq<Task>)
    requires AllPeriodic(es)
    ensures |ts| == |es| && forall k :: 0 <= k < |es| ==> ts[k] == es[k].task
  {
    seq(|es|, k requires 0 <= k < |es| => es[k].task)
  }

  /** Periodic entries are configured as the analyses demand. */
  predicate ValidEntries(es: seq<Entry>) {
    forall k :: 0 <= k < |es| && es[k].Periodic? ==> ValidTask(es[k].task)
  }

  method IsPeriodic(es: seq<Entry>) returns (b: bool)
    ensures b <==> AllPeriodic(es)
  {
    for i := 0 to |es|
      invariant forall k :: 0 <= k < i ==> es[k].Periodic?
    {
      if !es[i].Periodic? {
        return false;
      }
    }
    return true;
  }

  method TaskSetUtilization(es: seq<Entry>) returns (u: real)
    requires AllPeriodic(es) && ValidEntries(es)
    ensures u == Utilization(TasksOf(es))
  {
    var ts := TasksOf(es);
    u := 0.0;
    for i := 0 to |es|
      invariant u == Utilization(ts[..i])
    {
      u := u + TaskUtilization(es[i].task);
      assert ts[..i + 1][..i] == ts[..i];
    }
    assert ts[..|es|] == ts;
  }

  method FullUtilizationBound(es: seq<Entry>) returns (v: Verdict)
    requires ValidEntries(es)
    ensures v == Skipped <==> !AllPeriodic(es)
    ensures v == Passed <==> AllPeriodic(es) && Utilization(TasksOf(es)) < 1.0
    ensures v == Failed <==> AllPeriodic(es) && 1.0 <= Utilization(TasksOf(es))
  {
    var periodic := IsPeriodic(es);
    if periodic {
      var u := TaskSetUtilization(es);
      if u >= 1.0 {
        return Failed;
      } else {
        return Passed;
      }
    } else {
      return Skipped;
    }
  }

  /**
   The Liu and Layland check, given the n-th root of 2 that pow(2.0, 1.0 / N)
   stands for: comparing with (root - 1) N is the test with the root cleared.
   */
  method LiuLaylandBound(es: seq<Entry>, root: real) returns (v: Verdict)
    requires ValidEntries(es) && es != []
    requires 0.0 < root && LiuLayland.Pow(root, |es|) == 2.0
    ensures v == Aborted <==> !AllPeriodic(es)
    ensures v == Passed <==> AllPeriodic(es) && LiuLayland.BoundPasses(Utilization(TasksOf(es)), |es|)
    ensures v == Failed <==> AllPeriodic(es) && !LiuLayland.BoundPasses(Utilization(TasksOf(es)), |es|)
  {
    var n := |es| as real;
    var bound := (root - 1.0) * n;
    var periodic := IsPeriodic(es);
    if !periodic {
      return Aborted;
    }
    var u := TaskSetUtilization(es);
    LiuLayland.UtilizationNonNegative(TasksOf(es));
    RootCleared(u, |es|, root);
    if u >= bound {
      return Failed;
    } else {
      return Passed;
    }
  }

  lemma {:induction false} PowStrict(x: real, y: real, n: nat)
    requires 0.0 < x < y && 0 < n
    ensures LiuLayland.Pow(x, n) < LiuLayland.Pow(y, n)
  {
    if 1 < n {
      PowStrict(x, y, n - 1);
      LiuLayland.PowPositive(x, n - 1);
      ProductStrict(x, y, LiuLayland.Pow(x, n - 1), LiuLayland.Pow(y, n - 1));
    } else {
      assert LiuLayland.Pow(x, 0) == LiuLayland.Pow(y, 0) == 1.0;
    }
  }

  lemma ProductStrict(x: real, y: real, p: real, q: real)
    requires 0.0 < x < y && 0.0 < p < q
    ensures x * p < y * q
    ensures p * x < q * y
  {
    assert x * p < y * p;
    assert y * p < y * q;
  }

  lemma RootCleared(u: real, n: nat, root: real)
    requires 0.0 <= u && 0 < n && 0.0 < root && LiuLayland.Pow(root, n) == 2.0
    ensures u < (root - 1.0) * n as real <==> LiuLayland.BoundPasses(u, n)
  {
    var mean := 1.0 + u / n as real;
    MeanBelow(u, n as real, root);
    if mean < root {
      PowStrict(mean, root, n);
    } else if root < mean {
      PowStrict(root, mean, n);
    }
  }

  lemma MeanBelow(u: real, n: real, root: real)
    requires 0.0 <= u && 0.0 < n
    ensures 1.0 + u / n < root <==> u < (root - 1.0) * n
    ensures 0.0 < 1.0 + u / n
  {
    var q := u / n;
    var d := root - 1.0 - q;
    assert q * n == u;
    assert (root - 1.0) * n == q * n + d * n;
    Sign(d, n);
    Sign(q, n);
  }

  lemma Sign(x: real, y: real)
    requires 0.0 < y
    ensures 0.0 < x <==> 0.0 < x * y
    ensures x == 0.0 ==> x * y == 0.0
  {
    if x < 0.0 {
      assert -x * y > 0.0;
    }
  }

  /**
   A verdict of the full-utilization check against the runs under earliest
   deadline first: a set that passes never misses, and a set that fails is free
   of misses up to its hyperperiod exactly when its utilization is 1, a set the
   check rejects although it is schedulable.
   */
  lemma {:induction false} FullUtilizationVerdict(ts: seq<Task>, cs: seq<Config>)
    requires ValidSet(ts) && ImplicitDeadlines(ts)
    requires IsRun(ts, EarliestDeadline, cs)
    ensures Utilization(ts) < 1.0 ==> Safe(ts, Last(cs))
    ensures 1.0 <= Utilization(ts) && Hyperperiod.LcmAll(Hyperperiod.Periods(ts)) <= |Last(cs).log| ==>
              (Safe(ts, Last(cs)) <==> Utilization(ts) == 1.0)
  {
    if Utilization(ts) <= 1.0 {
      EdfRunSafe(ts, cs);
    } else if Hyperperiod.LcmAll(Hyperperiod.Periods(ts)) <= |Last(cs).log| {
      MissByHyperperiod(ts, EarliestDeadline, cs);
      if Safe(ts, Last(cs)) {
        MeetsPrefix(ts, Last(cs).log[..Hyperperiod.LcmAll(Hyperperiod.Periods(ts))], Last(cs).log);
      }
    }
  }

  /** Under any policy a set of utilization above 1 has missed a deadline by its hyperperiod. */
  lemma {:induction false} MissByHyperperiod(ts: seq<Task>, pol: Policy, cs: seq<Config>)
    requires ValidSet(ts) && Utilization(ts) > 1.0 && IsRun(ts, pol, cs)
    requires Hyperperiod.LcmAll(Hyperperiod.Periods(ts)) <= |Last(cs).log|
    ensures !MeetsDeadlines(ts, Last(cs).log[..Hyperperiod.LcmAll(Hyperperiod.Periods(ts))])
  {
    var h := Hyperperiod.LcmAll(Hyperperiod.Periods(ts));
    Hyperperiod.LcmAllMultiples(Hyperperiod.Periods(ts), h);
    Hyperperiod.Multiple(h, 1);
    Hyperperiod.HyperperiodExact(ts, h);
    OverloadedRunMisses(ts, pol, cs, h);
  }

  /** A rate monotonic set that passes the Liu and Layland check passes the full-utilization check and never misses. */
  lemma {:induction false} LiuLaylandVerdict(ts: seq<Task>, cs: seq<Config>)
    requires ValidSet(ts) && ImplicitDeadlines(ts) && RateMonotonic(ts) && 0 < |ts|
    requires LiuLayland.BoundPasses(Utilization(ts), |ts|)
    requires IsRun(ts, StaticPriorities, cs)
    ensures Utilization(ts) < 1.0 && Safe(ts, Last(cs))
  {
    LiuLayland.UtilizationNonNegative(ts);
    LiuLayland.BoundImpliesFullUtilization(Utilization(ts), |ts|);
    LiuLaylandRunSafe(ts, cs);
  }

  /** One task that works all the time fails the check and meets every deadline. */
  lemma FullyLoaded(ts: seq<Task>, cs: seq<Config>)
    requires ts == [Task(1, 1, 1)] && IsRun(ts, EarliestDeadline, cs)
    ensures Utilization(ts) == 1.0 && Safe(ts, Last(cs))
  {
    FullyLoadedUtilization(ts);
    EdfRunSafe(ts, cs);
  }

  lemma FullyLoadedUtilization(ts: seq<Task>)
    requires ts == [Task(1, 1, 1)]
    ensures Utilization(ts) == 1.0
  {
    assert Utilization(ts[..0]) == 0.0;
    assert TaskUtilization(ts[0]) == 1.0;
  }
}
