/** What the static analyses say about every run of the simulated kernel. */
module Guarantees {
  import opened TaskModel
  import opened Schedules
  import opened Kernel
  import Edf
  import ResponseTime
  import LiuLayland

  /** No job has been incomplete at its deadline so far, and no miss flag is raised. */
  ghost predicate Safe(ts: seq<Task>, c: Config)
    requires ValidSet(ts)
  {
    MeetsDeadlines(ts, c.log) && forall i :: 0 <= i < |c.tasks| ==> !c.tasks[i].missed
  }

  /** The latest configuration of a run. */
  function Last(cs: seq<Config>): Config
    requires 0 < |cs|
  {
    cs[|cs| - 1]
  }

  lemma RunFront(ts: seq<Task>, pol: Policy, cs: seq<Config>)
    requires ValidSet(ts) && IsRun(ts, pol, cs) && 1 < |cs|
    ensures IsRun(ts, pol, cs[..|cs| - 1]) && Step(ts, pol, cs[|cs| - 2], Last(cs))
  {
    assert Step(ts, pol, cs[|cs| - 2], cs[|cs| - 2 + 1]);
  }

  lemma InitSafe(ts: seq<Task>, c: Config)
    requires ValidSet(ts) && Init(ts, c)
    ensures Inv(ts, c) && Safe(ts, c)
  {
    InitInv(ts, c);
  }

  /**
   Dispatching earliest deadline first with deadlines equal to periods, a set of
   utilization at most 1 never misses a deadline, however long the run.
   */
  lemma {:induction false} EdfRunSafe(ts: seq<Task>, cs: seq<Config>)
    requires ValidSet(ts) && ImplicitDeadlines(ts) && Utilization(ts) <= 1.0
    requires IsRun(ts, EarliestDeadline, cs)
    ensures Inv(ts, Last(cs)) && EdfLog(ts, Last(cs).log) && Safe(ts, Last(cs))
    decreases |cs|
  {
    if |cs| == 1 {
      InitSafe(ts, cs[0]);
    } else {
      RunFront(ts, EarliestDeadline, cs);
      var c := cs[|cs| - 2];
      EdfRunSafe(ts, cs[..|cs| - 1]);
      StepKeepsInv(ts, EarliestDeadline, c, Last(cs));
      StepKeepsEdf(ts, c, Last(cs));
      StepKeepsUnflagged(ts, EarliestDeadline, c, Last(cs));
      Edf.EdfSufficient(ts, Last(cs).log);
    }
  }

  /** As long as a static-priority run meets its deadlines, its log is a priority log. */
  lemma {:induction false} PriorityRunLog(ts: seq<Task>, cs: seq<Config>)
    requires ValidSet(ts) && IsRun(ts, StaticPriorities, cs)
    requires MeetsDeadlines(ts, Last(cs).log)
    ensures Inv(ts, Last(cs)) && PriorityLog(ts, Last(cs).log)
    decreases |cs|
  {
    if |cs| == 1 {
      InitSafe(ts, cs[0]);
    } else {
      RunFront(ts, StaticPriorities, cs);
      var c := cs[|cs| - 2];
      assert c.log <= Last(cs).log;
      MeetsPrefix(ts, c.log, Last(cs).log);
      PriorityRunLog(ts, cs[..|cs| - 1]);
      StepKeepsInv(ts, StaticPriorities, c, Last(cs));
      StepKeepsPriority(ts, c, Last(cs));
    }
  }

  /** Preemptive static priorities: bounded responses keep every run free of misses. */
  lemma {:induction false} PriorityRunSafe(ts: seq<Task>, cs: seq<Config>)
    requires ValidSet(ts) && IsRun(ts, StaticPriorities, cs)
    requires forall i :: 0 <= i < |ts| ==> ResponseTime.Responsive(ts, i)
    ensures Inv(ts, Last(cs)) && PriorityLog(ts, Last(cs).log) && Safe(ts, Last(cs))
    decreases |cs|
  {
    if |cs| == 1 {
      InitSafe(ts, cs[0]);
    } else {
      RunFront(ts, StaticPriorities, cs);
      var c := cs[|cs| - 2];
      PriorityRunSafe(ts, cs[..|cs| - 1]);
      StepKeepsInv(ts, StaticPriorities, c, Last(cs));
      StepKeepsPriority(ts, c, Last(cs));
      StepKeepsUnflagged(ts, StaticPriorities, c, Last(cs));
      ResponseTime.ResponsiveSufficient(ts, Last(cs).log);
    }
  }

  /**
   The response-time test is exact: a static-priority run that has reached every
   first deadline is free of misses if and only if every task has a window
   within its deadline that satisfies its demand.
   */
  lemma {:induction false} ResponseTestExact(ts: seq<Task>, cs: seq<Config>)
    requires ValidSet(ts) && IsRun(ts, StaticPriorities, cs)
    requires forall i :: 0 <= i < |ts| ==> ts[i].deadline <= |Last(cs).log|
    ensures MeetsDeadlines(ts, Last(cs).log) <==> forall i :: 0 <= i < |ts| ==> ResponseTime.Responsive(ts, i)
  {
    if forall i :: 0 <= i < |ts| ==> ResponseTime.Responsive(ts, i) {
      PriorityRunSafe(ts, cs);
    }
    if MeetsDeadlines(ts, Last(cs).log) {
      PriorityRunLog(ts, cs);
      forall i | 0 <= i < |ts|
        ensures ResponseTime.Responsive(ts, i)
      {
        ResponseTime.ResponsiveNecessary(ts, Last(cs).log, i);
      }
    }
  }

  /**
   Job j of task i of a miss-free static-priority run ends within r of its release, for every window r
   that satisfies its demand.
   */
  lemma {:induction false} ResponseWithin(ts: seq<Task>, cs: seq<Config>, i: nat, r: nat, j: nat)
    requires ValidSet(ts) && IsRun(ts, StaticPriorities, cs) && i < |ts|
    requires MeetsDeadlines(ts, Last(cs).log)
    requires ResponseTime.Demand(ts, i, r) <= r <= ts[i].period
    requires j * ts[i].period + r <= |Last(cs).log|
    ensures (j + 1) * ts[i].wcet <= Work(Last(cs).log, i, j * ts[i].period + r)
  {
    PriorityRunLog(ts, cs);
    ResponseTime.ResponseBound(ts, Last(cs).log, i, r, j);
  }

  /**
   Soundness of the response-time test: when every task has a response within its
   deadline, each job of each task ends, in every run, within any window r up to
   the deadline that satisfies the task's demand; the least such window is the
   response the analysis reports.
   */
  lemma {:induction false} ResponseTimeSound(ts: seq<Task>, cs: seq<Config>, i: nat, r: nat, j: nat)
    requires ValidSet(ts) && IsRun(ts, StaticPriorities, cs) && i < |ts|
    requires forall k :: 0 <= k < |ts| ==> ResponseTime.Responsive(ts, k)
    requires ResponseTime.Demand(ts, i, r) <= r <= ts[i].deadline
    requires j * ts[i].period + r <= |Last(cs).log|
    ensures (j + 1) * ts[i].wcet <= Work(Last(cs).log, i, j * ts[i].period + r)
  {
    PriorityRunSafe(ts, cs);
    ResponseWithin(ts, cs, i, r, j);
  }

  /** A rate monotonic set that passes the Liu and Layland check never misses a deadline. */
  lemma {:induction false} LiuLaylandRunSafe(ts: seq<Task>, cs: seq<Config>)
    requires ValidSet(ts) && ImplicitDeadlines(ts) && RateMonotonic(ts) && 0 < |ts|
    requires LiuLayland.BoundPasses(Utilization(ts), |ts|)
    requires IsRun(ts, StaticPriorities, cs)
    ensures Safe(ts, Last(cs))
  {
    LiuLayland.BoundResponsive(ts);
    PriorityRunSafe(ts, cs);
  }

  /**
   Under any policy a run that reaches a common multiple of the periods of an overloaded set has missed
   a deadline by then.
   */
  lemma {:induction false} OverloadedRunMisses(ts: seq<Task>, pol: Policy, cs: seq<Config>, h: nat)
    requires ValidSet(ts) && Utilization(ts) > 1.0
    requires IsRun(ts, pol, cs) && 0 < h <= |Last(cs).log| && CommonMultiple(ts, h)
    ensures !MeetsDeadlines(ts, Last(cs).log[..h])
  {
    Edf.OverloadMisses(ts, Last(cs).log, h);
  }

  /**
   Utilization 1 is the exact border of earliest deadline first: a run that has
   reached a common multiple of the periods is free of misses if and only if the
   utilization is at most 1.
   */
  lemma {:induction false} UtilizationExact(ts: seq<Task>, cs: seq<Config>, h: nat)
    requires ValidSet(ts) && ImplicitDeadlines(ts)
    requires IsRun(ts, EarliestDeadline, cs) && 0 < h <= |Last(cs).log| && CommonMultiple(ts, h)
    ensures MeetsDeadlines(ts, Last(cs).log) <==> Utilization(ts) <= 1.0
  {
    if Utilization(ts) <= 1.0 {
      EdfRunSafe(ts, cs);
    } else {
      OverloadedRunMisses(ts, EarliestDeadline, cs, h);
      if MeetsDeadlines(ts, Last(cs).log) {
        MeetsPrefix(ts, Last(cs).log[..h], Last(cs).log);
      }
    }
  }
}
