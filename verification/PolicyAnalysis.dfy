/**
 The static analysis a scheduler runs before the simulation: the common check,
 then the check found in the analysis table for its policy. The default table
 has one entry, and the lookup goes by the order on scheduler types as written.
 */
module PolicyAnalysis {
  import opened Options
  import opened TaskModel
  import opened Schedules
  import opened Kernel
  import opened Guarantees
  import opened StaticAnalysis
  import LiuLayland
  import PriorityTable
  import ResponseTime

  /** The four enumerated fields of scheduler_t. */
  datatype SchedulerType = SchedulerType(policy: nat, staticPolicy: nat, dynamicPolicy: nat, triggering: nat)

  const STATIC_PRIORITIES: nat := 4
  const DYNAMIC_PRIORITIES: nat := 5
  const RATE_MONOTONIC: nat := 2
  const EARLIEST_DEADLINE_FIRST: nat := 0
  const USER_DYNAMIC_PRIORITY_POLICY: nat := 1
  const PREEMPTIVE: nat := 0

  /** operator< on scheduler types. */
  predicate Below(a: SchedulerType, b: SchedulerType) {
    || a.triggering < b.triggering
    || a.policy < b.policy
    || (a.policy == STATIC_PRIORITIES && a.staticPolicy < b.staticPolicy)
    || (a.policy == DYNAMIC_PRIORITIES && a.dynamicPolicy < b.dynamicPolicy)
  }

  /** The key under which the Liu and Layland check is attached. */
  const LIU_LAYLAND_KEY := SchedulerType(STATIC_PRIORITIES, RATE_MONOTONIC, USER_DYNAMIC_PRIORITY_POLICY, PREEMPTIVE)

  /** A search of the ordered map with that one entry: neither key is below the other. */
  predicate FindsLiuLayland(s: SchedulerType) {
    !Below(LIU_LAYLAND_KEY, s) && !Below(s, LIU_LAYLAND_KEY)
  }

  predicate IsRateMonotonicPreemptive(s: SchedulerType) {
    s.policy == STATIC_PRIORITIES && s.staticPolicy == RATE_MONOTONIC && s.triggering == PREEMPTIVE
  }

  /**
   The order is not one a map may use, for two types can each be below the other;
   on the default table it still finds the Liu and Layland check exactly for
   preemptive rate monotonic schedulers, whatever their dynamic policy field.
   */
  lemma LookupExact(s: SchedulerType)
    ensures FindsLiuLayland(s) <==> IsRateMonotonicPreemptive(s)
    ensures exists a, b :: Below(a, b) && Below(b, a)
  {
    var a, b := SchedulerType(3, 0, 0, 1), SchedulerType(4, 0, 0, 0);
    assert Below(a, b) && Below(b, a);
  }

  /**
   Both the common check and the one looked up, if any, report that they passed. A
   set with an aperiodic task is not accepted in this sense, although a scheduler
   with no check of its own then starts with a warning only.
   */
  predicate Accepts(es: seq<Entry>, s: SchedulerType)
    requires ValidEntries(es) && es != []
  {
    && AllPeriodic(es)
    && Utilization(TasksOf(es)) < 1.0
    && (IsRateMonotonicPreemptive(s) ==> LiuLayland.BoundPasses(Utilization(TasksOf(es)), |es|))
  }

  /** static_analysis: an error report of the common check ends it, a skipped one does not. */
  method Analyse(es: seq<Entry>, s: SchedulerType, root: real) returns (common: Verdict, specific: Option<Verdict>)
    requires ValidEntries(es) && es != []
    requires 0.0 < root && LiuLayland.Pow(root, |es|) == 2.0
    ensures common == Passed && (specific == None || specific == Some(Passed)) <==> Accepts(es, s)
    ensures common == Skipped <==> !AllPeriodic(es)
    ensures common == Failed <==> AllPeriodic(es) && 1.0 <= Utilization(TasksOf(es))
    ensures common != Aborted
    ensures specific.Some? <==> IsRateMonotonicPreemptive(s) && common != Failed
    ensures specific == Some(Aborted) <==> specific.Some? && !AllPeriodic(es)
    ensures specific == Some(Failed) <==>
            specific.Some? && AllPeriodic(es) && !LiuLayland.BoundPasses(Utilization(TasksOf(es)), |es|)
    ensures specific != Some(Skipped)
  {
    LookupExact(s);
    common := FullUtilizationBound(es);
    specific := None;
    if common != Failed && FindsLiuLayland(s) {
      var v := LiuLaylandBound(es, root);
      specific := Some(v);
    }
  }

  // What acceptance guarantees --------------------------------------------------------------

  /** An accepted rate monotonic scheduler: no run over its sorted table misses, however the sort breaks ties. */
  lemma {:induction false} RateMonotonicAccepted(es: seq<Entry>, s: SchedulerType, table: seq<PriorityTable.Entry>,
                                                 cs: seq<Config>)
    requires ValidEntries(es) && es != [] && Accepts(es, s) && IsRateMonotonicPreemptive(s)
    requires ImplicitDeadlines(TasksOf(es))
    requires PriorityTable.ValidEntries(table) && PriorityTable.Sorted(PriorityTable.ByPeriod, table)
    requires multiset(PriorityTable.Tasks(table)) == multiset(TasksOf(es))
    requires IsRun(PriorityTable.Tasks(table), StaticPriorities, cs)
    ensures Safe(PriorityTable.Tasks(table), Last(cs))
  {
    PriorityTable.LiuLaylandTable(TasksOf(es), table, cs);
  }

  /** An accepted earliest-deadline scheduler with the documented choice: no run misses. */
  lemma {:induction false} EarliestDeadlineAccepted(es: seq<Entry>, s: SchedulerType, cs: seq<Config>)
    requires ValidEntries(es) && es != [] && Accepts(es, s)
    requires s.policy == DYNAMIC_PRIORITIES && s.dynamicPolicy == EARLIEST_DEADLINE_FIRST
    requires ImplicitDeadlines(TasksOf(es)) && IsRun(TasksOf(es), EarliestDeadline, cs)
    ensures Safe(TasksOf(es), Last(cs))
  {
    EdfRunSafe(TasksOf(es), cs);
  }

  /** The condition that decides the other static orders, at any table; SolveResponse computes it. */
  ghost predicate AllResponsive(ts: seq<Task>)
    requires ValidSet(ts)
  {
    forall i :: 0 <= i < |ts| ==> ResponseTime.Responsive(ts, i)
  }

  /** For any table, sorted or not, a run past the first deadlines is safe if and only if every task is responsive. */
  lemma {:induction false} AnyTableExact(ts: seq<Task>, cs: seq<Config>)
    requires ValidSet(ts) && IsRun(ts, StaticPriorities, cs)
    requires forall i :: 0 <= i < |ts| ==> ts[i].deadline <= |Last(cs).log|
    ensures Safe(ts, Last(cs)) <==> AllResponsive(ts)
  {
    ResponseTestExact(ts, cs);
    if AllResponsive(ts) {
      PriorityRunSafe(ts, cs);
    }
  }

  // What it does not ----------------------------------------------------------------------------

  /** A user-priority scheduler whose more urgent task has the longer period. */
  predicate LongFirst(es: seq<Entry>) {
    es == [Periodic(Task(4, 10, 10)), Periodic(Task(1, 3, 3))]
  }

  lemma {:induction false} LongFirstUtilization(ts: seq<Task>)
    requires ts == [Task(4, 10, 10), Task(1, 3, 3)]
    ensures ValidSet(ts) && Utilization(ts) < 1.0
  {
    assert ts[..1][..0] == [];
    assert Utilization(ts[..1]) == TaskUtilization(ts[0]) == 0.4;
    assert TaskUtilization(ts[1]) * 3.0 == 1.0;
  }

  lemma {:induction false} LongFirstUnresponsive(ts: seq<Task>)
    requires ValidSet(ts) && |ts| == 2 && ts[0] == Task(4, 10, 10) && ts[1] == Task(1, 3, 3)
    ensures !ResponseTime.Responsive(ts, 1)
  {
    forall x: nat | x <= 3
      ensures x < ResponseTime.Demand(ts, 1, x)
    {
      assert ResponseTime.Interference(ts, 1, x) == Arrived(ts[0], x);
      if 0 < x {
        assert Released(ts[0], x - 1) >= 4;
      }
    }
  }

  /**
   Passing the analysis guarantees nothing for user priorities: this scheduler is
   accepted and every run of it misses by time 10.
   */
  lemma {:induction false} UserPrioritiesMiss(es: seq<Entry>, s: SchedulerType, cs: seq<Config>)
    requires LongFirst(es) && !IsRateMonotonicPreemptive(s)
    requires IsRun(TasksOf(es), StaticPriorities, cs) && 10 <= |Last(cs).log|
    ensures Accepts(es, s) && ImplicitDeadlines(TasksOf(es))
    ensures !MeetsDeadlines(TasksOf(es), Last(cs).log)
  {
    var ts := TasksOf(es);
    assert ts == [Task(4, 10, 10), Task(1, 3, 3)];
    LongFirstUtilization(ts);
    LongFirstUnresponsive(ts);
    ResponseTestExact(ts, cs);
  }

  /**
   Nor for deadlines shorter than periods, which the checks ignore: two tasks due
   after one tick cannot both be served.
   */
  lemma {:induction false} ShortDeadlinesMiss(ts: seq<Task>, log: Log)
    requires ValidSet(ts) && ts == [Task(1, 10, 1), Task(1, 10, 1)] && 0 < |log|
    ensures Utilization(ts) < 1.0
    ensures LiuLayland.BoundPasses(Utilization(ts), 2)
    ensures !MeetsDeadlines(ts, log)
  {
    ShortDeadlinesUtilization(ts);
    TwoAtOnce(ts, log);
  }

  lemma {:induction false} TwoAtOnce(ts: seq<Task>, log: Log)
    requires |ts| == 2 && 0 < |log|
    requires forall i :: 0 <= i < 2 ==> ts[i].wcet == 1 && ts[i].deadline == 1
    ensures !MeetsDeadlines(ts, log)
  {
    SumWorkAtMost(log, 2, 1);
    assert SumWork(log, 1, 1) == SumWork(log, 0, 1) + Work(log, 0, 1);
    assert SumWork(log, 2, 1) == SumWork(log, 1, 1) + Work(log, 1, 1);
    var i: nat, job: nat := if Work(log, 0, 1) == 0 then 0 else 1, 0;
    assert !JobMet(ts, log, i, job);
  }

  lemma {:induction false} ShortDeadlinesUtilization(ts: seq<Task>)
    requires ValidSet(ts) && ts == [Task(1, 10, 1), Task(1, 10, 1)]
    ensures Utilization(ts) == 0.2 && LiuLayland.BoundPasses(0.2, 2)
  {
    assert ts[..1][..0] == [];
    assert Utilization(ts[..1]) == TaskUtilization(ts[0]) == 0.1;
    assert LiuLayland.Pow(1.1, 1) == 1.1;
    assert LiuLayland.Pow(1.1, 2) == 1.21;
  }
}
