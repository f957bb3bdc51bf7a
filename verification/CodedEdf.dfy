/**
 The kernel driven by the EDF branch as it is coded: exactly when its steps are
 those of earliest deadline first, so that the guarantee carries over, and an
 underloaded set on which it misses a deadline.
 */
module CodedEdf {
  import opened Arith
  import opened TaskModel
  import opened Schedules
  import opened Kernel
  import Guarantees
  import Dispatching
  import Options

  function ReadyFlags(tasks: seq<TaskState>): (r: seq<bool>)
    ensures |r| == |tasks| && forall i :: 0 <= i < |tasks| ==> r[i] == Ready(tasks[i])
  {
    seq(|tasks|, i requires 0 <= i < |tasks| => Ready(tasks[i]))
  }

  function TimesToDeadline(ts: seq<Task>, now: nat): (r: seq<nat>)
    requires ValidSet(ts)
    ensures |r| == |ts| && forall i :: 0 <= i < |ts| ==> r[i] == Dispatching.TimeToNextDeadline(now, ts[i].period)
  {
    seq(|ts|, i requires 0 <= i < |ts| => Dispatching.TimeToNextDeadline(now, ts[i].period))
  }

  /** One tick without tick timer: the coded branch, its flag cleared, is consulted when the scheduler is triggered. */
  ghost predicate CodedStep(ts: seq<Task>, c: Config, c': Config)
    requires ValidSet(ts)
  {
    && 0 < |ts| && |c.tasks| == |ts| && c.active < |ts| && c'.active < |ts|
    && var settled := Settle(ts, c);
    && (if Triggered(ts, c)
        then Dispatching.EdfAsCoded(ReadyFlags(settled), TimesToDeadline(ts, c.now), false) == Options.Some(c'.active)
        else c'.active == c.active)
    && c' == Config(c.now + 1, Execute(settled, c'.active), c'.active, c.log + [SlotOf(settled, c'.active)])
  }

  ghost predicate CodedRun(ts: seq<Task>, cs: seq<Config>)
    requires ValidSet(ts)
  {
    && 0 < |cs| && Init(ts, cs[0])
    && forall n :: 0 <= n < |cs| - 1 ==> CodedStep(ts, cs[n], cs[n + 1])
  }

  // When the coded branch dispatches earliest deadline first -----------------------------

  /** Time from now to the end of the current period. */
  function UntilDue(now: nat, period: nat): nat
    requires 0 < period
  {
    period - now % period
  }

  function UntilDues(ts: seq<Task>, now: nat): (r: seq<nat>)
    requires ValidSet(ts)
    ensures |r| == |ts| && forall i :: 0 <= i < |ts| ==> r[i] == UntilDue(now, ts[i].period)
  {
    seq(|ts|, i requires 0 <= i < |ts| => UntilDue(now, ts[i].period))
  }

  /** What the branch reads is the time to the end of the period, except at a release, where it reads 0. */
  lemma ReadTime(now: nat, period: nat)
    requires 0 < period
    ensures Dispatching.TimeToNextDeadline(now, period) == if now % period == 0 then 0 else UntilDue(now, period)
  {
    Dispatching.TimeToDeadlineExact(now, period);
    DivBounds(now, period);
    AddOne(now / period, period);
  }

  /** While deadlines are met, a ready task is due at the end of the period it is in. */
  lemma {:induction false} ReadyDue(ts: seq<Task>, c: Config, i: nat)
    requires ValidSet(ts) && Inv(ts, c) && ImplicitDeadlines(ts) && MeetsDeadlines(ts, c.log)
    requires i < |ts| && Ready(Settle(ts, c)[i])
    ensures Settle(ts, c)[i].due == c.now + UntilDue(c.now, ts[i].period)
  {
    var s, k := Settle(ts, c)[i], ts[i];
    SettledAt(ts, c, i);
    AddOne(s.job, k.period);
    assert JobDeadline(k, s.job) == s.due;
    if s.due <= c.now {
      assert JobMet(ts, c.log, i, s.job);
      WorkMono(c.log, i, s.due, c.now);
      assert false;
    }
    CurrentPeriod(c.now, k.period, s.job);
  }

  lemma CurrentPeriod(now: nat, period: nat, job: nat)
    requires 0 < period && job * period <= now < job * period + period
    ensures job * period + period == now + UntilDue(now, period)
  {
    AddOne(job, period);
    DivUnique(now, period, job);
  }

  function Flags(ts: seq<Task>, c: Config): (r: seq<bool>)
    requires ValidSet(ts) && |c.tasks| == |ts|
    ensures |r| == |ts|
  {
    ReadyFlags(Settle(ts, c))
  }

  predicate SomeReady(ready: seq<bool>) {
    Dispatching.FirstReadyIndex(ready, 0) < |ready|
  }

  /** The task the branch settles on, from the values it reads, is one whose period ends first. */
  ghost predicate PicksEarliest(ts: seq<Task>, now: nat, ready: seq<bool>)
    requires ValidSet(ts) && |ready| == |ts| && SomeReady(ready)
  {
    exists e: nat :: Dispatching.SettlesOn(ready, TimesToDeadline(ts, now), e)
                     && Dispatching.EarliestReady(ready, UntilDues(ts, now), e)
  }

  /** Kernel and branch agree on what earliest means: by tracked deadline and by the end of the period. */
  lemma {:induction false} EarliestIs(ts: seq<Task>, c: Config, p: nat)
    requires ValidSet(ts) && Inv(ts, c) && ImplicitDeadlines(ts) && MeetsDeadlines(ts, c.log)
    requires SomeReady(Flags(ts, c)) && p < |ts|
    ensures Selects(EarliestDeadline, Settle(ts, c), p) <==>
            Dispatching.EarliestReady(Flags(ts, c), UntilDues(ts, c.now), p)
  {
    var settled, ready := Settle(ts, c), Flags(ts, c);
    forall i | 0 <= i < |ts| && ready[i]
      ensures settled[i].due == c.now + UntilDues(ts, c.now)[i]
    {
      ReadyDue(ts, c, i);
    }
    var first := Dispatching.FirstReadyIndex(ready, 0);
    assert ready[first] && Ready(settled[first]);
  }

  /**
   A triggered coded step with some task ready is a step of earliest deadline
   first if and only if the branch settles on a task whose period ends first,
   release instants included.
   */
  lemma {:induction false} CodedStepExact(ts: seq<Task>, c: Config, c': Config)
    requires ValidSet(ts) && Inv(ts, c) && ImplicitDeadlines(ts) && MeetsDeadlines(ts, c.log)
    requires SomeReady(Flags(ts, c))
    ensures CodedStep(ts, c, c') && Triggered(ts, c) ==>
              (Step(ts, EarliestDeadline, c, c') <==> PicksEarliest(ts, c.now, Flags(ts, c)))
  {
    var ready, ttd := Flags(ts, c), TimesToDeadline(ts, c.now);
    if CodedStep(ts, c, c') && Triggered(ts, c) {
      EarliestIs(ts, c, c'.active);
      Dispatching.CodedPick(ready, ttd, c'.active);
      if PicksEarliest(ts, c.now, ready) {
        var e: nat :| Dispatching.SettlesOn(ready, ttd, e)
                      && Dispatching.EarliestReady(ready, UntilDues(ts, c.now), e);
        Dispatching.SettlesOnce(ready, ttd, e, c'.active);
      }
    }
  }

  /** Off the release instants of the ready tasks the condition is that a least value read survives. */
  lemma {:induction false} NoReleaseExact(ts: seq<Task>, now: nat, ready: seq<bool>)
    requires ValidSet(ts) && |ready| == |ts| && SomeReady(ready)
    requires forall i :: 0 <= i < |ts| && ready[i] ==> now % ts[i].period != 0
    ensures PicksEarliest(ts, now, ready) <==> Dispatching.LeastSurvives(ready, TimesToDeadline(ts, now))
  {
    var ttd, first := TimesToDeadline(ts, now), Dispatching.FirstReadyIndex(ready, 0);
    forall i | 0 <= i < |ts| && ready[i]
      ensures ttd[i] == UntilDues(ts, now)[i]
    {
      ReadTime(now, ts[i].period);
    }
    var p := Dispatching.LastUndercut(ready, ttd, |ready|);
    Dispatching.CodedPick(ready, ttd, p);
    Dispatching.EdfAsCodedExact(ready, ttd, false);
    assert Dispatching.EarliestReady(ready, ttd, p) <==> Dispatching.EarliestReady(ready, UntilDues(ts, now), p);
    if PicksEarliest(ts, now, ready) {
      var e: nat :| Dispatching.SettlesOn(ready, ttd, e) && Dispatching.EarliestReady(ready, UntilDues(ts, now), e);
      Dispatching.SettlesOnce(ready, ttd, e, p);
    }
  }

  /**
   When the first ready task is just released it reads 0, is taken, and is the
   right choice if and only if its period ends first.
   */
  lemma {:induction false} ReleaseExact(ts: seq<Task>, now: nat, ready: seq<bool>)
    requires ValidSet(ts) && |ready| == |ts| && SomeReady(ready)
    requires now % ts[Dispatching.FirstReadyIndex(ready, 0)].period == 0
    ensures PicksEarliest(ts, now, ready) <==>
            forall j :: 0 <= j < |ts| && ready[j] ==>
              ts[Dispatching.FirstReadyIndex(ready, 0)].period <= UntilDue(now, ts[j].period)
  {
    var ttd, first := TimesToDeadline(ts, now), Dispatching.FirstReadyIndex(ready, 0);
    ReadTime(now, ts[first].period);
    assert ttd[first] == 0 && UntilDues(ts, now)[first] == ts[first].period;
    assert Dispatching.SettlesOn(ready, ttd, first);
    assert forall j :: 0 <= j < |ts| ==> UntilDues(ts, now)[j] == UntilDue(now, ts[j].period);
    if PicksEarliest(ts, now, ready) {
      var e: nat :| Dispatching.SettlesOn(ready, ttd, e) && Dispatching.EarliestReady(ready, UntilDues(ts, now), e);
      Dispatching.SettlesOnce(ready, ttd, e, first);
    }
  }

  /** The dispatch of configuration c, if there is one and some task is ready, is an earliest-deadline choice. */
  ghost predicate RightDispatch(ts: seq<Task>, c: Config)
    requires ValidSet(ts) && |c.tasks| == |ts| && c.active < |ts|
  {
    Triggered(ts, c) && SomeReady(Flags(ts, c)) ==> PicksEarliest(ts, c.now, Flags(ts, c))
  }

  /** Without a trigger, or with nothing ready, a coded step is a step of any policy. */
  lemma {:induction false} IdleStep(ts: seq<Task>, c: Config, c': Config)
    requires ValidSet(ts) && CodedStep(ts, c, c') && !(Triggered(ts, c) && SomeReady(Flags(ts, c)))
    ensures Step(ts, EarliestDeadline, c, c')
  {
    if Triggered(ts, c) {
      assert forall i :: 0 <= i < |ts| ==> !Flags(ts, c)[i];
    }
  }

  ghost predicate AllRight(ts: seq<Task>, cs: seq<Config>)
    requires ValidSet(ts) && CodedRun(ts, cs)
  {
    forall n :: 0 <= n < |cs| - 1 ==> RightAt(ts, cs, n)
  }

  ghost predicate RightAt(ts: seq<Task>, cs: seq<Config>, n: nat)
    requires ValidSet(ts) && n < |cs|
  {
    |cs[n].tasks| == |ts| && cs[n].active < |ts| && RightDispatch(ts, cs[n])
  }

  lemma {:induction false} CodedFront(ts: seq<Task>, cs: seq<Config>)
    requires ValidSet(ts) && CodedRun(ts, cs) && 1 < |cs|
    ensures CodedRun(ts, cs[..|cs| - 1]) && CodedStep(ts, cs[|cs| - 2], cs[|cs| - 1])
    ensures AllRight(ts, cs) <==> AllRight(ts, cs[..|cs| - 1]) && RightAt(ts, cs, |cs| - 2)
  {
    var front := cs[..|cs| - 1];
    assert CodedStep(ts, cs[|cs| - 2], cs[|cs| - 2 + 1]);
    assert CodedRun(ts, front);
    assert forall n :: 0 <= n < |cs| - 2 ==> RightAt(ts, front, n) == RightAt(ts, cs, n);
  }

  /**
   With utilization at most 1, a run under the coded branch is a run of earliest
   deadline first, and then free of misses, if and only if each of its dispatches
   settles on a task whose period ends first.
   */
  lemma {:induction false} CodedRunExact(ts: seq<Task>, cs: seq<Config>)
    requires ValidSet(ts) && ImplicitDeadlines(ts) && Utilization(ts) <= 1.0 && CodedRun(ts, cs)
    ensures IsRun(ts, EarliestDeadline, cs) <==> AllRight(ts, cs)
    ensures AllRight(ts, cs) ==> Guarantees.Safe(ts, Guarantees.Last(cs))
    decreases |cs|
  {
    if |cs| == 1 {
      Guarantees.EdfRunSafe(ts, cs);
    } else {
      var front, c := cs[..|cs| - 1], cs[|cs| - 2];
      CodedFront(ts, cs);
      CodedRunExact(ts, front);
      RunFromFront(ts, cs);
      if IsRun(ts, EarliestDeadline, front) {
        Guarantees.EdfRunSafe(ts, front);
        if Triggered(ts, c) && SomeReady(Flags(ts, c)) {
          CodedStepExact(ts, c, cs[|cs| - 1]);
        } else {
          IdleStep(ts, c, cs[|cs| - 1]);
        }
      }
      if AllRight(ts, cs) {
        Guarantees.EdfRunSafe(ts, cs);
      }
    }
  }

  lemma {:induction false} RunFromFront(ts: seq<Task>, cs: seq<Config>)
    requires ValidSet(ts) && 1 < |cs|
    ensures IsRun(ts, EarliestDeadline, cs) <==>
            IsRun(ts, EarliestDeadline, cs[..|cs| - 1]) && Step(ts, EarliestDeadline, cs[|cs| - 2], cs[|cs| - 1])
  {
    var front := cs[..|cs| - 1];
    if IsRun(ts, EarliestDeadline, cs) {
      Guarantees.RunFront(ts, EarliestDeadline, cs);
    }
    if IsRun(ts, EarliestDeadline, front) && Step(ts, EarliestDeadline, cs[|cs| - 2], cs[|cs| - 1]) {
      forall n | 0 <= n < |cs| - 1
        ensures Step(ts, EarliestDeadline, cs[n], cs[n + 1])
      {
        if n < |cs| - 2 {
          assert Step(ts, EarliestDeadline, front[n], front[n + 1]);
        }
      }
    }
  }

  // A miss below utilization 1 ------------------------------------------------------------

  const EXAMPLE_SET: seq<Task> := [Task(3, 10, 10), Task(1, 3, 3)]

  /** The example run at time t <= 3: the long task, first in map order, holds the processor from the start. */
  function ExampleConfig(t: nat): Config
    requires t <= 3
  {
    Config(t, [TaskState(0, 3 - t, 10, false, false), TaskState(0, 1, 3, false, false)], 0, seq(t, _ => Run(0)))
  }

  /**
   At time 0 every time to deadline reads 0, so the first task of the map is
   chosen whatever its period: with utilization below 1 the second task is
   still waiting at its first deadline.
   */
  lemma CodedEdfMisses(cs: seq<Config>)
    requires cs == [ExampleConfig(0), ExampleConfig(1), ExampleConfig(2), ExampleConfig(3)]
    ensures ValidSet(EXAMPLE_SET) && ImplicitDeadlines(EXAMPLE_SET)
    ensures Utilization(EXAMPLE_SET) < 1.0
    ensures CodedRun(EXAMPLE_SET, cs)
    ensures !MeetsDeadlines(EXAMPLE_SET, cs[3].log)
  {
    ExampleUtilization();
    ExampleStep(0);
    ExampleStep(1);
    ExampleStep(2);
    StarvedMisses(EXAMPLE_SET, cs[3].log, 1);
  }

  lemma ExampleUtilization()
    ensures ValidSet(EXAMPLE_SET) && Utilization(EXAMPLE_SET) < 1.0
  {
    var ts := EXAMPLE_SET;
    assert ts[..1][..0] == [];
    assert TaskUtilization(ts[0]) == 0.3;
    assert TaskUtilization(ts[1]) * 3.0 == 1.0;
  }

  /** A task that never ran until its first deadline missed it. */
  lemma StarvedMisses(ts: seq<Task>, log: Log, i: nat)
    requires ValidSet(ts) && i < |ts| && ts[i].deadline <= |log|
    requires forall t :: 0 <= t < ts[i].deadline ==> log[t] != Run(i)
    ensures !MeetsDeadlines(ts, log)
  {
    var j: nat := 0;
    assert JobDeadline(ts[i], j) == ts[i].deadline;
    WorkFlat(log, i, 0, ts[i].deadline);
    assert !JobMet(ts, log, i, j);
  }

  /** While no task ends a job or waits, an instant changes nothing and wakes the scheduler only at time 0. */
  lemma QuietInstant(ts: seq<Task>, c: Config)
    requires ValidSet(ts) && |c.tasks| == |ts| && c.active < |ts|
    requires forall i :: 0 <= i < |ts| ==> 0 < c.tasks[i].left && !c.tasks[i].waiting
    ensures Settle(ts, c) == c.tasks
    ensures Triggered(ts, c) <==> c.now == 0
  {
  }

  /** The coded branch takes the first of two ready tasks when both times to deadline read 0. */
  lemma FirstOfTwo(ts: seq<Task>, tasks: seq<TaskState>)
    requires ValidSet(ts) && |ts| == |tasks| == 2 && Ready(tasks[0]) && Ready(tasks[1])
    ensures Dispatching.EdfAsCoded(ReadyFlags(tasks), TimesToDeadline(ts, 0), false) == Options.Some(0)
  {
    var ready, ttd := ReadyFlags(tasks), TimesToDeadline(ts, 0);
    Dispatching.TimeToDeadlineExact(0, ts[0].period);
    Dispatching.TimeToDeadlineExact(0, ts[1].period);
    assert Dispatching.FirstReadyIndex(ready, 0) == 0;
    assert ttd[0] == 0 && ttd[1] == 0;
    assert Dispatching.LastUndercut(ready, ttd, 1) == 0;
    assert Dispatching.LastUndercut(ready, ttd, 2) == 0;
  }

  lemma ExampleStep(t: nat)
    requires t < 3
    ensures CodedStep(EXAMPLE_SET, ExampleConfig(t), ExampleConfig(t + 1))
  {
    var ts, c, c' := EXAMPLE_SET, ExampleConfig(t), ExampleConfig(t + 1);
    QuietInstant(ts, c);
    FirstOfTwo(ts, c.tasks);
    assert c'.log == c.log + [Run(0)];
    assert c'.tasks == Execute(c.tasks, 0);
  }
}
