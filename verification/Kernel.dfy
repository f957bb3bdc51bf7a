/**
 The scheduling kernel of one processing element as a machine that advances
 one tick at a time, with zero scheduling time. Every task runs the body
 "consume its WCET, then wait_period". The scheduler dispatches at time 0, when
 the active task enters its period wait, when an inactive task is released, and
 possibly at tick-timer events; otherwise the active task keeps the processor.
 */
module Kernel {
  import opened Arith
  import opened TaskModel
  import opened Schedules

  /**
   What the simulator keeps for a periodic task: index of the current job,
   left_consume_time, current_absolute_deadline, waiting_period_signal and
   miss_deadline_flag.
   */
  datatype TaskState = TaskState(job: nat, left: nat, due: nat, waiting: bool, missed: bool)

  datatype Config = Config(now: nat, tasks: seq<TaskState>, active: nat, log: Log)

  datatype Policy = StaticPriorities | EarliestDeadline | AnyPolicy

  function StartJob(k: Task, s: TaskState): TaskState {
    TaskState(s.job + 1, k.wcet, s.due + k.period, false, s.missed)
  }

  /** wait_period called at time now: a late job flags the miss and continues at once, a timely one waits. */
  function CallWaitPeriod(k: Task, s: TaskState, now: nat): TaskState {
    if now > s.due then StartJob(k, s.(missed := true)) else s.(waiting := true)
  }

  /** The release event fires at every positive multiple of the period and resumes a waiting task. */
  function ReleaseEvent(k: Task, s: TaskState, now: nat): TaskState
    requires ValidTask(k)
  {
    if s.waiting && 0 < now && now % k.period == 0 then StartJob(k, s) else s
  }

  /** State of a task at time now once the calls and events of that instant have settled. */
  function AtInstant(k: Task, s: TaskState, now: nat): TaskState
    requires ValidTask(k)
  {
    ReleaseEvent(k, if s.left == 0 && !s.waiting then CallWaitPeriod(k, s, now) else s, now)
  }

  function Settle(ts: seq<Task>, c: Config): (r: seq<TaskState>)
    requires ValidSet(ts) && |c.tasks| == |ts|
    ensures |r| == |ts|
    ensures forall i :: 0 <= i < |ts| ==> r[i] == AtInstant(ts[i], c.tasks[i], c.now)
  {
    seq(|ts|, i requires 0 <= i < |ts| => AtInstant(ts[i], c.tasks[i], c.now))
  }

  predicate Ready(s: TaskState) {
    !s.waiting
  }

  /** The active task leaves EXECUTING for a wait state, even if it is released in the same instant. */
  predicate EntersWait(s: TaskState, now: nat) {
    s.left == 0 && !s.waiting && now <= s.due
  }

  /** A scheduling event other than the tick timer occurs at c.now. */
  predicate Triggered(ts: seq<Task>, c: Config)
    requires ValidSet(ts) && |c.tasks| == |ts| && c.active < |ts|
  {
    || c.now == 0
    || EntersWait(c.tasks[c.active], c.now)
    || exists i :: 0 <= i < |ts| && i != c.active && c.tasks[i].waiting && Ready(AtInstant(ts[i], c.tasks[i], c.now))
  }

  /** Index of the first ready task of the priority table, or 0 when none is ready. */
  function FirstReady(tasks: seq<TaskState>): (p: nat)
    ensures p <= |tasks|
    ensures 0 < |tasks| ==> p < |tasks|
    ensures forall j :: 0 <= j < |tasks| && Ready(tasks[j]) ==> Ready(tasks[p]) && p <= j
  {
    if |tasks| == 0 then 0
    else
      var p := FirstReady(tasks[..|tasks| - 1]);
      if p < |tasks| - 1 && Ready(tasks[p]) then p
      else if Ready(tasks[|tasks| - 1]) then |tasks| - 1 else 0
  }

  /** The choices a policy allows among settled tasks. */
  ghost predicate Selects(pol: Policy, tasks: seq<TaskState>, p: nat) {
    && p < |tasks|
    && (pol.StaticPriorities? ==> p == FirstReady(tasks))
    && (pol.EarliestDeadline? ==>
          forall j :: 0 <= j < |tasks| && Ready(tasks[j]) ==> Ready(tasks[p]) && tasks[p].due <= tasks[j].due)
  }

  function Execute(tasks: seq<TaskState>, p: nat): seq<TaskState>
    requires p < |tasks|
  {
    if Ready(tasks[p]) && 0 < tasks[p].left then tasks[p := tasks[p].(left := tasks[p].left - 1)] else tasks
  }

  function SlotOf(tasks: seq<TaskState>, p: nat): Slot
    requires p < |tasks|
  {
    if Ready(tasks[p]) then Run(p) else Idle
  }

  ghost predicate Init(ts: seq<Task>, c: Config) {
    && c.now == 0 && c.log == [] && |c.tasks| == |ts| && c.active < |ts|
    && forall i :: 0 <= i < |ts| ==> c.tasks[i] == TaskState(0, ts[i].wcet, ts[i].deadline, false, false)
  }

  ghost predicate Step(ts: seq<Task>, pol: Policy, c: Config, c': Config)
    requires ValidSet(ts)
  {
    && |c.tasks| == |ts| && c.active < |ts| && c'.active < |ts|
    && var settled := Settle(ts, c);
    && (Selects(pol, settled, c'.active) || (!Triggered(ts, c) && c'.active == c.active))
    && c' == Config(c.now + 1, Execute(settled, c'.active), c'.active, c.log + [SlotOf(settled, c'.active)])
  }

  ghost predicate IsRun(ts: seq<Task>, pol: Policy, cs: seq<Config>)
    requires ValidSet(ts)
  {
    && 0 < |cs| && Init(ts, cs[0])
    && forall n :: 0 <= n < |cs| - 1 ==> Step(ts, pol, cs[n], cs[n + 1])
  }

  // Invariant -------------------------------------------------------------------

  /** Bookkeeping of one task against the work w it has received by time t, and against its releases. */
  ghost predicate TaskInv(k: Task, s: TaskState, w: nat, t: nat)
    requires ValidTask(k)
  {
    && w + s.left == (s.job + 1) * k.wcet && s.left <= k.wcet
    && s.due == s.job * k.period + k.deadline
    && (s.waiting ==> s.left == 0 && 0 < t && t <= (s.job + 1) * k.period)
    && (if t == 0 then s.job == 0 && s.left == k.wcet else s.job * k.period < t)
  }

  /** The same once the instant t has settled. */
  ghost predicate SettledInv(k: Task, s: TaskState, w: nat, t: nat)
    requires ValidTask(k)
  {
    && w + s.left == (s.job + 1) * k.wcet && s.left <= k.wcet
    && s.due == s.job * k.period + k.deadline
    && s.job * k.period <= t
    && (if s.waiting then s.left == 0 && t < (s.job + 1) * k.period else 0 < s.left)
  }

  ghost predicate Inv(ts: seq<Task>, c: Config)
    requires ValidSet(ts)
  {
    && |c.tasks| == |ts| && c.active < |ts| && |c.log| == c.now
    && (forall i :: 0 <= i < |ts| ==> TaskInv(ts[i], c.tasks[i], Work(c.log, i, c.now), c.now))
    && (forall i :: 0 <= i < |ts| && c.tasks[i].left == 0 && !c.tasks[i].waiting ==>
          0 < c.now && c.log[c.now - 1] == Run(i))
    && (0 < c.now && c.log[c.now - 1].Run? ==>
          && c.log[c.now - 1].task == c.active
          && !c.tasks[c.active].waiting && c.tasks[c.active].left < ts[c.active].wcet)
  }

  /** A job that ends on time or, with a deadline equal to the period, at any time settles consistently. */
  lemma SettleOne(k: Task, s: TaskState, w: nat, t: nat)
    requires ValidTask(k) && TaskInv(k, s, w, t)
    requires s.left == 0 && !s.waiting ==> t <= s.due || k.deadline == k.period
    ensures SettledInv(k, AtInstant(k, s, t), w, t)
  {
    var p, j := k.period, s.job;
    AddOne(j, p);
    AddOne(j + 1, p);
    AddOne(j + 1, k.wcet);
    if (s.waiting || (s.left == 0 && t <= s.due)) && t % p == 0 && 0 < t {
      DivBounds(t, p);
      OnlyMultiple(t, p, j);
    } else if (s.waiting || (s.left == 0 && t <= s.due)) && t == (j + 1) * p {
      CeilDivMultiple(j + 1, p);
      DivBounds(t, p);
    }
  }

  /** The only multiple of p in (j p, (j + 1) p] is (j + 1) p. */
  lemma OnlyMultiple(t: nat, p: nat, j: nat)
    requires 0 < p && t % p == 0 && j * p < t <= (j + 1) * p
    ensures t == (j + 1) * p
  {
    var q := t / p;
    assert q * p == t;
    if q <= j {
      MulMono(q, j, p);
    } else {
      MulMono(j + 1, q, p);
    }
  }

  /** Once settled, a task is ready exactly when a released job is unfinished. */
  lemma ReadyIsPending(k: Task, s: TaskState, w: nat, t: nat)
    requires ValidTask(k) && SettledInv(k, s, w, t)
    ensures Ready(s) <==> w < Released(k, t)
  {
    PeriodWorkClosed(k, t);
    var q, j := t / k.period, s.job;
    DivBounds(t, k.period);
    AddOne(q, k.wcet);
    if j <= q {
      MulMono(j + 1, q + 1, k.wcet);
    } else {
      MulMono(q + 1, j, k.period);
    }
    if s.waiting && j < q {
      MulMono(j + 1, q, k.period);
    }
  }

  /** A job that ends after its deadline was not met by it. */
  lemma LateJobNotMet(ts: seq<Task>, c: Config, i: nat)
    requires ValidSet(ts) && Inv(ts, c) && i < |ts|
    requires c.tasks[i].left == 0 && !c.tasks[i].waiting && c.tasks[i].due < c.now
    ensures !MeetsDeadlines(ts, c.log)
  {
    var s := c.tasks[i];
    assert TaskInv(ts[i], s, Work(c.log, i, c.now), c.now);
    assert JobDeadline(ts[i], s.job) == s.due;
    WorkMono(c.log, i, s.due, c.now - 1);
    assert !JobMet(ts, c.log, i, s.job);
  }

  /** Jobs released so far are the only ones that can be running late without breaking the release count. */
  ghost predicate Consistent(ts: seq<Task>, log: Log) {
    ImplicitDeadlines(ts) || MeetsDeadlines(ts, log)
  }

  lemma SettledAt(ts: seq<Task>, c: Config, i: nat)
    requires ValidSet(ts) && Inv(ts, c) && i < |ts| && Consistent(ts, c.log)
    ensures SettledInv(ts[i], Settle(ts, c)[i], Work(c.log, i, c.now), c.now)
    ensures Ready(Settle(ts, c)[i]) <==> Pending(ts, c.log, i, c.now)
  {
    if c.tasks[i].left == 0 && !c.tasks[i].waiting && c.tasks[i].due < c.now && !ImplicitDeadlines(ts) {
      LateJobNotMet(ts, c, i);
    }
    SettleOne(ts[i], c.tasks[i], Work(c.log, i, c.now), c.now);
    ReadyIsPending(ts[i], Settle(ts, c)[i], Work(c.log, i, c.now), c.now);
  }

  lemma ExecuteOne(k: Task, s: TaskState, w: nat, t: nat)
    requires ValidTask(k) && SettledInv(k, s, w, t)
    ensures TaskInv(k, s, w, t + 1)
    ensures 0 < s.left ==> TaskInv(k, s.(left := s.left - 1), w + 1, t + 1)
  {
  }

  lemma WorkAppend(log: Log, slot: Slot, i: nat)
    ensures Work(log + [slot], i, |log| + 1) == Work(log, i, |log|) + (if slot == Run(i) then 1 else 0)
  {
    WorkPrefix(log, log + [slot], i, |log|);
  }

  /** The task that runs during the next tick. */
  lemma {:induction false} StepRunning(ts: seq<Task>, pol: Policy, c: Config, c': Config)
    requires ValidSet(ts) && |c.log| == c.now && Step(ts, pol, c, c')
    requires var i := c'.active; var s := Settle(ts, c)[i];
             Ready(s) && SettledInv(ts[i], s, Work(c.log, i, c.now), c.now)
    ensures var i := c'.active;
            TaskInv(ts[i], c'.tasks[i], Work(c'.log, i, c'.now), c'.now) && c'.log[c.now] == Run(i)
  {
    var i := c'.active;
    WorkAppend(c.log, Run(i), i);
    ExecuteOne(ts[i], Settle(ts, c)[i], Work(c.log, i, c.now), c.now);
  }

  /** A task that does not run during the next tick. */
  lemma {:induction false} StepResting(ts: seq<Task>, pol: Policy, c: Config, c': Config, i: nat)
    requires ValidSet(ts) && |c.log| == c.now && Step(ts, pol, c, c') && i < |ts|
    requires i != c'.active || !Ready(Settle(ts, c)[i])
    requires SettledInv(ts[i], Settle(ts, c)[i], Work(c.log, i, c.now), c.now)
    ensures c'.tasks[i] == Settle(ts, c)[i]
    ensures TaskInv(ts[i], c'.tasks[i], Work(c'.log, i, c'.now), c'.now)
    ensures c'.tasks[i].left == 0 ==> c'.tasks[i].waiting
  {
    WorkAppend(c.log, SlotOf(Settle(ts, c), c'.active), i);
    ExecuteOne(ts[i], Settle(ts, c)[i], Work(c.log, i, c.now), c.now);
  }

  lemma {:induction false} StepTask(ts: seq<Task>, pol: Policy, c: Config, c': Config, i: nat)
    requires ValidSet(ts) && Inv(ts, c) && Step(ts, pol, c, c') && Consistent(ts, c.log) && i < |ts|
    ensures TaskInv(ts[i], c'.tasks[i], Work(c'.log, i, c'.now), c'.now)
    ensures c'.tasks[i].left == 0 && !c'.tasks[i].waiting ==> c'.log[c.now] == Run(i)
  {
    SettledAt(ts, c, i);
    if i == c'.active && Ready(Settle(ts, c)[i]) {
      StepRunning(ts, pol, c, c');
    } else {
      StepResting(ts, pol, c, c', i);
    }
  }

  /** Every step keeps the bookkeeping in agreement with the log. */
  lemma StepKeepsInv(ts: seq<Task>, pol: Policy, c: Config, c': Config)
    requires ValidSet(ts) && Inv(ts, c) && Step(ts, pol, c, c') && Consistent(ts, c.log)
    ensures Inv(ts, c')
  {
    forall i | 0 <= i < |ts|
      ensures TaskInv(ts[i], c'.tasks[i], Work(c'.log, i, c'.now), c'.now)
      ensures c'.tasks[i].left == 0 && !c'.tasks[i].waiting ==> c'.log[c.now] == Run(i)
    {
      StepTask(ts, pol, c, c', i);
    }
    SettledAt(ts, c, c'.active);
  }

  lemma InitInv(ts: seq<Task>, c: Config)
    requires ValidSet(ts) && Init(ts, c)
    ensures Inv(ts, c)
  {
  }

  /** Without a trigger, a ready task other than the active one was already pending one tick before. */
  lemma PendingBefore(ts: seq<Task>, c: Config, j: nat)
    requires ValidSet(ts) && Inv(ts, c) && !Triggered(ts, c)
    requires j < |ts| && j != c.active && Ready(Settle(ts, c)[j])
    ensures 0 < c.now && Pending(ts, c.log, j, c.now - 1)
  {
    var t, s, k := c.now - 1, c.tasks[j], ts[j];
    assert !s.waiting && 0 < s.left;
    assert TaskInv(k, s, Work(c.log, j, c.now), c.now);
    WorkMono(c.log, j, t, c.now);
    PeriodWorkClosed(k, t);
    DivBounds(t, k.period);
    if t / k.period < s.job {
      MulMono(t / k.period + 1, s.job, k.period);
    }
    MulMono(s.job, t / k.period, k.wcet);
    AddOne(s.job, k.wcet);
  }

  /** Without a trigger, a task that ran during the last tick is still ready. */
  lemma ActiveStaysReady(ts: seq<Task>, c: Config)
    requires ValidSet(ts) && Inv(ts, c) && !Triggered(ts, c)
    requires c.log[c.now - 1].Run?
    ensures Ready(Settle(ts, c)[c.active])
  {
  }

  /** A log grows consistently with a policy as soon as its new last slot does. */
  lemma ExtendRunsPending(ts: seq<Task>, c: Config, c': Config, pol: Policy)
    requires ValidSet(ts) && Inv(ts, c) && Step(ts, pol, c, c') && Consistent(ts, c.log)
    requires RunsPending(ts, c.log)
    ensures RunsPending(ts, c'.log)
  {
    forall t | 0 <= t < |c'.log| && c'.log[t].Run?
      ensures Pending(ts, c'.log, c'.log[t].task, t)
    {
      if t < c.now {
        assert c.log[t] == c'.log[t];
        PendingPrefix(ts, c.log, c'.log, c.log[t].task, t);
      } else {
        LastSlotPending(ts, c, c', pol);
      }
    }
  }

  lemma {:induction false} LastSlotPending(ts: seq<Task>, c: Config, c': Config, pol: Policy)
    requires ValidSet(ts) && Inv(ts, c) && Step(ts, pol, c, c') && Consistent(ts, c.log)
    requires c'.log[c.now].Run?
    ensures Pending(ts, c'.log, c'.log[c.now].task, c.now)
  {
    SettledAt(ts, c, c'.active);
    PendingPrefix(ts, c.log, c'.log, c'.active, c.now);
  }

  /** Event-driven dispatching of static priorities is as good as dispatching at every tick. */
  lemma StepKeepsPriority(ts: seq<Task>, c: Config, c': Config)
    requires ValidSet(ts) && Inv(ts, c) && Step(ts, StaticPriorities, c, c') && Consistent(ts, c.log)
    requires PriorityLog(ts, c.log)
    ensures PriorityLog(ts, c'.log)
  {
    ExtendRunsPending(ts, c, c', StaticPriorities);
    forall t, j | 0 <= t < |c'.log| && Pending(ts, c'.log, j, t)
      ensures c'.log[t].Run? && c'.log[t].task <= j
    {
      PendingPrefix(ts, c.log, c'.log, j, t);
      if t < c.now {
        assert c.log[t] == c'.log[t];
      } else {
        SettledAt(ts, c, j);
        if !Selects(StaticPriorities, Settle(ts, c), c'.active) && j != c.active {
          PendingBefore(ts, c, j);
          ActiveStaysReady(ts, c);
        }
      }
    }
  }

  /** With a deadline equal to the period, the tracked deadline of a ready task is that of its oldest unfinished job. */
  lemma {:induction false} DueAfterJob(k: Task, w: nat, j: nat)
    requires ValidTask(k) && j * k.wcet <= w < (j + 1) * k.wcet
    ensures DueAfter(k, w) == (j + 1) * k.period
    decreases j
  {
    AddOne(j, k.wcet);
    AddOne(j, k.period);
    if j > 0 {
      AddOne(j - 1, k.wcet);
      MulMono(1, j, k.wcet);
      DueAfterJob(k, w - k.wcet, j - 1);
    }
  }

  lemma DueSettled(ts: seq<Task>, c: Config, i: nat)
    requires ValidSet(ts) && Inv(ts, c) && ImplicitDeadlines(ts)
    requires i < |ts| && Ready(Settle(ts, c)[i])
    ensures Due(ts, c.log, i, c.now) == Settle(ts, c)[i].due
  {
    SettledAt(ts, c, i);
    var s := Settle(ts, c)[i];
    AddOne(s.job, ts[i].wcet);
    AddOne(s.job, ts[i].period);
    DueAfterJob(ts[i], Work(c.log, i, c.now), s.job);
  }

  /** The due time of an active task that has not finished its job is the same before and after the last tick. */
  lemma DueUnchanged(ts: seq<Task>, c: Config)
    requires ValidSet(ts) && Inv(ts, c) && ImplicitDeadlines(ts)
    requires 0 < c.now && c.log[c.now - 1].Run? && 0 < c.tasks[c.active].left
    ensures Due(ts, c.log, c.active, c.now - 1) == Due(ts, c.log, c.active, c.now)
  {
    var s, k, w := c.tasks[c.active], ts[c.active], Work(c.log, c.active, c.now);
    assert TaskInv(k, s, w, c.now);
    AddOne(s.job, k.wcet);
    DueAfterJob(k, w, s.job);
    DueAfterJob(k, w - 1, s.job);
  }

  lemma StepKeepsEdf(ts: seq<Task>, c: Config, c': Config)
    requires ValidSet(ts) && Inv(ts, c) && Step(ts, EarliestDeadline, c, c')
    requires ImplicitDeadlines(ts) && MeetsDeadlines(ts, c.log) && EdfLog(ts, c.log)
    ensures EdfLog(ts, c'.log)
  {
    ExtendRunsPending(ts, c, c', EarliestDeadline);
    forall t, j | 0 <= t < |c'.log| && Pending(ts, c'.log, j, t)
      ensures c'.log[t].Run? && Due(ts, c'.log, c'.log[t].task, t) <= Due(ts, c'.log, j, t)
    {
      PendingPrefix(ts, c.log, c'.log, j, t);
      if t < c.now {
        assert c.log[t] == c'.log[t];
        assert Pending(ts, c.log, c.log[t].task, t);
        PendingPrefix(ts, c.log, c'.log, c.log[t].task, t);
      } else {
        LatestIsEarliest(ts, c, c', j);
        PendingPrefix(ts, c.log, c'.log, c'.active, t);
      }
    }
  }

  lemma LatestIsEarliest(ts: seq<Task>, c: Config, c': Config, j: nat)
    requires ValidSet(ts) && Inv(ts, c) && Step(ts, EarliestDeadline, c, c')
    requires ImplicitDeadlines(ts) && MeetsDeadlines(ts, c.log) && EdfLog(ts, c.log)
    requires Pending(ts, c.log, j, c.now)
    ensures Ready(Settle(ts, c)[c'.active])
    ensures Due(ts, c.log, c'.active, c.now) <= Due(ts, c.log, j, c.now)
  {
    SettledAt(ts, c, j);
    DueSettled(ts, c, j);
    if Selects(EarliestDeadline, Settle(ts, c), c'.active) {
      DueSettled(ts, c, c'.active);
    } else if j != c.active {
      PendingBefore(ts, c, j);
      ActiveStaysReady(ts, c);
      if c.tasks[c.active].left == 0 {
        LateJobNotMet(ts, c, c.active);
      }
      DueUnchanged(ts, c);
    }
  }

  /** While all deadlines are met no miss flag is raised. */
  lemma StepKeepsUnflagged(ts: seq<Task>, pol: Policy, c: Config, c': Config)
    requires ValidSet(ts) && Inv(ts, c) && Step(ts, pol, c, c') && MeetsDeadlines(ts, c.log)
    requires forall i :: 0 <= i < |ts| ==> !c.tasks[i].missed
    ensures forall i :: 0 <= i < |ts| ==> !c'.tasks[i].missed
  {
    forall i | 0 <= i < |ts|
      ensures !c'.tasks[i].missed
    {
      if c.tasks[i].left == 0 && !c.tasks[i].waiting && c.tasks[i].due < c.now {
        LateJobNotMet(ts, c, i);
      }
    }
  }

  lemma MeetsPrefix(ts: seq<Task>, log: Log, log': Log)
    requires ValidSet(ts) && log <= log' && MeetsDeadlines(ts, log')
    ensures MeetsDeadlines(ts, log)
  {
    forall i: nat, j: nat | i < |ts| && JobDeadline(ts[i], j) <= |log|
      ensures JobMet(ts, log, i, j)
    {
      assert JobMet(ts, log', i, j);
      WorkPrefix(log, log', i, JobDeadline(ts[i], j));
    }
  }
}
