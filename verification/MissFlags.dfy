/**
 The miss flags of the kernel, read back from the log alone: after any run of any
 policy a flag is up exactly if some job of the task was unfinished at its deadline
 and has ended since. This holds whatever was missed before, and needs only the
 bookkeeping that no miss disturbs.
 */
module MissFlags {
  import opened Arith
  import opened TaskModel
  import opened Schedules
  import opened Kernel
  import Guarantees

  /** Job j of task i was unfinished at its deadline and had ended one tick before the end of the log. */
  predicate EndedLate(ts: seq<Task>, log: Log, i: nat, j: nat)
    requires i < |ts|
  {
    var dl, work := JobDeadline(ts[i], j), (j + 1) * ts[i].wcet;
    dl < |log| && Work(log, i, dl) < work <= Work(log, i, |log| - 1)
  }

  /** What every step keeps of one task, late jobs or not. */
  ghost predicate Tracked(k: Task, s: TaskState, log: Log, i: nat) {
    && Work(log, i, |log|) + s.left == (s.job + 1) * k.wcet && s.left <= k.wcet
    && s.due == JobDeadline(k, s.job)
    && (s.waiting ==> s.left == 0)
    && (s.left == 0 && !s.waiting ==> log != [] && log[|log| - 1] == Run(i))
    && (log != [] && log[|log| - 1] == Run(i) ==> !s.waiting && s.left < k.wcet)
  }

  ghost predicate AllTracked(ts: seq<Task>, c: Config) {
    && |c.tasks| == |ts| && |c.log| == c.now
    && forall i :: 0 <= i < |ts| ==> Tracked(ts[i], c.tasks[i], c.log, i)
  }

  /** The calls and events of an instant keep work and deadline in step, and leave a ready task with work to do. */
  lemma {:induction false} InstantTracked(k: Task, s: TaskState, log: Log, i: nat)
    requires ValidTask(k) && Tracked(k, s, log, i)
    ensures var r := AtInstant(k, s, |log|);
            && Work(log, i, |log|) + r.left == (r.job + 1) * k.wcet && r.left <= k.wcet
            && r.due == JobDeadline(k, r.job)
            && (if r.waiting then r.left == 0 else 0 < r.left)
  {
    AddOne(s.job + 1, k.wcet);
    AddOne(s.job, k.period);
  }

  lemma {:induction false} StepTracked(ts: seq<Task>, pol: Policy, c: Config, c': Config)
    requires ValidSet(ts) && AllTracked(ts, c) && Step(ts, pol, c, c')
    ensures AllTracked(ts, c')
  {
    forall i | 0 <= i < |ts|
      ensures Tracked(ts[i], c'.tasks[i], c'.log, i)
    {
      InstantTracked(ts[i], c.tasks[i], c.log, i);
      WorkAppend(c.log, SlotOf(Settle(ts, c), c'.active), i);
    }
  }

  /** The call of this instant that raises the flag. */
  predicate RaisesFlag(s: TaskState, now: nat) {
    s.left == 0 && !s.waiting && s.due < now
  }

  lemma {:induction false} FlagStep(ts: seq<Task>, pol: Policy, c: Config, c': Config, i: nat)
    requires ValidSet(ts) && Step(ts, pol, c, c') && i < |ts|
    ensures c'.tasks[i].missed <==> c.tasks[i].missed || RaisesFlag(c.tasks[i], c.now)
  {
  }

  /** A late job that ended in the last tick is the current one, and its call comes now. */
  lemma {:induction false} JustEnded(k: Task, s: TaskState, log: Log, i: nat, j: nat)
    requires ValidTask(k) && Tracked(k, s, log, i) && log != []
    requires Work(log, i, |log| - 1) < (j + 1) * k.wcet <= Work(log, i, |log|)
    ensures s.left == 0 && !s.waiting && s.job == j
  {
    var w := Work(log, i, |log|);
    assert log[|log| - 1] == Run(i) && w == (j + 1) * k.wcet;
    AddOne(j + 1, k.wcet);
    AddOne(s.job + 1, k.wcet);
    if j < s.job {
      MulMono(j + 2, s.job + 1, k.wcet);
    } else if s.job < j {
      MulMono(s.job + 2, j + 1, k.wcet);
    }
  }

  /** One more slot brings exactly the late job, if any, whose call is made at its start. */
  lemma {:induction false} EndedLateStep(ts: seq<Task>, s: TaskState, log: Log, slot: Slot, i: nat)
    requires ValidSet(ts) && i < |ts| && Tracked(ts[i], s, log, i)
    ensures (exists j :: EndedLate(ts, log + [slot], i, j)) <==>
            (exists j :: EndedLate(ts, log, i, j)) || RaisesFlag(s, |log|)
  {
    var log' := log + [slot];
    if j: nat :| EndedLate(ts, log', i, j) {
      LateBefore(ts, s, log, slot, i, j);
    }
    if j: nat :| EndedLate(ts, log, i, j) {
      WorkPrefix(log, log', i, JobDeadline(ts[i], j));
      WorkPrefix(log, log', i, |log|);
      assert EndedLate(ts, log', i, j);
    }
    if RaisesFlag(s, |log|) {
      WorkPrefix(log, log', i, |log|);
      WorkPrefix(log, log', i, s.due);
      WorkMono(log, i, s.due, |log| - 1);
      assert EndedLate(ts, log', i, s.job);
    }
  }

  lemma {:induction false} LateBefore(ts: seq<Task>, s: TaskState, log: Log, slot: Slot, i: nat, j: nat)
    requires ValidSet(ts) && i < |ts| && Tracked(ts[i], s, log, i) && EndedLate(ts, log + [slot], i, j)
    ensures EndedLate(ts, log, i, j) || RaisesFlag(s, |log|)
  {
    var dl := JobDeadline(ts[i], j);
    WorkPrefix(log, log + [slot], i, |log|);
    WorkPrefix(log, log + [slot], i, dl);
    if dl < |log| && !EndedLate(ts, log, i, j) {
      JustEnded(ts[i], s, log, i, j);
    }
  }

  lemma {:induction false} InitTracked(ts: seq<Task>, c: Config)
    requires ValidSet(ts) && Init(ts, c)
    ensures AllTracked(ts, c)
  {
  }

  /** In every run of every policy a miss flag is up exactly if a job ended late, by the log. */
  lemma {:induction false} MissedExactly(ts: seq<Task>, pol: Policy, cs: seq<Config>, i: nat)
    requires ValidSet(ts) && IsRun(ts, pol, cs) && i < |ts|
    ensures AllTracked(ts, Guarantees.Last(cs))
    ensures Guarantees.Last(cs).tasks[i].missed <==> exists j :: EndedLate(ts, Guarantees.Last(cs).log, i, j)
    decreases |cs|
  {
    if |cs| == 1 {
      InitTracked(ts, cs[0]);
    } else {
      var c, c' := cs[|cs| - 2], Guarantees.Last(cs);
      Guarantees.RunFront(ts, pol, cs);
      MissedExactly(ts, pol, cs[..|cs| - 1], i);
      StepTracked(ts, pol, c, c');
      FlagStep(ts, pol, c, c', i);
      EndedLateStep(ts, c.tasks[i], c.log, SlotOf(Settle(ts, c), c'.active), i);
    }
  }

  /** Some flag is up exactly if some job of some task ended late. */
  lemma {:induction false} AnyMissed(ts: seq<Task>, pol: Policy, cs: seq<Config>)
    requires ValidSet(ts) && IsRun(ts, pol, cs)
    ensures |Guarantees.Last(cs).tasks| == |ts|
    ensures (exists i :: 0 <= i < |ts| && Guarantees.Last(cs).tasks[i].missed) <==>
            exists i: nat, j: nat :: i < |ts| && EndedLate(ts, Guarantees.Last(cs).log, i, j)
  {
    var c := Guarantees.Last(cs);
    RunTasks(ts, pol, cs);
    if i :| 0 <= i < |ts| && c.tasks[i].missed {
      MissedExactly(ts, pol, cs, i);
      var j: nat :| EndedLate(ts, c.log, i, j);
    }
    if i: nat, j: nat :| i < |ts| && EndedLate(ts, c.log, i, j) {
      MissedExactly(ts, pol, cs, i);
      assert c.tasks[i].missed;
    }
  }

  lemma {:induction false} RunTasks(ts: seq<Task>, pol: Policy, cs: seq<Config>)
    requires ValidSet(ts) && IsRun(ts, pol, cs)
    ensures |Guarantees.Last(cs).tasks| == |ts|
  {
    if 1 < |cs| {
      Guarantees.RunFront(ts, pol, cs);
    }
  }

  /** A flag once raised stays raised. */
  lemma {:induction false} FlagStays(ts: seq<Task>, pol: Policy, cs: seq<Config>, m: nat, n: nat, i: nat)
    requires ValidSet(ts) && IsRun(ts, pol, cs) && m <= n < |cs| && i < |ts|
    requires |cs[m].tasks| == |ts| && cs[m].tasks[i].missed
    ensures |cs[n].tasks| == |ts| && cs[n].tasks[i].missed
    decreases n
  {
    if m == n {
    } else {
      FlagStays(ts, pol, cs, m, n - 1, i);
      assert Step(ts, pol, cs[n - 1], cs[n - 1 + 1]);
      FlagStep(ts, pol, cs[n - 1], cs[n], i);
    }
  }

  // When the scheduler wakes up -------------------------------------------------------------

  /** The active task ended a job in the last tick, no later than its deadline. */
  ghost predicate EndedOnTime(ts: seq<Task>, log: Log, i: nat)
    requires i < |ts|
  {
    exists j: nat :: EndsNow(ts, log, i, j) && |log| <= JobDeadline(ts[i], j)
  }

  predicate EndsNow(ts: seq<Task>, log: Log, i: nat, j: nat)
    requires i < |ts|
  {
    log != [] && Work(log, i, |log| - 1) < (j + 1) * ts[i].wcet <= Work(log, i, |log|)
  }

  /**
   The events that wake the scheduler besides the tick timer: the start, the active
   task ending a job on time, and the release of another task that waits for it.
   */
  lemma {:induction false} TriggeredExactly(ts: seq<Task>, c: Config)
    requires ValidSet(ts) && AllTracked(ts, c) && c.active < |ts|
    ensures Triggered(ts, c) <==>
            || c.now == 0
            || EndedOnTime(ts, c.log, c.active)
            || exists i :: 0 <= i < |ts| && i != c.active && c.tasks[i].waiting && c.now % ts[i].period == 0
  {
    var s, k := c.tasks[c.active], ts[c.active];
    assert Tracked(k, s, c.log, c.active);
    if EntersWait(s, c.now) && 0 < c.now {
      WorkMono(c.log, c.active, c.now - 1, c.now);
      assert EndsNow(ts, c.log, c.active, s.job);
    }
    if j: nat :| EndsNow(ts, c.log, c.active, j) && |c.log| <= JobDeadline(k, j) {
      JustEnded(k, s, c.log, c.active, j);
    }
    if 0 < c.now {
      forall i | 0 <= i < |ts| && c.tasks[i].waiting
        ensures Ready(AtInstant(ts[i], c.tasks[i], c.now)) <==> c.now % ts[i].period == 0
      {
      }
    }
  }
}
