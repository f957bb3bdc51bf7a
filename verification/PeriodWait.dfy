/**
 The period wait seen from both sides: the kernel machine, which settles every
 instant on its own, resumes a task exactly when its wait_period call returns.
 */
module PeriodWait {
  import opened Arith
  import opened TaskModel
  import opened Kernel
  import TaskConstructs

  lemma ShiftByPeriod(t: nat, period: nat)
    requires 0 < period <= t
    ensures (t - period) % period == t % period
  {
    var q := (t - period) / period;
    DivBounds(t - period, period);
    AddOne(q, period);
    AddOne(q + 1, period);
    DivUnique(t, period, q + 1);
  }

  lemma BelowPeriod(t: nat, period: nat)
    requires 0 < t <= period
    ensures t % period == 0 <==> t == period
  {
    if t < period {
      DivUnique(t, period, 0);
    } else {
      DivUnique(t, period, 1);
    }
  }

  /** No release event fires between the call and the next release, and one fires then. */
  lemma {:induction false} NextReleaseIsFirst(now: nat, t: nat, period: nat)
    requires 0 < period && 0 < t && now <= t <= TaskConstructs.NextRelease(now, period)
    ensures t % period == 0 <==> t == TaskConstructs.NextRelease(now, period)
    decreases now
  {
    if now <= period {
      BelowPeriod(t, period);
    } else {
      NextReleaseIsFirst(now - period, t - period, period);
      ShiftByPeriod(t, period);
    }
  }

  /**
   A task whose job ends at time now: when the kernel has settled that instant it
   is ready exactly if the call returns at once.
   */
  lemma CallReturnsAtOnce(k: Task, s: TaskState, now: nat)
    requires ValidTask(k) && 0 < now && s.left == 0 && !s.waiting
    requires s.due == TaskConstructs.DueOf(k.deadline, k.period, s.job)
    ensures Ready(AtInstant(k, s, now)) <==> TaskConstructs.Resume(k.deadline, k.period, s.job, now) == now
    ensures AtInstant(k, s, now).missed <==> s.missed || now > s.due
  {
    if now <= s.due {
      NextReleaseIsFirst(now, now, k.period);
    }
  }

  /**
   A task that waits since its call at time now stays as it is until the call
   returns, and starts its next job then.
   */
  lemma WaitEndsAtReturn(k: Task, s: TaskState, now: nat, t: nat)
    requires ValidTask(k) && s.waiting && now <= s.due
    requires s.due == TaskConstructs.DueOf(k.deadline, k.period, s.job)
    requires 0 < t && now <= t <= TaskConstructs.Resume(k.deadline, k.period, s.job, now)
    ensures AtInstant(k, s, t) ==
            if t == TaskConstructs.Resume(k.deadline, k.period, s.job, now) then StartJob(k, s) else s
  {
    NextReleaseIsFirst(now, t, k.period);
  }
}
