/**
 A processing element that updates its task records in place, one tick at a
 time: every tick is a step of the kernel machine, so runs of any length exist.
 */
module ProcessingElement {
  import opened TaskModel
  import opened Schedules
  import opened Kernel
  import Guarantees
  import LiuLayland
  import MissFlags
  import ResponseTime

  class Element {
    const ts: seq<Task>
    const pol: Policy
    const tasks: array<TaskState>
    var now: nat
    var active: nat
    var log: Log

    ghost predicate Valid()
      reads this, tasks
    {
      ValidSet(ts) && 0 < |ts| == tasks.Length && active < |ts| && !pol.AnyPolicy?
    }

    function Current(): Config
      reads this, tasks
    {
      Config(now, tasks[..], active, log)
    }

    constructor (ts: seq<Task>, pol: Policy)
      requires ValidSet(ts) && 0 < |ts| && !pol.AnyPolicy?
      ensures Valid() && fresh(tasks) && this.ts == ts && this.pol == pol && Init(ts, Current())
    {
      this.ts, this.pol := ts, pol;
      tasks := new TaskState[|ts|](i requires 0 <= i < |ts| => TaskState(0, ts[i].wcet, ts[i].deadline, false, false));
      now, active, log := 0, 0, [];
    }

    /**
     The wait_period calls and release events of this instant, task by task; tells whether they wake the
     scheduler.
     */
    method SettleAll() returns (triggered: bool)
      requires Valid()
      modifies tasks
      ensures Valid() && tasks[..] == Settle(ts, old(Current()))
      ensures triggered == Triggered(ts, old(Current()))
    {
      ghost var c := Current();
      triggered := now == 0;
      var i := 0;
      while i < tasks.Length
        invariant i <= tasks.Length && Valid()
        invariant forall k :: 0 <= k < i ==> tasks[k] == AtInstant(ts[k], c.tasks[k], now)
        invariant forall k :: i <= k < tasks.Length ==> tasks[k] == c.tasks[k]
        invariant triggered <==>
                  || now == 0
                  || (active < i && EntersWait(c.tasks[active], now))
                  || exists k :: 0 <= k < i && k != active && c.tasks[k].waiting
                                 && Ready(AtInstant(ts[k], c.tasks[k], now))
      {
        var s, k := tasks[i], ts[i];
        var waited := s.waiting;
        if s.left == 0 && !s.waiting {
          if now > s.due {
            s := TaskState(s.job + 1, k.wcet, s.due + k.period, false, true);
          } else {
            s := s.(waiting := true);
            triggered := triggered || i == active;
          }
        }
        if s.waiting && 0 < now && now % k.period == 0 {
          s := TaskState(s.job + 1, k.wcet, s.due + k.period, false, s.missed);
        }
        if waited && !s.waiting && i != active {
          triggered := true;
        }
        tasks[i] := s;
        i := i + 1;
      }
    }

    /** The decision of the scheduler: the first ready task of the priority table, or a ready task due earliest. */
    method Dispatch() returns (p: nat)
      requires Valid()
      ensures Selects(pol, tasks[..], p)
    {
      p := 0;
      var i := 0;
      if pol == StaticPriorities {
        while i < tasks.Length
          invariant i <= tasks.Length && p == 0
          invariant forall j :: 0 <= j < i ==> tasks[j].waiting
        {
          if !tasks[i].waiting {
            assert Ready(tasks[..][i]);
            return i;
          }
          i := i + 1;
        }
        NoneReady(tasks[..]);
      } else {
        var found := false;
        while i < tasks.Length
          invariant i <= tasks.Length && p < tasks.Length
          invariant !found ==> forall j :: 0 <= j < i ==> tasks[j].waiting
          invariant found ==> Ready(tasks[p]) &&
                              forall j :: 0 <= j < i && Ready(tasks[j]) ==> tasks[p].due <= tasks[j].due
        {
          if !tasks[i].waiting && (!found || tasks[i].due < tasks[p].due) {
            found, p := true, i;
          }
          i := i + 1;
        }
      }
    }

    /** The active task computes for one tick, if it is ready. */
    method Compute()
      requires Valid()
      modifies tasks
      ensures Valid() && tasks[..] == Execute(old(tasks[..]), active)
    {
      if !tasks[active].waiting && 0 < tasks[active].left {
        tasks[active] := tasks[active].(left := tasks[active].left - 1);
      }
    }

    /** One tick; tickTimer tells whether the tick timer also wakes the scheduler. */
    method Tick(tickTimer: bool)
      requires Valid()
      modifies this`now, this`active, this`log, tasks
      ensures Valid() && Step(ts, pol, old(Current()), Current())
      ensures Triggered(ts, old(Current())) || tickTimer ==> Selects(pol, Settle(ts, old(Current())), active)
      ensures !Triggered(ts, old(Current())) && !tickTimer ==> active == old(active)
    {
      ghost var c := Current();
      var triggered := SettleAll();
      if triggered || tickTimer {
        active := Dispatch();
      }
      log := log + [SlotOf(tasks[..], active)];
      Compute();
      now := now + 1;
    }
  }

  lemma {:induction false} NoneReady(tasks: seq<TaskState>)
    requires forall j :: 0 <= j < |tasks| ==> !Ready(tasks[j])
    ensures FirstReady(tasks) == 0
  {
    if tasks == [] {
    } else {
      NoneReady(tasks[..|tasks| - 1]);
    }
  }

  /**
   The table was accepted by the static analysis of a scheduler it covers:
   preemptive rate monotonic, or earliest deadline first, with deadlines equal to
   periods.
   */
  predicate AnalysisCovers(ts: seq<Task>, pol: Policy)
    requires ValidSet(ts) && 0 < |ts|
  {
    && ImplicitDeadlines(ts) && Utilization(ts) < 1.0
    && (pol.StaticPriorities? ==> RateMonotonic(ts) && LiuLayland.BoundPasses(Utilization(ts), |ts|))
  }

  lemma {:induction false} CoveredRunSafe(ts: seq<Task>, pol: Policy, cs: seq<Config>)
    requires ValidSet(ts) && 0 < |ts| && !pol.AnyPolicy? && AnalysisCovers(ts, pol) && IsRun(ts, pol, cs)
    ensures Guarantees.Safe(ts, Guarantees.Last(cs))
  {
    if pol.StaticPriorities? {
      Guarantees.LiuLaylandRunSafe(ts, cs);
    } else {
      Guarantees.EdfRunSafe(ts, cs);
    }
  }

  /**
   A simulation: for every task set, policy and pattern of tick-timer events there
   is a run of that many steps. A miss is reported exactly if some job of some task
   ended late, and so none for a table its static analysis
   covers, nor for static priorities when every task has a response within its
   deadline.
   */
  method Simulate(ts: seq<Task>, pol: Policy, timer: seq<bool>) returns (missed: bool, cs: seq<Config>)
    requires ValidSet(ts) && 0 < |ts| && !pol.AnyPolicy?
    ensures IsRun(ts, pol, cs) && |cs| == |timer| + 1
    ensures missed <==> exists i: nat, j: nat :: i < |ts| && MissFlags.EndedLate(ts, cs[|timer|].log, i, j)
    ensures AnalysisCovers(ts, pol) ==> !missed
    ensures pol.StaticPriorities? && (forall i :: 0 <= i < |ts| ==> ResponseTime.Responsive(ts, i)) ==> !missed
  {
    var e := new Element(ts, pol);
    cs := [e.Current()];
    var n := 0;
    while n < |timer|
      invariant n <= |timer| && |cs| == n + 1 && e.Valid() && fresh(e) && fresh(e.tasks)
      invariant e.ts == ts && e.pol == pol && cs[n] == e.Current()
      invariant IsRun(ts, pol, cs)
    {
      e.Tick(timer[n]);
      cs := cs + [e.Current()];
      n := n + 1;
    }
    missed := false;
    for i := 0 to e.tasks.Length
      invariant missed <==> exists k :: 0 <= k < i && e.tasks[k].missed
    {
      missed := missed || e.tasks[i].missed;
    }
    MissFlags.AnyMissed(ts, pol, cs);
    assert cs[n].tasks == e.tasks[..];
    if AnalysisCovers(ts, pol) {
      CoveredRunSafe(ts, pol, cs);
    }
    if pol.StaticPriorities? && forall i :: 0 <= i < |ts| ==> ResponseTime.Responsive(ts, i) {
      Guarantees.PriorityRunSafe(ts, cs);
    }
  }
}
