/**
 Earliest deadline first against the full-utilization test
 (full_utilization_bound in static_sched_analysis.cpp), and the converse for
 any dispatching policy.
 */
module Edf {
  import opened Arith
  import opened TaskModel
  import opened Schedules

  /** Work of the jobs of task i due by d that is still missing at time t. */
  function Owed(ts: seq<Task>, log: Log, i: nat, t: nat, d: nat): nat
    requires ValidSet(ts) && i < |ts| && t <= |log|
  {
    var due := PeriodWork(ts[i], d);
    if due <= Work(log, i, t) then 0 else due - Work(log, i, t)
  }

  function SumOwed(ts: seq<Task>, log: Log, n: nat, t: nat, d: nat): nat
    requires ValidSet(ts) && n <= |ts| && t <= |log|
  {
    if n == 0 then 0 else SumOwed(ts, log, n - 1, t, d) + Owed(ts, log, n - 1, t, d)
  }

  lemma {:induction false} OwedInitially(ts: seq<Task>, log: Log, n: nat, d: nat)
    requires ValidSet(ts) && n <= |ts|
    ensures SumOwed(ts, log, n, 0, d) == WindowDemand(ts, n, d)
  {
    if n == 0 {
    } else {
      OwedInitially(ts, log, n - 1, d);
    }
  }

  lemma {:induction false} OwedMember(ts: seq<Task>, log: Log, n: nat, i: nat, t: nat, d: nat)
    requires ValidSet(ts) && i < n <= |ts| && t <= |log|
    ensures Owed(ts, log, i, t, d) <= SumOwed(ts, log, n, t, d)
  {
    if i < n - 1 {
      OwedMember(ts, log, n - 1, i, t, d);
    }
  }

  /** Serving a task never increases what is owed, and reduces it when the task owes something by d. */
  lemma {:induction false} OwedStep(ts: seq<Task>, log: Log, n: nat, t: nat, d: nat)
    requires ValidSet(ts) && n <= |ts| && t < |log|
    ensures SumOwed(ts, log, n, t + 1, d) ==
            SumOwed(ts, log, n, t, d) -
            (if log[t].Run? && log[t].task < n && Owed(ts, log, log[t].task, t, d) > 0 then 1 else 0)
  {
    if n == 0 {
    } else {
      OwedStep(ts, log, n - 1, t, d);
    }
  }

  /** After w ticks of service the oldest unfinished job is due by d exactly when the work due by d exceeds w. */
  lemma {:induction false} DueAfterOwed(k: Task, w: nat, d: nat)
    requires ValidTask(k)
    ensures DueAfter(k, w) <= d <==> w < PeriodWork(k, d)
    decreases w
  {
    if d < k.period {
      NoPeriod(k, d);
    } else {
      OnePeriodLess(k, d);
      if k.wcet <= w {
        DueAfterOwed(k, w - k.wcet, d - k.period);
      }
    }
  }

  lemma NoPeriod(k: Task, d: nat)
    requires ValidTask(k) && d < k.period
    ensures PeriodWork(k, d) == 0
  {
    PeriodWorkClosed(k, d);
    DivUnique(d, k.period, 0);
  }

  lemma OnePeriodLess(k: Task, d: nat)
    requires ValidTask(k) && k.period <= d
    ensures PeriodWork(k, d) == PeriodWork(k, d - k.period) + k.wcet
  {
    PeriodWorkClosed(k, d);
    PeriodWorkClosed(k, d - k.period);
    var q := (d - k.period) / k.period;
    DivBounds(d - k.period, k.period);
    AddOne(q, k.period);
    AddOne(q + 1, k.period);
    DivUnique(d, k.period, q + 1);
    AddOne(q, k.wcet);
  }

  /** A task with nothing pending and due by d can only owe whole future periods. */
  lemma OwedFutureOne(ts: seq<Task>, log: Log, i: nat, t: nat, d: nat)
    requires ValidSet(ts) && i < |ts| && t <= |log| && t < d
    requires Pending(ts, log, i, t) ==> d < Due(ts, log, i, t)
    ensures Owed(ts, log, i, t, d) <= PeriodWork(ts[i], d - t - 1)
  {
    DueAfterOwed(ts[i], Work(log, i, t), d);
    PeriodWorkWindow(ts[i], t, d);
  }

  lemma {:induction false} OwedFuture(ts: seq<Task>, log: Log, n: nat, t: nat, d: nat)
    requires ValidSet(ts) && n <= |ts| && t <= |log| && t < d
    requires forall j: nat :: j < n && Pending(ts, log, j, t) ==> d < Due(ts, log, j, t)
    ensures SumOwed(ts, log, n, t, d) <= WindowDemand(ts, n, d - t - 1)
  {
    if n == 0 {
    } else {
      OwedFuture(ts, log, n - 1, t, d);
      OwedFutureOne(ts, log, n - 1, t, d);
    }
  }

  /** The invariant of earliest deadline first: what is owed by d always fits before d. */
  lemma {:induction false} OwedFits(ts: seq<Task>, log: Log, t: nat, d: nat)
    requires ValidSet(ts) && EdfLog(ts, log) && Utilization(ts) <= 1.0
    requires t <= |log| && t <= d
    ensures SumOwed(ts, log, |ts|, t, d) <= d - t
  {
    if t == 0 {
      OwedInitially(ts, log, |ts|, d);
      DemandFits(ts, d);
    } else {
      var s := t - 1;
      OwedFits(ts, log, s, d);
      OwedStep(ts, log, |ts|, s, d);
      if log[s].Run? && Due(ts, log, log[s].task, s) <= d {
        assert Pending(ts, log, log[s].task, s);
        DueAfterOwed(ts[log[s].task], Work(log, log[s].task, s), d);
      } else {
        OwedFuture(ts, log, |ts|, s, d);
        DemandFits(ts, d - s - 1);
      }
    }
  }

  lemma DemandFits(ts: seq<Task>, x: nat)
    requires ValidSet(ts) && Utilization(ts) <= 1.0
    ensures WindowDemand(ts, |ts|, x) <= x
  {
    WindowDemandBound(ts, |ts|, x);
    assert ts[..|ts|] == ts;
    Shrink(WindowDemand(ts, |ts|, x), x, Utilization(ts));
  }

  lemma Shrink(w: nat, x: nat, u: real)
    requires u <= 1.0 && w as real <= Times(x, u)
    ensures w <= x
  {
    TimesClosed(x, u);
    var y, d := x as real, 1.0 - u;
    NonNegative(y, d);
    assert y * u == y - y * d;
  }

  /** Sufficiency: no EDF schedule of a set with utilization at most 1 misses a deadline. */
  lemma EdfSufficient(ts: seq<Task>, log: Log)
    requires ValidSet(ts) && ImplicitDeadlines(ts) && EdfLog(ts, log)
    requires Utilization(ts) <= 1.0
    ensures MeetsDeadlines(ts, log)
  {
    forall i: nat, j: nat | i < |ts| && JobDeadline(ts[i], j) <= |log|
      ensures JobMet(ts, log, i, j)
    {
      var d := JobDeadline(ts[i], j);
      assert d == (j + 1) * ts[i].period;
      OwedFits(ts, log, d, d);
      OwedMember(ts, log, |ts|, i, d, d);
      PeriodWorkClosed(ts[i], d);
      CeilDivMultiple(j + 1, ts[i].period);
    }
  }

  lemma {:induction false} AllServed(ts: seq<Task>, log: Log, n: nat, h: nat)
    requires ValidSet(ts) && n <= |ts| && h <= |log|
    requires forall i :: 0 <= i < n ==> PeriodWork(ts[i], h) <= Work(log, i, h)
    ensures WindowDemand(ts, n, h) <= SumWork(log, n, h)
  {
    if n == 0 {
    } else {
      AllServed(ts, log, n - 1, h);
    }
  }

  /** The last job of task i due by a multiple h of its period, when met, accounts for all work due by h. */
  lemma LastJobServed(ts: seq<Task>, log: Log, i: nat, h: nat)
    requires ValidSet(ts) && i < |ts| && 0 < h <= |log| && h % ts[i].period == 0
    requires MeetsDeadlines(ts, log)
    ensures PeriodWork(ts[i], h) <= Work(log, i, h)
  {
    var p := ts[i].period;
    var j := h / p - 1;
    DivBounds(h, p);
    assert 0 < h / p by {
      if h / p <= 0 { MulMono(h / p, 0, p); }
    }
    assert j * p + p == h;
    PeriodWorkClosed(ts[i], h);
    assert JobDeadline(ts[i], j) <= h;
    assert JobMet(ts, log, i, j);
    WorkMono(log, i, JobDeadline(ts[i], j), h);
  }

  /** One processor cannot serve all the work due by a common multiple of the periods of an overloaded set. */
  lemma ServedIsFeasible(ts: seq<Task>, log: Log, h: nat)
    requires ValidSet(ts) && 0 < h <= |log|
    requires CommonMultiple(ts, h)
    requires forall i :: 0 <= i < |ts| ==> PeriodWork(ts[i], h) <= Work(log, i, h)
    ensures Utilization(ts) <= 1.0
  {
    assert WindowDemand(ts, |ts|, h) <= h by {
      AllServed(ts, log, |ts|, h);
      SumWorkAtMost(log, |ts|, h);
    }
    assert WindowDemand(ts, |ts|, h) as real == Times(h, Utilization(ts)) by {
      WindowDemandExact(ts, |ts|, h);
      assert ts[..|ts|] == ts;
    }
    Unscale(WindowDemand(ts, |ts|, h), h, Utilization(ts));
  }

  lemma Unscale(w: nat, h: nat, u: real)
    requires w <= h && h > 0 && w as real == Times(h, u)
    ensures u <= 1.0
  {
    TimesClosed(h, u);
    var x := h as real;
    assert x * u <= x;
    assert x * (u - 1.0) <= 0.0;
  }

  /**
   Necessity: when the utilization exceeds 1, every log that reaches a common
   multiple h of the periods misses a deadline by then, whatever the policy.
   */
  lemma OverloadMisses(ts: seq<Task>, log: Log, h: nat)
    requires ValidSet(ts) && Utilization(ts) > 1.0
    requires 0 < h <= |log|
    requires CommonMultiple(ts, h)
    ensures !MeetsDeadlines(ts, log[..h])
  {
    if MeetsDeadlines(ts, log[..h]) {
      forall i | 0 <= i < |ts|
        ensures PeriodWork(ts[i], h) <= Work(log[..h], i, h)
      {
        LastJobServed(ts, log[..h], i, h);
      }
      ServedIsFeasible(ts, log[..h], h);
    }
  }
}
