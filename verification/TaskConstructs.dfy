/**
 The task side of the protocol: consume, which gathers exactly the requested
 processor time under any pattern of preemptions, and wait_period, which keeps
 the deadline of the current job.
 */
module TaskConstructs {
  import opened Arith

  // consume ------------------------------------------------------------------------

  /** The scheduler holds the active signal high during [from, to). */
  datatype Grant = Grant(from: nat, to: nat)

  predicate Ordered(gs: seq<Grant>) {
    && (forall k :: 0 <= k < |gs| ==> gs[k].from <= gs[k].to)
    && (forall k :: 0 <= k < |gs| - 1 ==> gs[k].to <= gs[k + 1].from)
  }

  function Min(a: nat, b: nat): nat {
    if a <= b then a else b
  }

  /** Time a grant has lasted by time t. */
  function Lasted(g: Grant, t: nat): nat {
    if g.from <= Min(g.to, t) then Min(g.to, t) - g.from else 0
  }

  /** Processor time held under the grants by time t. */
  function HeldBy(gs: seq<Grant>, t: nat): nat {
    if gs == [] then 0 else HeldBy(gs[..|gs| - 1], t) + Lasted(gs[|gs| - 1], t)
  }

  lemma {:induction false} HeldMono(gs: seq<Grant>, s: nat, t: nat)
    requires s <= t
    ensures HeldBy(gs, s) <= HeldBy(gs, t)
  {
    if gs == [] {
    } else {
      HeldMono(gs[..|gs| - 1], s, t);
    }
  }

  /** Grants that start at or after t add nothing by time t. */
  lemma {:induction false} HeldByFuture(gs: seq<Grant>, k: nat, t: nat)
    requires k <= |gs| && forall j :: k <= j < |gs| ==> t <= gs[j].from
    ensures HeldBy(gs, t) == HeldBy(gs[..k], t)
  {
    if k < |gs| {
      var front := gs[..|gs| - 1];
      assert front[..k] == gs[..k];
      HeldByFuture(front, k, t);
    } else {
      assert gs[..k] == gs;
    }
  }

  /** Grants that ended by t hold the same at any later time. */
  lemma {:induction false} HeldByPast(gs: seq<Grant>, s: nat, t: nat)
    requires s <= t && forall j :: 0 <= j < |gs| ==> gs[j].to <= s
    ensures HeldBy(gs, s) == HeldBy(gs, t)
  {
    if gs == [] {
    } else {
      HeldByPast(gs[..|gs| - 1], s, t);
    }
  }

  lemma {:induction false} OrderedEnds(gs: seq<Grant>, k: nat)
    requires Ordered(gs) && k < |gs|
    ensures forall j :: 0 <= j < k ==> gs[j].to <= gs[k].from
    ensures forall j :: k < j < |gs| ==> gs[k].to <= gs[j].from
  {
    forall j | 0 <= j < k
      ensures gs[j].to <= gs[k].from
    {
      Chain(gs, j, k);
    }
    forall j | k < j < |gs|
      ensures gs[k].to <= gs[j].from
    {
      Chain(gs, k, j);
    }
  }

  lemma {:induction false} Chain(gs: seq<Grant>, j: nat, k: nat)
    requires Ordered(gs) && j < k < |gs|
    ensures gs[j].to <= gs[k].from
  {
    if j + 1 < k {
      Chain(gs, j, k - 1);
    }
  }

  /** At a time inside grant k the held time is that of the grants before it plus the part of k elapsed. */
  lemma HeldInside(gs: seq<Grant>, k: nat, s: nat, t: nat)
    requires Ordered(gs) && k < |gs| && gs[k].from <= s <= gs[k].to && gs[k].from <= t <= gs[k].to
    ensures HeldBy(gs, s) - HeldBy(gs, t) == s - t
  {
    OrderedEnds(gs, k);
    HeldByFuture(gs, k + 1, s);
    HeldByFuture(gs, k + 1, t);
    assert gs[..k + 1][..k] == gs[..k];
    HeldByPast(gs[..k], gs[k].from, s);
    HeldByPast(gs[..k], gs[k].from, t);
  }

  /** Nothing is held between two consecutive grants. */
  lemma HeldBetween(gs: seq<Grant>, k: nat, t: nat)
    requires Ordered(gs) && k < |gs| && t <= gs[k].from && (0 < k ==> gs[k - 1].to <= t)
    ensures HeldBy(gs, t) == HeldBy(gs, gs[k].from)
  {
    OrderedEnds(gs, k);
    if 0 < k {
      OrderedEnds(gs, k - 1);
    }
    HeldByFuture(gs, k, t);
    HeldByFuture(gs, k, gs[k].from);
    HeldByPast(gs[..k], t, gs[k].from);
  }

  class Computation {
    var left: nat
    var consuming: bool
    var finished: bool

    constructor ()
      ensures left == 0 && !consuming && !finished
    {
      left, consuming, finished := 0, false, false;
    }

    /**
     consume(c) called at time now, with the grants the scheduler gives from then
     on. It returns at `end`, the first instant at which the task has held the
     processor for exactly c; if the grants fall short, the rest is still to do.
     */
    method Consume(c: nat, now: nat, preemptive: bool, gs: seq<Grant>) returns (done: bool, end: nat)
      requires Ordered(gs) && forall k :: 0 <= k < |gs| ==> now <= gs[k].from
      modifies this
      ensures done ==> finished && !consuming
      ensures preemptive && done ==> left == 0 && HeldBy(gs, end) == c
      ensures preemptive && done ==> forall t: nat :: t < end && 0 < c ==> HeldBy(gs, t) < c
      ensures preemptive && !done ==> !finished && consuming && end == (if gs == [] then now else gs[|gs| - 1].to)
      ensures preemptive && !done ==> left + HeldBy(gs, end) == c && (gs != [] ==> 0 < left)
      ensures preemptive && (forall k :: 0 <= k < |gs| ==> gs[k].from < gs[k].to) && c <= |gs| && 0 < |gs| ==> done
      ensures preemptive && done && c == 0 ==> gs != [] && end == gs[0].from
      ensures !preemptive ==> done && end == now + c && left == c
    {
      left := c;
      finished := false;
      if preemptive {
        done, end := false, now;
        consuming := true;
        var k := 0;
        HeldByFuture(gs, 0, now);
        while k < |gs|
          invariant k <= |gs| && !finished && consuming && !done
          invariant end == (if k == 0 then now else gs[k - 1].to)
          invariant left + HeldBy(gs, end) == c
          invariant 0 < k ==> 0 < left
          invariant (forall j :: 0 <= j < |gs| ==> gs[j].from < gs[j].to) ==> k + left <= c
        {
          HeldBetween(gs, k, end);
          var start := gs[k].from;
          end := start + Min(left, gs[k].to - gs[k].from);
          HeldInside(gs, k, end, start);
          consuming := false;
          var consumed := end - start;
          if left > consumed {
            left := left - consumed;
          } else {
            left := 0;
            done, finished := true, true;
            forall t: nat | t < end && 0 < c
              ensures HeldBy(gs, t) < c
            {
              if start <= t {
                HeldInside(gs, k, end, t);
              } else {
                HeldMono(gs, t, start);
              }
            }
            return;
          }
          consuming := true;
          k := k + 1;
        }
      } else {
        consuming := true;
        done, end := true, now + c;
        consuming := false;
        finished := true;
      }
    }
  }

  // wait_period --------------------------------------------------------------------

  /** The first release event at or after now; events fire at the positive multiples of the period. */
  function NextRelease(now: nat, period: nat): (r: nat)
    requires 0 < period
    ensures now <= r && 0 < r
  {
    if now <= period then period else period + NextRelease(now - period, period)
  }

  lemma {:induction false} NextReleaseClosed(now: nat, period: nat)
    requires 0 < period
    ensures NextRelease(now, period) == (if now == 0 then period else CeilDiv(now, period) * period)
  {
    if now == 0 {
    } else if now <= period {
      DivUnique(now + period - 1, period, 1);
    } else {
      NextReleaseClosed(now - period, period);
      var q := CeilDiv(now - period, period);
      DivBounds(now - 1, period);
      AddOne(q, period);
      DivUnique(now + period - 1, period, q + 1);
    }
  }

  /** Release of job k, the k-th multiple of the period. */
  function ReleaseOf(period: nat, k: nat): nat {
    if k == 0 then 0 else ReleaseOf(period, k - 1) + period
  }

  lemma {:induction false} ReleaseOfClosed(period: nat, k: nat)
    ensures ReleaseOf(period, k) == k * period
  {
    if k == 0 {
    } else {
      ReleaseOfClosed(period, k - 1);
      AddOne(k - 1, period);
    }
  }

  /** Absolute deadline of job k. */
  function DueOf(deadline: nat, period: nat, k: nat): nat {
    deadline + ReleaseOf(period, k)
  }

  /** Job k called wait_period after its deadline. */
  predicate Late(deadline: nat, period: nat, calls: seq<nat>, k: nat)
    requires k < |calls|
  {
    calls[k] > DueOf(deadline, period, k)
  }

  /** When the call of job k at time now returns: at once if it is late, at the next release event otherwise. */
  function Resume(deadline: nat, period: nat, k: nat, now: nat): nat
    requires 0 < period
  {
    if now > DueOf(deadline, period, k) then now else NextRelease(now, period)
  }

  class PeriodicTask {
    const period: nat
    const deadline: nat
    /** current_absolute_deadline, miss_deadline_flag and waiting_period_signal. */
    var due: nat
    var missed: bool
    var waiting: bool
    /** Times of the wait_period calls so far. */
    ghost var calls: seq<nat>

    ghost predicate Valid()
      reads this
    {
      && 0 < period && 0 < deadline && !waiting
      && due == DueOf(deadline, period, |calls|)
      && (missed <==> exists j :: 0 <= j < |calls| && Late(deadline, period, calls, j))
    }

    /** set_Period and set_Deadline before the simulation; 0 stands for a deadline left unset. */
    constructor (period: nat, deadline: nat)
      requires 0 < period
      ensures Valid() && this.period == period && calls == []
      ensures this.deadline == if deadline == 0 then period else deadline
    {
      this.period := period;
      this.deadline := if deadline == 0 then period else deadline;
      due := if deadline == 0 then period else deadline;
      missed, waiting, calls := false, false, [];
    }

    /**
     The deadline tracked at the k-th call is D + k P, and the flag tells whether some call so far came
     after its own.
     */
    method WaitPeriod(now: nat) returns (resume: nat)
      requires Valid()
      modifies this
      ensures Valid() && calls == old(calls) + [now]
      ensures resume == Resume(deadline, period, |old(calls)|, now)
    {
      ghost var before := calls;
      calls := calls + [now];
      assert forall j :: 0 <= j < |before| ==> Late(deadline, period, calls, j) == Late(deadline, period, before, j);
      assert Late(deadline, period, calls, |before|) <==> now > due;
      if now > due {
        missed := true;
        resume := now;
      } else {
        waiting := true;
        resume := NextRelease(now, period);
      }
      due := due + period;
      waiting := false;
    }
  }

  // Start times ----------------------------------------------------------------------

  /** Start of job k: the return of the call that ended the job before. */
  function Start(deadline: nat, period: nat, calls: seq<nat>, k: nat): nat
    requires 0 < period && k <= |calls|
  {
    if k == 0 then 0 else Resume(deadline, period, k - 1, calls[k - 1])
  }

  /** Job k takes at least one tick from its start to its wait_period call. */
  predicate Works(deadline: nat, period: nat, calls: seq<nat>, k: nat)
    requires 0 < period && k < |calls|
  {
    Start(deadline, period, calls, k) < calls[k]
  }

  ghost predicate PositiveWork(deadline: nat, period: nat, calls: seq<nat>)
    requires 0 < period
  {
    forall k :: 0 <= k < |calls| ==> Works(deadline, period, calls, k)
  }

  lemma {:induction false} NextReleaseWithin(now: nat, period: nat, k: nat)
    requires 0 < period && ReleaseOf(period, k) < now <= ReleaseOf(period, k + 1)
    ensures NextRelease(now, period) == ReleaseOf(period, k + 1)
  {
    if k == 0 {
    } else {
      NextReleaseWithin(now - period, period, k - 1);
    }
  }

  /** Job k calls wait_period late but before the next release: it resumes too early. */
  predicate InGap(deadline: nat, period: nat, calls: seq<nat>, k: nat)
    requires k < |calls|
  {
    Late(deadline, period, calls, k) && calls[k] < ReleaseOf(period, k + 1)
  }

  /** A job starts early exactly when the call of the job before fell into the gap. */
  lemma EarlyExactly(deadline: nat, period: nat, calls: seq<nat>, k: nat)
    requires 0 < deadline && 0 < period && k < |calls| && ReleaseOf(period, k) < calls[k]
    ensures Start(deadline, period, calls, k + 1) < ReleaseOf(period, k + 1) <==> InGap(deadline, period, calls, k)
  {
    if !Late(deadline, period, calls, k) {
      if calls[k] <= ReleaseOf(period, k + 1) {
        NextReleaseWithin(calls[k], period, k);
      }
    }
  }

  /** Job k does not start before its release. */
  predicate OnTime(deadline: nat, period: nat, calls: seq<nat>, k: nat)
    requires 0 < period && k <= |calls|
  {
    ReleaseOf(period, k) <= Start(deadline, period, calls, k)
  }

  lemma OnTimeNext(deadline: nat, period: nat, calls: seq<nat>, k: nat)
    requires 0 < deadline && 0 < period && k < |calls| && PositiveWork(deadline, period, calls)
    requires OnTime(deadline, period, calls, k)
    ensures OnTime(deadline, period, calls, k + 1) <==> !InGap(deadline, period, calls, k)
  {
    assert Works(deadline, period, calls, k);
    EarlyExactly(deadline, period, calls, k);
  }

  /** No job starts before its release if and only if no call falls between a deadline and the following release. */
  lemma {:induction false} StartsExactly(deadline: nat, period: nat, calls: seq<nat>, n: nat)
    requires 0 < deadline && 0 < period && n <= |calls| && PositiveWork(deadline, period, calls)
    ensures (forall k :: 0 <= k <= n ==> OnTime(deadline, period, calls, k)) <==>
            (forall k :: 0 <= k < n ==> !InGap(deadline, period, calls, k))
  {
    if n == 0 {
      assert OnTime(deadline, period, calls, 0);
    } else {
      StartsExactly(deadline, period, calls, n - 1);
      if OnTime(deadline, period, calls, n - 1) {
        OnTimeNext(deadline, period, calls, n - 1);
      }
    }
  }

  /**
   With the deadline equal to the period, job n starts exactly at its release or
   at the end of the job before, whichever is later, and never before its
   release, whatever the chain of misses.
   */
  lemma {:induction false} NeverEarly(period: nat, calls: seq<nat>, n: nat)
    requires 0 < period && n <= |calls| && PositiveWork(period, period, calls)
    ensures OnTime(period, period, calls, n)
    ensures 0 < n ==> Start(period, period, calls, n) ==
                      (if ReleaseOf(period, n) < calls[n - 1] then calls[n - 1] else ReleaseOf(period, n))
  {
    if n == 0 {
    } else {
      NeverEarly(period, calls, n - 1);
      OnTimeNext(period, period, calls, n - 1);
      assert Works(period, period, calls, n - 1);
      StartFormula(period, calls, n - 1);
    }
  }

  lemma StartFormula(period: nat, calls: seq<nat>, k: nat)
    requires 0 < period && k < |calls| && ReleaseOf(period, k) < calls[k]
    ensures Start(period, period, calls, k + 1) ==
            (if ReleaseOf(period, k + 1) < calls[k] then calls[k] else ReleaseOf(period, k + 1))
  {
    if calls[k] <= ReleaseOf(period, k + 1) {
      NextReleaseWithin(calls[k], period, k);
    }
  }

  /** A deadline of 3 in a period of 10: a first job that ends at 5 lets the second start at 5, and the third at 10. */
  lemma EarlyStart(calls: seq<nat>)
    requires calls == [5, 7]
    ensures PositiveWork(3, 10, calls)
    ensures Start(3, 10, calls, 1) == 5 < 10 && Start(3, 10, calls, 2) == 10 < 20
  {
    NextReleaseWithin(7, 10, 0);
  }
}
