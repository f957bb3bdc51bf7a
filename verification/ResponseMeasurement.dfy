/**
 The response times a simulation measures: account_response_times_proc waits in
 turn for the end of a response and for a release, and an event that comes while
 it waits for the other is lost, so a job that ends exactly at the next release
 leaves the job after it unmeasured. The longest response measured is
 nevertheless the one the analysis computes.
 */
module ResponseMeasurement {
  import opened Options
  import opened Arith
  import opened TaskModel
  import opened Schedules
  import opened Kernel
  import opened ResponseTime
  import Guarantees

  /** What the process waits for, last_release_time, max_response_time_var and location_of_max_response_time_var. */
  datatype Probe = Probe(awaitingEnd: bool, lastRelease: nat, longest: nat, location: nat)

  const START := Probe(true, 0, 0, 0)

  /** The process at an instant at which the two events do or do not fire. */
  function Observe(p: Probe, now: nat, ended: bool, released: bool): Probe {
    if p.awaitingEnd then
      if !ended then p
      else if p.lastRelease + p.longest < now then Probe(false, p.lastRelease, now - p.lastRelease, p.lastRelease)
      else p.(awaitingEnd := false)
    else if released then p.(awaitingEnd := true, lastRelease := now)
    else p
  }

  class ResponseProbe {
    var awaitingEnd: bool
    var lastRelease: nat
    var longest: nat
    var location: nat

    function Value(): Probe
      reads this
    {
      Probe(awaitingEnd, lastRelease, longest, location)
    }

    constructor ()
      ensures Value() == START
    {
      awaitingEnd, lastRelease, longest, location := true, 0, 0, 0;
    }

    method OnInstant(now: nat, ended: bool, released: bool)
      requires lastRelease <= now
      modifies this
      ensures Value() == Observe(old(Value()), now, ended, released)
    {
      if awaitingEnd {
        if ended {
          var current := now - lastRelease;
          if current > longest {
            longest := current;
            location := lastRelease;
          }
          awaitingEnd := false;
        }
      } else {
        if released {
          lastRelease := now;
          awaitingEnd := true;
        }
      }
    }
  }

  // Measuring a run -------------------------------------------------------------------------

  /** Jobs finished after w ticks of service. */
  function JobsDone(k: Task, w: nat): nat
    requires ValidTask(k)
  {
    if w < k.wcet then 0 else 1 + JobsDone(k, w - k.wcet)
  }

  lemma {:induction false} JobsDoneIs(k: Task, w: nat, d: nat)
    requires ValidTask(k)
    ensures JobsDone(k, w) == d <==> d * k.wcet <= w < (d + 1) * k.wcet
    decreases w
  {
    AddOne(d, k.wcet);
    if w < k.wcet {
      if 0 < d {
        MulMono(1, d, k.wcet);
      }
    } else if d == 0 {
    } else {
      AddOne(d - 1, k.wcet);
      JobsDoneIs(k, w - k.wcet, d - 1);
    }
  }

  /** The probe of task i once instant t of a log has passed; a job ends when the work received completes it. */
  function Measured(ts: seq<Task>, log: Log, i: nat, t: nat): Probe
    requires ValidSet(ts) && i < |ts| && t <= |log|
  {
    if t == 0 then START
    else Observe(Measured(ts, log, i, t - 1), t, Ends(ts, log, i, t), t % ts[i].period == 0)
  }

  predicate Ends(ts: seq<Task>, log: Log, i: nat, t: nat)
    requires ValidSet(ts) && i < |ts| && 0 < t <= |log|
  {
    JobsDone(ts[i], Work(log, i, t - 1)) < JobsDone(ts[i], Work(log, i, t))
  }

  /** Up to the least response r nothing is measured; from then on r is the longest response, of the first job. */
  ghost predicate MeasureInv(ts: seq<Task>, log: Log, i: nat, r: nat, t: nat, p: Probe)
    requires ValidSet(ts) && i < |ts| && t <= |log|
  {
    && (p.awaitingEnd ==> p.lastRelease == JobsDone(ts[i], Work(log, i, t)) * ts[i].period && p.lastRelease <= t)
    && (if t < r then p == START else p.longest == r && p.location == 0)
  }

  /** A tick finishes at most one job. */
  lemma OneJob(k: Task, w: nat, w': nat)
    requires ValidTask(k) && w <= w' <= w + 1
    ensures JobsDone(k, w) <= JobsDone(k, w') <= JobsDone(k, w) + 1
  {
    var d := JobsDone(k, w);
    JobsDoneIs(k, w, d);
    JobsDoneIs(k, w', d);
    JobsDoneIs(k, w', d + 1);
    AddOne(d, k.wcet);
    AddOne(d + 1, k.wcet);
  }

  lemma WholeQuotient(t: nat, p: nat) returns (q: nat)
    requires 0 < p && 0 < t && t % p == 0
    ensures t == q * p + p && CeilDiv(t, p) == q + 1
  {
    DivBounds(t, p);
    if t / p <= 0 {
      MulMono(t / p, 0, p);
    }
    q := t / p - 1;
    AddOne(q, p);
    CeilDivMultiple(q + 1, p);
  }

  /** A miss-free run has served, at the deadline of job q or later, all jobs up to q. */
  lemma {:induction false} ServedByDeadline(ts: seq<Task>, log: Log, i: nat, q: nat, t: nat)
    requires ValidSet(ts) && i < |ts| && MeetsDeadlines(ts, log) && JobDeadline(ts[i], q) <= t <= |log|
    ensures (q + 1) * ts[i].wcet <= Work(log, i, t)
  {
    assert JobMet(ts, log, i, q);
    WorkMono(log, i, JobDeadline(ts[i], q), t);
  }

  /** At a release of a miss-free run the jobs done are exactly those released before. */
  lemma {:induction false} DoneAtRelease(ts: seq<Task>, log: Log, i: nat, t: nat)
    requires ValidSet(ts) && i < |ts| && 0 < t <= |log| && t % ts[i].period == 0
    requires RunsPending(ts, log) && MeetsDeadlines(ts, log)
    ensures JobsDone(ts[i], Work(log, i, t)) * ts[i].period == t
  {
    var k := ts[i];
    var q := WholeQuotient(t, k.period);
    WorkWithinReleases(ts, log, i, t);
    ArrivedClosed(k, t);
    ServedByDeadline(ts, log, i, q, t);
    AddOne(q, k.period);
    AddOne(q + 1, k.wcet);
    JobsDoneIs(k, Work(log, i, t), q + 1);
  }

  /** A job that ends at t was released no more than r before. */
  lemma {:induction false} EndWithin(ts: seq<Task>, log: Log, i: nat, r: nat, t: nat)
    requires ValidSet(ts) && i < |ts| && 0 < t <= |log| && PriorityLog(ts, log)
    requires Demand(ts, i, r) <= r <= ts[i].period && Ends(ts, log, i, t)
    ensures t <= JobsDone(ts[i], Work(log, i, t - 1)) * ts[i].period + r
  {
    var k, w := ts[i], Work(log, i, t - 1);
    var d := JobsDone(k, w);
    if d * k.period + r < t {
      ResponseBound(ts, log, i, r, d);
      WorkMono(log, i, d * k.period + r, t - 1);
      JobsDoneIs(k, w, d);
    }
  }

  lemma NoneDone(k: Task, w: nat)
    requires ValidTask(k) && w < k.wcet
    ensures JobsDone(k, w) == 0
  {
  }

  lemma SomeDone(k: Task, w: nat)
    requires ValidTask(k) && k.wcet <= w
    ensures 0 < JobsDone(k, w)
  {
  }

  /** No job ends before the tick in which the work first reaches one job's worth, and one ends then. */
  lemma {:induction false} FirstReached(ts: seq<Task>, log: Log, i: nat, r: nat, t: nat)
    requires ValidSet(ts) && i < |ts| && 0 < t <= r <= |log|
    requires Work(log, i, r - 1) < ts[i].wcet <= Work(log, i, r)
    ensures JobsDone(ts[i], Work(log, i, t - 1)) == 0
    ensures Ends(ts, log, i, t) <==> t == r
  {
    WorkMono(log, i, t - 1, r - 1);
    NoneDone(ts[i], Work(log, i, t - 1));
    if t < r {
      WorkMono(log, i, t, r - 1);
      NoneDone(ts[i], Work(log, i, t));
    } else {
      SomeDone(ts[i], Work(log, i, t));
    }
  }

  /** The first job ends exactly at r, and no job before. */
  lemma {:induction false} FirstEnd(ts: seq<Task>, log: Log, i: nat, r: nat, t: nat)
    requires ValidSet(ts) && i < |ts| && PriorityLog(ts, log)
    requires LeastResponse(ts, i, r) && 0 < t <= r <= |log|
    ensures JobsDone(ts[i], Work(log, i, t - 1)) == 0
    ensures Ends(ts, log, i, t) <==> t == r
  {
    LeastResponseAttained(ts, log, i, r);
    FirstReached(ts, log, i, r, t);
  }

  lemma {:induction false} MeasureStep(ts: seq<Task>, log: Log, i: nat, r: nat, t: nat, p: Probe)
    requires ValidSet(ts) && i < |ts| && 0 < t <= |log| && PriorityLog(ts, log) && MeetsDeadlines(ts, log)
    requires LeastResponse(ts, i, r) && r <= |log| && r <= ts[i].period
    requires MeasureInv(ts, log, i, r, t - 1, p)
    ensures MeasureInv(ts, log, i, r, t, Observe(p, t, Ends(ts, log, i, t), t % ts[i].period == 0))
  {
    WorkMono(log, i, t - 1, t);
    OneJob(ts[i], Work(log, i, t - 1), Work(log, i, t));
    if t <= r {
      FirstEnd(ts, log, i, r, t);
    } else if p.awaitingEnd && Ends(ts, log, i, t) {
      EndWithin(ts, log, i, r, t);
    } else if !p.awaitingEnd && t % ts[i].period == 0 {
      DoneAtRelease(ts, log, i, t);
    }
  }

  lemma {:induction false} MeasureHolds(ts: seq<Task>, log: Log, i: nat, r: nat, t: nat)
    requires ValidSet(ts) && i < |ts| && t <= |log| && PriorityLog(ts, log) && MeetsDeadlines(ts, log)
    requires LeastResponse(ts, i, r) && r <= |log| && r <= ts[i].period
    ensures MeasureInv(ts, log, i, r, t, Measured(ts, log, i, t))
  {
    if t == 0 {
      LeastResponseAttained(ts, log, i, r);
      JobsDoneIs(ts[i], 0, 0);
    } else {
      MeasureHolds(ts, log, i, r, t - 1);
      MeasureStep(ts, log, i, r, t, Measured(ts, log, i, t - 1));
    }
  }

  /**
   In every miss-free static-priority run the longest response measured for a task
   is, from the first end of a response on, the least solution of its recurrence,
   and it is that of the first job.
   */
  lemma {:induction false} MeasuredWorstCase(ts: seq<Task>, cs: seq<Config>, i: nat, r: nat)
    requires ValidSet(ts) && IsRun(ts, StaticPriorities, cs) && i < |ts|
    requires MeetsDeadlines(ts, Guarantees.Last(cs).log)
    requires LeastResponse(ts, i, r) && r <= ts[i].period && r <= |Guarantees.Last(cs).log|
    ensures var p := Measured(ts, Guarantees.Last(cs).log, i, |Guarantees.Last(cs).log|);
            p.longest == r && p.location == 0
  {
    Guarantees.PriorityRunLog(ts, cs);
    MeasureHolds(ts, Guarantees.Last(cs).log, i, r, |Guarantees.Last(cs).log|);
  }

  // Measuring any log -----------------------------------------------------------------------

  /** A measurement: a release the process saw and the end it recorded for it. */
  datatype Pair = Pair(release: nat, end: nat)

  function Length(p: Pair): nat {
    if p.release <= p.end then p.end - p.release else 0
  }

  /** The first end of a job after instant r. */
  ghost predicate NextEnd(ts: seq<Task>, log: Log, i: nat, r: nat, e: nat)
    requires ValidSet(ts) && i < |ts|
  {
    r < e <= |log| && Ends(ts, log, i, e) && NoEnd(ts, log, i, r, e - 1)
  }

  /** No job ends in (r, t]. */
  ghost predicate NoEnd(ts: seq<Task>, log: Log, i: nat, r: nat, t: nat)
    requires ValidSet(ts) && i < |ts| && t <= |log|
  {
    forall u :: r < u <= t ==> !Ends(ts, log, i, u)
  }

  /** The first release after instant e. */
  predicate NextReleaseAfter(period: nat, e: nat, r: nat)
    requires 0 < period
  {
    e < r && r % period == 0 && NoRelease(period, e, r - 1)
  }

  /** No release lies in (e, t]. */
  predicate NoRelease(period: nat, e: nat, t: nat)
    requires 0 < period
  {
    forall u :: e < u <= t ==> u % period != 0
  }

  /**
   The measurements made by instant t, and the release last seen: the first is of the
   release at 0, each ends with the first end after its release, and each next one
   starts with the first release after that end.
   */
  ghost predicate MeasuredPairs(ts: seq<Task>, log: Log, i: nat, t: nat, ps: seq<Pair>, pending: Option<nat>)
    requires ValidSet(ts) && i < |ts| && t <= |log|
  {
    && (forall k :: 0 <= k < |ps| ==> NextEnd(ts, log, i, ps[k].release, ps[k].end) && ps[k].end <= t)
    && (forall k :: 0 < k < |ps| ==> NextReleaseAfter(ts[i].period, ps[k - 1].end, ps[k].release))
    && (if ps != [] then ps[0].release == 0 else pending == Some(0))
    && match pending
       case None => ps != [] && NoRelease(ts[i].period, ps[|ps| - 1].end, t)
       case Some(r) =>
         && r <= t && NoEnd(ts, log, i, r, t)
         && (ps != [] ==> NextReleaseAfter(ts[i].period, ps[|ps| - 1].end, r))
  }

  /** longest is the greatest length, and location the release of the first measurement that attains it. */
  ghost predicate FirstLongest(ps: seq<Pair>, longest: nat, location: nat) {
    && (ps == [] ==> longest == 0 && location == 0)
    && (ps != [] ==> exists k :: FirstLongestAt(ps, k) && longest == Length(ps[k]) && location == ps[k].release)
  }

  predicate FirstLongestAt(ps: seq<Pair>, k: int) {
    && 0 <= k < |ps|
    && (forall j :: 0 <= j < |ps| ==> Length(ps[j]) <= Length(ps[k]))
    && (forall j :: 0 <= j < k ==> Length(ps[j]) < Length(ps[k]))
  }

  /** The record kept of all but the last measurement is updated only by a longer one. */
  lemma {:induction false} FirstLongestNext(ps: seq<Pair>, longest: nat, location: nat, p: Pair)
    requires FirstLongest(ps, longest, location) && 0 < Length(p)
    ensures FirstLongest(ps + [p], if longest < Length(p) then Length(p) else longest,
                         if longest < Length(p) then p.release else location)
  {
    var all := ps + [p];
    if ps == [] || longest < Length(p) {
      assert all[|ps|] == p;
      assert FirstLongestAt(all, |ps|);
    } else {
      var k :| FirstLongestAt(ps, k) && longest == Length(ps[k]) && location == ps[k].release;
      assert all[k] == ps[k];
      assert FirstLongestAt(all, k);
    }
  }

  /** The end of the measurement that is under way. */
  lemma {:induction false} PairsEnd(ts: seq<Task>, log: Log, i: nat, t: nat, ps: seq<Pair>, r: nat)
    requires ValidSet(ts) && i < |ts| && 0 < t <= |log| && MeasuredPairs(ts, log, i, t - 1, ps, Some(r))
    requires Ends(ts, log, i, t)
    ensures MeasuredPairs(ts, log, i, t, ps + [Pair(r, t)], None)
  {
    var all := ps + [Pair(r, t)];
    assert NextEnd(ts, log, i, r, t);
    forall k | 0 <= k < |all|
      ensures NextEnd(ts, log, i, all[k].release, all[k].end) && all[k].end <= t
    {
      assert k < |ps| ==> all[k] == ps[k];
    }
    forall k | 0 < k < |all|
      ensures NextReleaseAfter(ts[i].period, all[k - 1].end, all[k].release)
    {
      assert k < |ps| ==> all[k] == ps[k];
    }
  }

  /** Nothing ends, no release is seen, or the awaited release is. */
  lemma {:induction false} PairsWait(ts: seq<Task>, log: Log, i: nat, t: nat, ps: seq<Pair>, pending: Option<nat>)
    requires ValidSet(ts) && i < |ts| && 0 < t <= |log| && MeasuredPairs(ts, log, i, t - 1, ps, pending)
    ensures pending.Some? && !Ends(ts, log, i, t) ==> MeasuredPairs(ts, log, i, t, ps, pending)
    ensures pending.None? && t % ts[i].period != 0 ==> MeasuredPairs(ts, log, i, t, ps, None)
    ensures pending.None? && t % ts[i].period == 0 ==> MeasuredPairs(ts, log, i, t, ps, Some(t))
  {
  }

  /** The process has recorded the longest measurement, and waits for the end of the release pending, if any. */
  ghost predicate Recorded(p: Probe, ps: seq<Pair>, pending: Option<nat>) {
    && FirstLongest(ps, p.longest, p.location)
    && (if p.awaitingEnd then pending == Some(p.lastRelease) else pending == None)
  }

  lemma {:induction false} RecordedEnd(p: Probe, ps: seq<Pair>, r: nat, t: nat, released: bool)
    requires Recorded(p, ps, Some(r)) && r < t
    ensures Recorded(Observe(p, t, true, released), ps + [Pair(r, t)], None)
  {
    FirstLongestNext(ps, p.longest, p.location, Pair(r, t));
  }

  lemma {:induction false} RecordedOther(p: Probe, ps: seq<Pair>, pending: Option<nat>, t: nat,
                                         ended: bool, released: bool)
    requires Recorded(p, ps, pending) && (pending.Some? ==> !ended)
    ensures Recorded(Observe(p, t, ended, released), ps, if pending.None? && released then Some(t) else pending)
  {
  }

  /**
   On every log, of any policy and with any misses, the process records the longest
   of its measurements and where it was first attained.
   */
  lemma {:induction false} MeasuredIs(ts: seq<Task>, log: Log, i: nat, t: nat)
    returns (ps: seq<Pair>, pending: Option<nat>)
    requires ValidSet(ts) && i < |ts| && t <= |log|
    ensures MeasuredPairs(ts, log, i, t, ps, pending)
    ensures Recorded(Measured(ts, log, i, t), ps, pending)
  {
    if t == 0 {
      ps, pending := [], Some(0);
    } else {
      ps, pending := MeasuredIs(ts, log, i, t - 1);
      var p, released := Measured(ts, log, i, t - 1), t % ts[i].period == 0;
      if pending.Some? && Ends(ts, log, i, t) {
        PairsEnd(ts, log, i, t, ps, pending.value);
        RecordedEnd(p, ps, pending.value, t, released);
        ps, pending := ps + [Pair(pending.value, t)], None;
      } else {
        PairsWait(ts, log, i, t, ps, pending);
        RecordedOther(p, ps, pending, t, Ends(ts, log, i, t), released);
        pending := if pending.None? && released then Some(t) else pending;
      }
    }
  }

  /** The measurements are determined by the log: two accounts of them agree as far as both go. */
  lemma {:induction false} PairsAgree(ts: seq<Task>, log: Log, i: nat, t: nat, ps: seq<Pair>, pending: Option<nat>,
                                      qs: seq<Pair>, other: Option<nat>, k: nat)
    requires ValidSet(ts) && i < |ts| && t <= |log|
    requires MeasuredPairs(ts, log, i, t, ps, pending) && MeasuredPairs(ts, log, i, t, qs, other)
    requires k < |ps| && k < |qs|
    ensures ps[k] == qs[k]
  {
    if k == 0 {
    } else {
      PairsAgree(ts, log, i, t, ps, pending, qs, other, k - 1);
      NextReleaseOnce(ts[i].period, ps[k - 1].end, ps[k].release, qs[k].release);
    }
    NextEndOnce(ts, log, i, ps[k].release, ps[k].end, qs[k].end);
  }

  lemma NextReleaseOnce(period: nat, e: nat, r: nat, r': nat)
    requires 0 < period && NextReleaseAfter(period, e, r) && NextReleaseAfter(period, e, r')
    ensures r == r'
  {
  }

  lemma {:induction false} NextEndOnce(ts: seq<Task>, log: Log, i: nat, r: nat, e: nat, e': nat)
    requires ValidSet(ts) && i < |ts| && NextEnd(ts, log, i, r, e) && NextEnd(ts, log, i, r, e')
    ensures e == e'
  {
  }

  /** There is one account of the measurements by t, hence one longest of them. */
  lemma {:induction false} PairsUnique(ts: seq<Task>, log: Log, i: nat, t: nat, ps: seq<Pair>, pending: Option<nat>,
                                       qs: seq<Pair>, other: Option<nat>)
    requires ValidSet(ts) && i < |ts| && t <= |log|
    requires MeasuredPairs(ts, log, i, t, ps, pending) && MeasuredPairs(ts, log, i, t, qs, other)
    ensures ps == qs
  {
    PairsNoLonger(ts, log, i, t, ps, pending, qs, other);
    PairsNoLonger(ts, log, i, t, qs, other, ps, pending);
    forall k | 0 <= k < |ps|
      ensures ps[k] == qs[k]
    {
      PairsAgree(ts, log, i, t, ps, pending, qs, other, k);
    }
  }

  lemma {:induction false} PairsNoLonger(ts: seq<Task>, log: Log, i: nat, t: nat, ps: seq<Pair>, pending: Option<nat>,
                                         qs: seq<Pair>, other: Option<nat>)
    requires ValidSet(ts) && i < |ts| && t <= |log|
    requires MeasuredPairs(ts, log, i, t, ps, pending) && MeasuredPairs(ts, log, i, t, qs, other)
    ensures |ps| <= |qs|
  {
    if |qs| < |ps| {
      var k := |qs|;
      var p := ps[k];
      EndSeen(ts, log, i, p.release, p.end, t);
      if k > 0 {
        PairsAgree(ts, log, i, t, ps, pending, qs, other, k - 1);
        if other.Some? {
          NextReleaseOnce(ts[i].period, qs[k - 1].end, p.release, other.value);
        }
      }
    }
  }

  lemma {:induction false} EndSeen(ts: seq<Task>, log: Log, i: nat, r: nat, e: nat, t: nat)
    requires ValidSet(ts) && i < |ts| && t <= |log| && e <= t && NextEnd(ts, log, i, r, e)
    ensures !NoEnd(ts, log, i, r, t)
  {
  }

  // When every job ends before the next release -----------------------------------------------

  /** Job j of task i ends at instant f. */
  predicate FinishedAt(ts: seq<Task>, log: Log, i: nat, j: nat, f: nat)
    requires i < |ts|
  {
    0 < f <= |log| && Work(log, i, f - 1) < (j + 1) * ts[i].wcet <= Work(log, i, f)
  }

  /** The job, if any, that ends at t ends inside its own period. */
  ghost predicate EndsInPeriod(ts: seq<Task>, log: Log, i: nat, t: nat)
    requires i < |ts|
  {
    forall j: nat :: FinishedAt(ts, log, i, j, t) ==> j * ts[i].period < t < (j + 1) * ts[i].period
  }

  /**
   Every job that has ended by t took no longer than longest, and one of them, released
   at location, took that long.
   */
  ghost predicate LongestOfAll(ts: seq<Task>, log: Log, i: nat, t: nat, longest: nat, location: nat)
    requires ValidSet(ts) && i < |ts| && t <= |log|
  {
    && (forall j: nat, f: nat :: f <= t && FinishedAt(ts, log, i, j, f) ==> f <= j * ts[i].period + longest)
    && (if JobsDone(ts[i], Work(log, i, t)) == 0 then longest == 0
        else exists j: nat, f: nat ::
          f <= t && FinishedAt(ts, log, i, j, f) && f == j * ts[i].period + longest && location == j * ts[i].period)
  }

  /** The probe waits for the end of the current job, or for the next release, which has not come. */
  ghost predicate InStep(ts: seq<Task>, log: Log, i: nat, t: nat, p: Probe)
    requires ValidSet(ts) && i < |ts| && t <= |log|
  {
    var d := JobsDone(ts[i], Work(log, i, t));
    if p.awaitingEnd then p.lastRelease == d * ts[i].period <= t
    else 0 < d && (d - 1) * ts[i].period < t < d * ts[i].period
  }

  lemma {:induction false} EndsIsFinish(ts: seq<Task>, log: Log, i: nat, t: nat)
    requires ValidSet(ts) && i < |ts| && 0 < t <= |log|
    ensures var d := JobsDone(ts[i], Work(log, i, t - 1));
            && (Ends(ts, log, i, t) <==> FinishedAt(ts, log, i, d, t))
            && (Ends(ts, log, i, t) ==> JobsDone(ts[i], Work(log, i, t)) == d + 1)
            && (!Ends(ts, log, i, t) ==> JobsDone(ts[i], Work(log, i, t)) == d)
            && forall j: nat :: FinishedAt(ts, log, i, j, t) ==> j == d
  {
    var k, w, w' := ts[i], Work(log, i, t - 1), Work(log, i, t);
    var d := JobsDone(k, w);
    WorkMono(log, i, t - 1, t);
    OneJob(k, w, w');
    JobsDoneIs(k, w, d);
    JobsDoneIs(k, w', d);
    forall j: nat | FinishedAt(ts, log, i, j, t)
      ensures j == d
    {
      AddOne(j, k.wcet);
      JobsDoneIs(k, w, j);
    }
  }

  lemma {:induction false} InStepNext(ts: seq<Task>, log: Log, i: nat, t: nat, p: Probe)
    requires ValidSet(ts) && i < |ts| && 0 < t <= |log| && InStep(ts, log, i, t - 1, p)
    requires EndsInPeriod(ts, log, i, t)
    ensures InStep(ts, log, i, t, Observe(p, t, Ends(ts, log, i, t), t % ts[i].period == 0))
    ensures Ends(ts, log, i, t) ==> p.awaitingEnd
  {
    var k := ts[i];
    var d := JobsDone(k, Work(log, i, t - 1));
    EndsIsFinish(ts, log, i, t);
    if Ends(ts, log, i, t) {
      assert FinishedAt(ts, log, i, d, t);
    } else if !p.awaitingEnd {
      ReleaseComes(t, k.period, d);
    }
  }

  /** Between two releases only the second can come next. */
  lemma {:induction false} ReleaseComes(t: nat, period: nat, d: nat)
    requires 0 < period && 0 < d && (d - 1) * period < t <= d * period
    ensures t % period == 0 <==> t == d * period
  {
    AddOne(d - 1, period);
    if t % period == 0 {
      OnlyMultiple(t, period, d - 1);
    } else if t == d * period {
      CeilDivMultiple(d, period);
      DivBounds(t, period);
    }
  }

  lemma {:induction false} LongestNext(ts: seq<Task>, log: Log, i: nat, t: nat, p: Probe)
    requires ValidSet(ts) && i < |ts| && 0 < t <= |log| && InStep(ts, log, i, t - 1, p)
    requires EndsInPeriod(ts, log, i, t) && LongestOfAll(ts, log, i, t - 1, p.longest, p.location)
    ensures var q := Observe(p, t, Ends(ts, log, i, t), t % ts[i].period == 0);
            LongestOfAll(ts, log, i, t, q.longest, q.location)
  {
    var d := JobsDone(ts[i], Work(log, i, t - 1));
    var q := Observe(p, t, Ends(ts, log, i, t), t % ts[i].period == 0);
    EndsIsFinish(ts, log, i, t);
    InStepNext(ts, log, i, t, p);
    if Ends(ts, log, i, t) {
      assert FinishedAt(ts, log, i, d, t) && t == d * ts[i].period + (t - p.lastRelease);
    }
    forall j: nat, f: nat | f <= t && FinishedAt(ts, log, i, j, f)
      ensures f <= j * ts[i].period + q.longest
    {
      if f == t {
        assert j == d;
      } else {
        assert f <= j * ts[i].period + p.longest;
      }
    }
  }

  /**
   If every job ends before its next release, the process misses none: on every log it
   records the longest response of all jobs that have ended.
   */
  lemma {:induction false} MeasuresAll(ts: seq<Task>, log: Log, i: nat, t: nat)
    requires ValidSet(ts) && i < |ts| && t <= |log|
    requires forall u :: 0 < u <= t ==> EndsInPeriod(ts, log, i, u)
    ensures var p := Measured(ts, log, i, t);
            InStep(ts, log, i, t, p) && LongestOfAll(ts, log, i, t, p.longest, p.location)
  {
    if t == 0 {
      JobsDoneIs(ts[i], 0, 0);
    } else {
      MeasuresAll(ts, log, i, t - 1);
      InStepNext(ts, log, i, t, Measured(ts, log, i, t - 1));
      LongestNext(ts, log, i, t, Measured(ts, log, i, t - 1));
    }
  }
}
