/**
 Why a scheduler with the deadline monotonic policy sorts its table by deadline:
 if any order of the tasks meets every deadline, so does that one, even where
 deadlines are shorter than periods.
 */
module DeadlineMonotonic {
  import opened Arith
  import opened TaskModel
  import opened Schedules
  import opened Kernel
  import opened Guarantees
  import opened PriorityTable
  import PolicyAnalysis
  import ResponseTime

  lemma {:induction false} InterferencePrefix(ts: seq<Task>, n: nat, m: nat, x: nat)
    requires ValidSet(ts) && n <= m <= |ts|
    ensures ResponseTime.Interference(ts[..m], n, x) == ResponseTime.Interference(ts, n, x)
  {
    if n == 0 {
    } else {
      InterferencePrefix(ts, n - 1, m, x);
    }
  }

  lemma {:induction false} InterferenceRemove(ts: seq<Task>, k: nat, x: nat)
    requires ValidSet(ts) && k < |ts|
    ensures ResponseTime.Interference(ts, |ts|, x) ==
            ResponseTime.Interference(Without(ts, k), |ts| - 1, x) + Arrived(ts[k], x)
  {
    var front := ts[..|ts| - 1];
    InterferencePrefix(ts, |ts| - 1, |ts| - 1, x);
    if k == |ts| - 1 {
      assert Without(ts, k) == front;
    } else {
      InterferenceRemove(front, k, x);
      var rest := Without(ts, k);
      assert rest[..|ts| - 2] == Without(front, k);
      InterferencePrefix(rest, |ts| - 2, |ts| - 2, x);
    }
  }

  /** Where b holds the last task of a, and that what remains of a is still within what remains of b. */
  lemma {:induction false} MatchLast(a: seq<Task>, b: seq<Task>) returns (k: nat)
    requires a != [] && multiset(a) <= multiset(b)
    ensures k < |b| && b[k] == a[|a| - 1]
    ensures multiset(Without(a, |a| - 1)) <= multiset(Without(b, k))
  {
    assert a[|a| - 1] in multiset(a);
    k := Locate(b, a[|a| - 1]);
    WithoutMultiset(a, |a| - 1);
    WithoutMultiset(b, k);
  }

  lemma {:induction false} WithoutValid(ts: seq<Task>, k: nat)
    requires ValidSet(ts) && k < |ts|
    ensures ValidSet(Without(ts, k))
  {
  }

  /** Fewer tasks ask for less, whatever their order. */
  lemma {:induction false} InterferenceSubset(a: seq<Task>, b: seq<Task>, x: nat)
    requires ValidSet(a) && ValidSet(b) && multiset(a) <= multiset(b)
    ensures ResponseTime.Interference(a, |a|, x) <= ResponseTime.Interference(b, |b|, x)
    decreases |a|
  {
    if a == [] {
    } else {
      var last := |a| - 1;
      var k := MatchLast(a, b);
      WithoutValid(a, last);
      WithoutValid(b, k);
      InterferenceSubset(Without(a, last), Without(b, k), x);
      InterferenceRemove(a, last, x);
      InterferenceRemove(b, k, x);
    }
  }

  /** Position j holds a task of s, and the positions up to it hold all of them. */
  ghost predicate CompletedAt(s: seq<Task>, ts: seq<Task>, j: nat) {
    j < |ts| && ts[j] in s && multiset(s) <= multiset(ts[..j + 1])
  }

  /** Where the last of a group of tasks stands in another order. */
  lemma {:induction false} LastOfGroup(s: seq<Task>, ts: seq<Task>, m: nat) returns (j: nat)
    requires s != [] && m <= |ts| && multiset(s) <= multiset(ts[..m])
    ensures CompletedAt(s, ts, j)
  {
    assert s[0] in multiset(s);
    j := m - 1;
    assert ts[..m] == ts[..j] + [ts[j]];
    if multiset(s) <= multiset(ts[..j]) {
      j := LastOfGroup(s, ts, j);
    }
  }

  /** A window that satisfies the last of a group of tasks satisfies any other order of the group. */
  lemma {:induction false} GroupResponds(ts: seq<Task>, k: nat, other: seq<Task>, j: nat, r: nat)
    requires ValidSet(ts) && ValidSet(other) && k < |ts| && CompletedAt(ts[..k + 1], other, j)
    requires ResponseTime.Demand(other, j, r) <= r <= other[j].period
    ensures ResponseTime.Demand(ts, k, r) <= r
  {
    var group, upto := ts[..k + 1], other[..j + 1];
    OneJob(other[j], r);
    InterferencePrefix(other, j + 1, j + 1, r);
    InterferenceSubset(group, upto, r);
    InterferencePrefix(ts, k + 1, k + 1, r);
    AtLeastOneJob(ts[k], r);
  }

  /** A window not longer than the period asks for one job. */
  lemma OneJob(t: Task, r: nat)
    requires ValidTask(t) && 0 < r <= t.period
    ensures Arrived(t, r) == t.wcet
  {
    PeriodWorkClosed(t, r - 1);
    DivUnique(r - 1, t.period, 0);
  }

  lemma AtLeastOneJob(t: Task, r: nat)
    requires ValidTask(t) && 0 < r
    ensures t.wcet <= Arrived(t, r)
  {
  }

  lemma {:induction false} PrefixWithin(ts: seq<Task>, m: nat, other: seq<Task>)
    requires m <= |ts| && multiset(ts) == multiset(other)
    ensures multiset(ts[..m]) <= multiset(other[..|other|])
  {
    assert ts == ts[..m] + ts[m..];
    assert other[..|other|] == other;
  }

  /** In a table sorted by deadline no task at or above position k has a later deadline than the task at k. */
  lemma {:induction false} DeadlineAtMost(es: seq<Entry>, k: nat, t: Task)
    requires ValidEntries(es) && Sorted(ByDeadline, es) && k < |es| && t in Tasks(es)[..k + 1]
    ensures t.deadline <= es[k].task.deadline
  {
    var i :| 0 <= i <= k && Tasks(es)[..k + 1][i] == t;
    assert i < k ==> !Less(ByDeadline, es[k], es[i]);
  }

  lemma {:induction false} ResponsiveAt(es: seq<Entry>, other: seq<Task>, k: nat)
    requires ValidEntries(es) && Sorted(ByDeadline, es) && k < |es| && ValidSet(Tasks(es))
    requires ValidSet(other) && multiset(Tasks(es)) == multiset(other) && PolicyAnalysis.AllResponsive(other)
    ensures ResponseTime.Responsive(Tasks(es), k)
  {
    var ts := Tasks(es);
    PrefixWithin(ts, k + 1, other);
    var j := LastOfGroup(ts[..k + 1], other, |other|);
    assert ResponseTime.Responsive(other, j);
    var r: nat :| r <= other[j].deadline && ResponseTime.Demand(other, j, r) <= r;
    GroupResponds(ts, k, other, j, r);
    DeadlineAtMost(es, k, other[j]);
  }

  /**
   Deadline monotonic order is optimal: if the tasks are responsive in some order,
   they are responsive in every order sorted by deadline.
   */
  lemma {:induction false} DeadlineOrderOptimal(es: seq<Entry>, other: seq<Task>)
    requires ValidEntries(es) && Sorted(ByDeadline, es)
    requires ValidSet(other) && multiset(Tasks(es)) == multiset(other) && PolicyAnalysis.AllResponsive(other)
    ensures PolicyAnalysis.AllResponsive(Tasks(es))
  {
    forall k | 0 <= k < |es|
      ensures ResponseTime.Responsive(Tasks(es), k)
    {
      ResponsiveAt(es, other, k);
    }
  }

  /**
   On runs: once some order of the tasks has kept every deadline past the first
   ones, no run over a table sorted by deadline ever misses.
   */
  lemma {:induction false} DeadlineTableSafe(es: seq<Entry>, other: seq<Task>, ds: seq<Config>, cs: seq<Config>)
    requires ValidEntries(es) && Sorted(ByDeadline, es)
    requires ValidSet(other) && multiset(Tasks(es)) == multiset(other)
    requires IsRun(other, StaticPriorities, ds) && Safe(other, Last(ds))
    requires forall i :: 0 <= i < |other| ==> other[i].deadline <= |Last(ds).log|
    requires IsRun(Tasks(es), StaticPriorities, cs)
    ensures Safe(Tasks(es), Last(cs))
  {
    PolicyAnalysis.AnyTableExact(other, ds);
    DeadlineOrderOptimal(es, other);
    PriorityRunSafe(Tasks(es), cs);
  }
}
