/**
 The priority table a scheduler builds at the end of elaboration: the task map
 copied into a vector and sorted by one of four orders. The sort itself is
 foreign; its contract is a permutation in which no later task is less than an
 earlier one, ties in any order.
 */
module PriorityTable {
  import opened TaskModel
  import opened Kernel
  import opened Guarantees
  import LiuLayland
  import StaticAnalysis

  datatype Order = UserPriorities | ByPeriod | ByDeadline | ByDensity

  /** A task with its user priority, 1 being the most urgent. */
  datatype Entry = Entry(task: Task, priority: nat)

  function Density(k: Task): real
    requires ValidTask(k)
  {
    k.wcet as real / k.deadline as real
  }

  predicate Less(o: Order, a: Entry, b: Entry)
    requires ValidTask(a.task) && ValidTask(b.task)
  {
    match o
    case UserPriorities => a.priority < b.priority
    case ByPeriod => a.task.period < b.task.period
    case ByDeadline => a.task.deadline < b.task.deadline
    case ByDensity => Density(a.task) > Density(b.task)
  }

  predicate ValidEntries(es: seq<Entry>) {
    forall k :: 0 <= k < |es| ==> ValidTask(es[k].task)
  }

  ghost predicate Sorted(o: Order, es: seq<Entry>)
    requires ValidEntries(es)
  {
    forall i, j :: 0 <= i < j < |es| ==> !Less(o, es[j], es[i])
  }

  function Tasks(es: seq<Entry>): (ts: seq<Task>)
    ensures |ts| == |es| && forall k :: 0 <= k < |es| ==> ts[k] == es[k].task
  {
    seq(|es|, k requires 0 <= k < |es| => es[k].task)
  }

  /** Every order the sort is given is a strict weak order, as the sort demands. */
  lemma StrictWeakOrder(o: Order, a: Entry, b: Entry, c: Entry)
    requires ValidTask(a.task) && ValidTask(b.task) && ValidTask(c.task)
    ensures !Less(o, a, a)
    ensures Less(o, a, b) && Less(o, b, c) ==> Less(o, a, c)
    ensures !Less(o, a, b) && !Less(o, b, c) ==> !Less(o, a, c)
  {
  }

  /**
   A table sorted by period is rate monotonic, and so is one sorted by deadline
   when deadlines equal periods. Rate monotonic tables are sorted by period.
   */
  lemma {:induction false} SortedIsRateMonotonic(o: Order, es: seq<Entry>)
    requires ValidEntries(es) && (o.ByPeriod? || (o.ByDeadline? && ImplicitDeadlines(Tasks(es))))
    ensures Sorted(o, es) <==> RateMonotonic(Tasks(es))
  {
    var ts := Tasks(es);
    if Sorted(o, es) {
      forall i, j | 0 <= i <= j < |ts|
        ensures ts[i].period <= ts[j].period
      {
        assert i < j ==> !Less(o, es[j], es[i]);
      }
    }
    if RateMonotonic(ts) {
      forall i, j | 0 <= i < j < |es|
        ensures !Less(o, es[j], es[i])
      {
        assert ts[i].period <= ts[j].period;
      }
    }
  }

  // What a sorted table is ---------------------------------------------------------------

  lemma {:induction false} SortedByPriority(es: seq<Entry>)
    requires ValidEntries(es)
    ensures Sorted(UserPriorities, es) <==> forall i, j :: 0 <= i < j < |es| ==> es[i].priority <= es[j].priority
  {
    if Sorted(UserPriorities, es) {
      forall i, j | 0 <= i < j < |es|
        ensures es[i].priority <= es[j].priority
      {
        assert !Less(UserPriorities, es[j], es[i]);
      }
    }
  }

  lemma {:induction false} SortedByDeadline(es: seq<Entry>)
    requires ValidEntries(es)
    ensures Sorted(ByDeadline, es) <==>
            forall i, j :: 0 <= i < j < |es| ==> es[i].task.deadline <= es[j].task.deadline
  {
    if Sorted(ByDeadline, es) {
      forall i, j | 0 <= i < j < |es|
        ensures es[i].task.deadline <= es[j].task.deadline
      {
        assert !Less(ByDeadline, es[j], es[i]);
      }
    }
  }

  /** The work of a per tick of its deadline is at least that of b. */
  predicate AtLeastAsDense(a: Task, b: Task) {
    b.wcet * a.deadline <= a.wcet * b.deadline
  }

  lemma CrossProducts(a: Entry, b: Entry)
    requires ValidTask(a.task) && ValidTask(b.task)
    ensures Less(ByDensity, b, a) <==> !AtLeastAsDense(a.task, b.task)
  {
    Quotients(a.task.wcet as real, a.task.deadline as real, b.task.wcet as real, b.task.deadline as real);
    RealMul(b.task.wcet, a.task.deadline);
    RealMul(a.task.wcet, b.task.deadline);
  }

  lemma Quotients(c: real, d: real, c': real, d': real)
    requires 0.0 < d && 0.0 < d'
    ensures c' / d' > c / d <==> c' * d > c * d'
  {
    var q, q' := c / d, c' / d';
    assert c == q * d && c' == q' * d';
    assert c' * d - c * d' == (q' - q) * (d * d');
    assert 0.0 < d * d';
    StaticAnalysis.Sign(q' - q, d * d');
  }

  /** Density order in whole numbers: no later task has more work per tick of its deadline. */
  lemma {:induction false} SortedByDensity(es: seq<Entry>)
    requires ValidEntries(es)
    ensures Sorted(ByDensity, es) <==>
            forall i, j :: 0 <= i < j < |es| ==> AtLeastAsDense(es[i].task, es[j].task)
  {
    forall i, j | 0 <= i < j < |es|
      ensures Less(ByDensity, es[j], es[i]) <==> !AtLeastAsDense(es[i].task, es[j].task)
    {
      CrossProducts(es[i], es[j]);
    }
  }

  // What the order of the map does not influence ---------------------------------------

  function Without(ts: seq<Task>, k: nat): seq<Task>
    requires k < |ts|
  {
    ts[..k] + ts[k + 1..]
  }

  lemma {:induction false} UtilizationRemove(ts: seq<Task>, k: nat)
    requires ValidSet(ts) && k < |ts|
    ensures Utilization(ts) == Utilization(Without(ts, k)) + TaskUtilization(ts[k])
  {
    var front := ts[..|ts| - 1];
    if k == |ts| - 1 {
      assert Without(ts, k) == front;
    } else {
      UtilizationRemove(front, k);
      assert Without(ts, k)[..|ts| - 2] == Without(front, k);
    }
  }

  lemma WithoutMultiset(ts: seq<Task>, k: nat)
    requires k < |ts|
    ensures multiset(Without(ts, k)) == multiset(ts) - multiset{ts[k]}
  {
    assert ts == ts[..k] + [ts[k]] + ts[k + 1..];
  }

  lemma Locate(ts: seq<Task>, x: Task) returns (k: nat)
    requires x in multiset(ts)
    ensures k < |ts| && ts[k] == x
  {
    k :| k < |ts| && ts[k] == x;
  }

  /** Utilization does not depend on the order of the tasks. */
  lemma {:induction false} UtilizationUnordered(ts: seq<Task>, ts': seq<Task>)
    requires ValidSet(ts) && ValidSet(ts') && multiset(ts) == multiset(ts')
    ensures Utilization(ts) == Utilization(ts')
    decreases |ts'|
  {
    if ts' == [] {
      assert |multiset(ts)| == 0;
    } else {
      var last := |ts'| - 1;
      assert ts'[last] in multiset(ts');
      var k := Locate(ts, ts'[last]);
      WithoutMultiset(ts, k);
      WithoutMultiset(ts', last);
      UtilizationUnordered(Without(ts, k), Without(ts', last));
      UtilizationRemove(ts, k);
      UtilizationRemove(ts', last);
    }
  }

  lemma SameProperties(ts: seq<Task>, table: seq<Task>)
    requires multiset(ts) == multiset(table)
    ensures |ts| == |table|
    ensures ValidSet(ts) ==> ValidSet(table)
    ensures ImplicitDeadlines(ts) ==> ImplicitDeadlines(table)
  {
    assert |multiset(ts)| == |multiset(table)|;
    forall k | 0 <= k < |table|
      ensures exists j :: 0 <= j < |ts| && ts[j] == table[k]
    {
      assert table[k] in multiset(ts);
    }
  }

  /**
   The Liu and Layland check runs over the task map; the kernel runs over the
   sorted table. Whatever way the sort breaks ties, a map that passes the check
   gives runs without misses.
   */
  lemma {:induction false} LiuLaylandTable(ts: seq<Task>, es: seq<Entry>, cs: seq<Config>)
    requires ValidSet(ts) && ImplicitDeadlines(ts) && 0 < |ts|
    requires ValidEntries(es) && multiset(Tasks(es)) == multiset(ts) && Sorted(ByPeriod, es)
    requires LiuLayland.BoundPasses(Utilization(ts), |ts|)
    requires IsRun(Tasks(es), StaticPriorities, cs)
    ensures Safe(Tasks(es), Last(cs))
  {
    var table := Tasks(es);
    SameProperties(ts, table);
    UtilizationUnordered(ts, table);
    SortedIsRateMonotonic(ByPeriod, es);
    StaticAnalysis.LiuLaylandVerdict(table, cs);
  }
}
