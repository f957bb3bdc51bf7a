/** Static description of the periodic task set assigned to one scheduler, and its workload in closed form. */
module TaskModel {
  import opened Arith

  /** A periodic task as configured before simulation; times in ticks. */
  datatype Task = Task(wcet: nat, period: nat, deadline: nat)

  /** What the analyses demand of a task: positive work and a constrained deadline. */
  predicate ValidTask(k: Task) {
    0 < k.wcet && 0 < k.deadline <= k.period
  }

  predicate ValidSet(ts: seq<Task>) {
    forall i :: 0 <= i < |ts| ==> ValidTask(ts[i])
  }

  /** Deadlines left at their default, the period. */
  predicate ImplicitDeadlines(ts: seq<Task>) {
    forall i :: 0 <= i < |ts| ==> ts[i].deadline == ts[i].period
  }

  /** Rate monotonic order of the priority table: index 0 is the most urgent. */
  predicate RateMonotonic(ts: seq<Task>) {
    forall i, j :: 0 <= i <= j < |ts| ==> ts[i].period <= ts[j].period
  }

  /** Work of the periods that end at or before d: one job at every positive multiple of the period. */
  function PeriodWork(k: Task, d: nat): nat
    requires ValidTask(k)
  {
    if d == 0 then 0 else PeriodWork(k, d - 1) + (if d % k.period == 0 then k.wcet else 0)
  }

  /** Work released at or before t, the first job being released at time 0. */
  function Released(k: Task, t: nat): nat
    requires ValidTask(k)
  {
    PeriodWork(k, t) + k.wcet
  }

  /** Work released strictly before x: what a window of length x that opens with a release can ask for. */
  function Arrived(k: Task, x: nat): nat
    requires ValidTask(k)
  {
    if x == 0 then 0 else Released(k, x - 1)
  }

  lemma {:induction false} PeriodWorkClosed(k: Task, d: nat)
    requires ValidTask(k)
    ensures PeriodWork(k, d) == (d / k.period) * k.wcet
  {
    if d == 0 {
      DivUnique(0, k.period, 0);
    } else {
      PeriodWorkClosed(k, d - 1);
      NextQuotient(d, k.period);
      AddOne((d - 1) / k.period, k.wcet);
    }
  }

  lemma ArrivedClosed(k: Task, x: nat)
    requires ValidTask(k)
    ensures Arrived(k, x) == CeilDiv(x, k.period) * k.wcet
  {
    if x == 0 {
      CeilDivMultiple(0, k.period);
    } else {
      PeriodWorkClosed(k, x - 1);
      CeilDivSucc(x - 1, k.period);
      AddOne((x - 1) / k.period, k.wcet);
    }
  }

  lemma {:induction false} PeriodWorkMono(k: Task, s: nat, t: nat)
    requires ValidTask(k) && s <= t
    ensures PeriodWork(k, s) <= PeriodWork(k, t)
  {
    if s == t {
    } else {
      PeriodWorkMono(k, s, t - 1);
    }
  }

  lemma ArrivedMono(k: Task, s: nat, t: nat)
    requires ValidTask(k) && s <= t
    ensures Arrived(k, s) <= Arrived(k, t)
  {
    if 0 < s {
      PeriodWorkMono(k, s - 1, t - 1);
    }
  }

  /** A window of length y that opens at x asks for no more than one that opens with a release. */
  lemma ArrivedSubadditive(k: Task, x: nat, y: nat)
    requires ValidTask(k)
    ensures Arrived(k, x + y) <= Arrived(k, x) + Arrived(k, y)
  {
    ArrivedClosed(k, x);
    ArrivedClosed(k, y);
    ArrivedClosed(k, x + y);
    CeilDivSubadditive(x, y, k.period);
    ScaleSum(CeilDiv(x, k.period), CeilDiv(y, k.period), CeilDiv(x + y, k.period), k.wcet);
  }

  /** Of the work due by d, what is released after t fits in whole periods of the remaining window. */
  lemma PeriodWorkWindow(k: Task, t: nat, d: nat)
    requires ValidTask(k) && t < d
    ensures PeriodWork(k, d) <= Released(k, t) + PeriodWork(k, d - t - 1)
  {
    var p, c := k.period, k.wcet;
    PeriodWorkClosed(k, t);
    PeriodWorkClosed(k, d);
    PeriodWorkClosed(k, d - t - 1);
    WholePeriods(t, d, p);
    ScaleSum(t / p + 1, (d - t - 1) / p, d / p, c);
    AddOne(t / p, c);
  }

  function TaskUtilization(k: Task): real
    requires ValidTask(k)
  {
    k.wcet as real / k.period as real
  }

  function Utilization(ts: seq<Task>): real
    requires ValidSet(ts)
  {
    if |ts| == 0 then 0.0 else Utilization(ts[..|ts| - 1]) + TaskUtilization(ts[|ts| - 1])
  }

  /** Work of the jobs of ts[..n] that are released and due inside a window of length x. */
  function WindowDemand(ts: seq<Task>, n: nat, x: nat): nat
    requires ValidSet(ts) && n <= |ts|
  {
    if n == 0 then 0 else WindowDemand(ts, n - 1, x) + PeriodWork(ts[n - 1], x)
  }

  /** x ticks at rate u; a recursive product, which keeps the analyses linear. */
  function Times(x: nat, u: real): real {
    if x == 0 then 0.0 else Times(x - 1, u) + u
  }

  lemma {:induction false} TimesClosed(x: nat, u: real)
    ensures Times(x, u) == x as real * u
  {
    if x == 0 {
    } else {
      TimesClosed(x - 1, u);
      assert (x - 1) as real == x as real - 1.0;
    }
  }

  lemma {:induction false} TimesAdd(x: nat, a: real, b: real)
    ensures Times(x, a + b) == Times(x, a) + Times(x, b)
  {
    if x == 0 {
    } else {
      TimesAdd(x - 1, a, b);
    }
  }

  lemma PeriodWorkRate(k: Task, x: nat)
    requires ValidTask(k)
    ensures PeriodWork(k, x) as real <= Times(x, TaskUtilization(k))
    ensures x % k.period == 0 ==> PeriodWork(k, x) as real == Times(x, TaskUtilization(k))
  {
    TimesClosed(x, TaskUtilization(k));
    PeriodWorkClosed(k, x);
    DivBounds(x, k.period);
    RateBound(x / k.period, k.period, k.wcet, x);
  }

  lemma RateBound(q: nat, p: nat, c: nat, x: nat)
    requires 0 < p && q * p <= x
    ensures (q * c) as real <= x as real * (c as real / p as real)
    ensures q * p == x ==> (q * c) as real == x as real * (c as real / p as real)
  {
    RealMul(q, c);
    RealMul(q, p);
    RealRate(q as real, p as real, c as real, x as real);
  }

  lemma RealMul(a: int, b: int)
    ensures (a * b) as real == a as real * b as real
  {
  }

  lemma RealRate(q: real, p: real, c: real, x: real)
    requires 0.0 < p && 0.0 <= c && q * p <= x
    ensures q * c <= x * (c / p)
    ensures q * p == x ==> q * c == x * (c / p)
  {
    var u := c / p;
    assert u * p == c;
    assert q * c == (q * p) * u;
    assert (x - q * p) * u >= 0.0;
  }

  /** Window demand never exceeds the window scaled by the utilization. */
  lemma {:induction false} WindowDemandBound(ts: seq<Task>, n: nat, x: nat)
    requires ValidSet(ts) && n <= |ts|
    ensures WindowDemand(ts, n, x) as real <= Times(x, Utilization(ts[..n]))
  {
    if n == 0 {
      TimesClosed(x, 0.0);
    } else {
      WindowDemandBound(ts, n - 1, x);
      PeriodWorkRate(ts[n - 1], x);
      assert ts[..n][..n - 1] == ts[..n - 1];
      TimesAdd(x, Utilization(ts[..n - 1]), TaskUtilization(ts[n - 1]));
    }
  }

  /** h is a multiple of every period. */
  predicate CommonMultiple(ts: seq<Task>, h: nat)
    requires ValidSet(ts)
  {
    forall k :: k in ts ==> h % k.period == 0
  }

  /** On a common multiple of the periods the bound is exact. */
  lemma {:induction false} WindowDemandExact(ts: seq<Task>, n: nat, h: nat)
    requires ValidSet(ts) && n <= |ts| && CommonMultiple(ts, h)
    ensures WindowDemand(ts, n, h) as real == Times(h, Utilization(ts[..n]))
  {
    if n == 0 {
      TimesClosed(h, 0.0);
    } else {
      WindowDemandExact(ts, n - 1, h);
      assert ts[n - 1] in ts;
      PeriodWorkRate(ts[n - 1], h);
      assert ts[..n][..n - 1] == ts[..n - 1];
      TimesAdd(h, Utilization(ts[..n - 1]), TaskUtilization(ts[n - 1]));
    }
  }
}
