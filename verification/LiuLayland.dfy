/**
 The Liu and Layland utilization test (Liu_and_Layland_bound in
 static_sched_analysis.cpp) and why passing it is safe: under rate monotonic
 priorities every task then has a bounded response, hence no log misses a
 deadline. The route is the hyperbolic bound, reached by the inequality of
 arithmetic and geometric means.
 */
module LiuLayland {
  import opened Arith
  import opened TaskModel
  import opened Schedules
  import opened ResponseTime

  function Pow(x: real, n: nat): real {
    if n == 0 then 1.0 else Pow(x, n - 1) * x
  }

  /** One plus the utilization of a task. */
  function Factor(k: Task): real
    requires ValidTask(k)
  {
    1.0 + TaskUtilization(k)
  }

  /** Product of 1 + u over a task set. */
  function Hyperbolic(ts: seq<Task>): real
    requires ValidSet(ts)
  {
    if |ts| == 0 then 1.0 else Hyperbolic(ts[..|ts| - 1]) * Factor(ts[|ts| - 1])
  }

  /**
   The acceptance condition u < n (2^(1/n) - 1), with the root cleared:
   both sides of 1 + u/n < 2^(1/n) are raised to the power n.
   */
  predicate BoundPasses(u: real, n: nat)
    requires 0 < n
  {
    Pow(1.0 + u / n as real, n) < 2.0
  }

  lemma FactorNonNegative(x: real, y: real)
    requires 0.0 < y && 0.0 <= x * y
    ensures 0.0 <= x
  {
  }

  lemma {:induction false} PowPositive(x: real, n: nat)
    requires 0.0 < x
    ensures 0.0 < Pow(x, n)
  {
    if n == 0 {
    } else {
      PowPositive(x, n - 1);
    }
  }

  lemma Interchange(z: real, p: real, q: real, x: real, y: real)
    requires z == p * q
    ensures z * (x * y) == (p * x) * (q * y)
  {
    assert z * (x * y) == ((p * q) * x) * y;
    assert (p * q) * x == (p * x) * q;
    assert ((p * x) * q) * y == (p * x) * (q * y);
  }

  lemma {:induction false} PowMul(z: real, x: real, y: real, n: nat)
    requires z == x * y
    ensures Pow(z, n) == Pow(x, n) * Pow(y, n)
  {
    if n == 0 {
      assert Pow(x, 0) == 1.0 && Pow(y, 0) == 1.0;
    } else {
      PowMul(z, x, y, n - 1);
      Interchange(Pow(z, n - 1), Pow(x, n - 1), Pow(y, n - 1), x, y);
    }
  }

  lemma {:induction false} Bernoulli(x: real, n: nat)
    requires 0.0 <= x
    ensures 1.0 + n as real * (x - 1.0) <= Pow(x, n)
    ensures 0.0 <= Pow(x, n)
  {
    if n == 0 {
    } else {
      Bernoulli(x, n - 1);
      BernoulliStep(x, (n - 1) as real, Pow(x, n - 1));
      assert n as real == (n - 1) as real + 1.0;
    }
  }

  lemma BernoulliStep(x: real, m: real, p: real)
    requires 0.0 <= x && 0.0 <= m && 0.0 <= p && 1.0 + m * (x - 1.0) <= p
    ensures 1.0 + (m + 1.0) * (x - 1.0) <= p * x && 0.0 <= p * x
  {
    var y := x - 1.0;
    NonNegative(p - (1.0 + m * y), x);
    assert (1.0 + m * y) * (1.0 + y) == 1.0 + (m + 1.0) * y + m * (y * y);
    NonNegative(m, y * y);
  }

  /** Passing the Liu and Layland test implies passing the full-utilization test. */
  lemma BoundImpliesFullUtilization(u: real, n: nat)
    requires 0 < n && 0.0 <= u && BoundPasses(u, n)
    ensures u < 1.0
  {
    var x := 1.0 + u / n as real;
    Bernoulli(x, n);
    assert n as real * (u / n as real) == u;
  }

  /** Replacing n factors m and one factor a by their mean does not decrease the product. */
  lemma MeanStep(m: real, a: real, n: nat, mean: real)
    requires 0.0 < m && 0.0 <= a
    requires mean * (n as real + 1.0) == m * n as real + a
    ensures Pow(m, n) * a <= Pow(mean, n + 1)
  {
    var k := n as real + 1.0;
    NonNegative(m, n as real);
    FactorNonNegative(mean, k);
    var r := mean / m;
    assert r * m == mean;
    FactorNonNegative(r, m);
    Bernoulli(r, n + 1);
    PowMul(mean, r, m, n + 1);
    PowPositive(m, n);
    assert (n + 1) as real == k;
    MeanAlgebra(Pow(m, n), m, a, k, r, Pow(r, n + 1), mean);
  }

  lemma MeanAlgebra(p: real, m: real, a: real, k: real, r: real, q: real, mean: real)
    requires 0.0 <= p && 0.0 < m && r * m == mean && mean * k == m * (k - 1.0) + a
    requires 1.0 + k * (r - 1.0) <= q
    ensures p * a <= q * (p * m)
  {
    var y := 1.0 + k * (r - 1.0);
    assert m * y == m + k * (r * m) - k * m;
    assert m * y == a;
    NonNegative(p, m);
    assert (p * m) * y == p * a;
    NonNegative(p * m, q - y);
  }

  /** The bound n (2^(1/n) - 1) never grows with n: what passes with n + 1 tasks passes with n. */
  lemma BoundNonIncreasing(u: real, n: nat)
    requires 0 < n && 0.0 <= u && BoundPasses(u, n + 1)
    ensures BoundPasses(u, n)
  {
    var m, mean := 1.0 + u / n as real, 1.0 + u / (n + 1) as real;
    assert (n + 1) as real == n as real + 1.0;
    assert u / n as real * n as real == u;
    assert u / (n + 1) as real * (n + 1) as real == u;
    MeanStep(m, 1.0, n, mean);
  }

  lemma {:induction false} UtilizationNonNegative(ts: seq<Task>)
    requires ValidSet(ts)
    ensures 0.0 <= Utilization(ts)
  {
    if |ts| == 0 {
    } else {
      UtilizationNonNegative(ts[..|ts| - 1]);
      TaskUtilizationPositive(ts[|ts| - 1]);
    }
  }

  lemma TaskUtilizationPositive(k: Task)
    requires ValidTask(k)
    ensures 0.0 < TaskUtilization(k)
    ensures TaskUtilization(k) * k.period as real == k.wcet as real
  {
    Ratio(k.wcet as real, k.period as real);
  }

  lemma Ratio(c: real, p: real)
    requires 0.0 < c && 0.0 < p
    ensures 0.0 < c / p && c / p * p == c
  {
  }

  lemma DivideBack(x: real, y: real)
    requires 0.0 < y
    ensures x / y * y == x
  {
  }

  lemma ScaleAtMost(x: real, y: real, z: real)
    requires x <= y && 0.0 <= z
    ensures x * z <= y * z
  {
    NonNegative(y - x, z);
  }

  /** One more task of utilization u: the product grows no faster than the power of the mean. */
  lemma MeanGrows(h: real, front: real, u: real, n: nat)
    requires 0 < n && 0.0 <= front && 0.0 <= u && h <= Pow(1.0 + front / n as real, n)
    ensures h * (1.0 + u) <= Pow(1.0 + (front + u) / (n + 1) as real, n + 1)
  {
    var m, mean := 1.0 + front / n as real, 1.0 + (front + u) / (n + 1) as real;
    DivideBack(front, n as real);
    DivideBack(front + u, (n + 1) as real);
    assert (n + 1) as real == n as real + 1.0;
    MeanStep(m, 1.0 + u, n, mean);
    ScaleAtMost(h, Pow(m, n), 1.0 + u);
  }

  /** Arithmetic and geometric means. */
  lemma {:induction false} HyperbolicAtMostMean(ts: seq<Task>)
    requires ValidSet(ts) && 0 < |ts|
    ensures Hyperbolic(ts) <= Pow(1.0 + Utilization(ts) / |ts| as real, |ts|)
  {
    var n := |ts| - 1;
    var front, u := ts[..n], TaskUtilization(ts[n]);
    TaskUtilizationPositive(ts[n]);
    UtilizationNonNegative(front);
    if n == 0 {
      var mean := 1.0 + Utilization(ts) / 1.0;
      assert Pow(mean, 1) == Pow(mean, 0) * mean;
    } else {
      HyperbolicAtMostMean(front);
      MeanGrows(Hyperbolic(front), Utilization(front), u, n);
    }
  }

  lemma {:induction false} HyperbolicPrefix(ts: seq<Task>, n: nat)
    requires ValidSet(ts) && n <= |ts|
    ensures 1.0 <= Hyperbolic(ts[..n]) <= Hyperbolic(ts)
    decreases |ts|
  {
    if n == |ts| {
      assert ts[..n] == ts;
      if n > 0 {
        HyperbolicPrefix(ts[..n - 1], n - 1);
        assert ts[..n - 1][..n - 1] == ts[..n - 1];
        TaskUtilizationPositive(ts[n - 1]);
        assert Hyperbolic(ts[..n - 1]) * TaskUtilization(ts[n - 1]) >= 0.0;
      }
    } else {
      var front := ts[..|ts| - 1];
      HyperbolicPrefix(front, n);
      assert front[..n] == ts[..n];
      TaskUtilizationPositive(ts[|ts| - 1]);
      assert Hyperbolic(front) * TaskUtilization(ts[|ts| - 1]) >= 0.0;
    }
  }

  // Scheduling points ---------------------------------------------------------

  /**
   An instant t at which a task has completed whole periods, one plus its utilization f, and its work w
   until then.
   */
  datatype Point = Point(t: nat, f: real, w: nat)

  predicate Weighted(p: Point) {
    1.0 <= p.f && p.t as real * p.f == (p.t + p.w) as real
  }

  /** Work of the points strictly before x. */
  function Before(ps: seq<Point>, x: nat): nat {
    if |ps| == 0 then 0
    else Before(ps[..|ps| - 1], x) + (if ps[|ps| - 1].t < x then ps[|ps| - 1].w else 0)
  }

  /** The amount a, grown by the factor of every point. */
  function Grown(ps: seq<Point>, a: real): real {
    if |ps| == 0 then a else Grown(ps[..|ps| - 1], a) * ps[|ps| - 1].f
  }

  function Without(ps: seq<Point>, m: nat): seq<Point>
    requires m < |ps|
  {
    ps[..m] + ps[m + 1..]
  }

  lemma WithoutFront(ps: seq<Point>, m: nat)
    requires m < |ps| - 1
    ensures Without(ps, m)[..|ps| - 2] == Without(ps[..|ps| - 1], m)
    ensures Without(ps, m)[|ps| - 2] == ps[|ps| - 1]
  {
  }

  lemma {:induction false} BeforeWithout(ps: seq<Point>, m: nat, x: nat)
    requires m < |ps|
    ensures Before(ps, x) == Before(Without(ps, m), x) + (if ps[m].t < x then ps[m].w else 0)
    decreases |ps|
  {
    if m == |ps| - 1 {
      assert Without(ps, m) == ps[..m];
    } else {
      BeforeWithout(ps[..|ps| - 1], m, x);
      WithoutFront(ps, m);
    }
  }

  predicate IsProduct(z: real, x: real, y: real) {
    z == x * y
  }

  lemma {:induction false} GrownWithout(ps: seq<Point>, m: nat, a: real)
    requires m < |ps|
    ensures IsProduct(Grown(ps, a), Grown(Without(ps, m), a), ps[m].f)
    decreases |ps|
  {
    if m == |ps| - 1 {
      assert Without(ps, m) == ps[..m];
    } else {
      GrownWithout(ps[..|ps| - 1], m, a);
      WithoutFront(ps, m);
      Swap(Grown(Without(ps[..|ps| - 1], m), a), ps[m].f, ps[|ps| - 1].f);
    }
  }

  lemma Swap(x: real, y: real, z: real)
    ensures (x * y) * z == (x * z) * y
  {
  }

  lemma {:induction false} LatestPoint(ps: seq<Point>) returns (m: nat)
    requires 0 < |ps|
    ensures m < |ps| && forall j :: 0 <= j < |ps| ==> ps[j].t <= ps[m].t
  {
    if |ps| == 1 {
      m := 0;
    } else {
      m := LatestPoint(ps[..|ps| - 1]);
      if ps[m].t < ps[|ps| - 1].t {
        m := |ps| - 1;
      }
    }
  }

  /** Every point lies within a plus the work before it. */
  ghost predicate Chained(ps: seq<Point>, a: nat) {
    forall j :: 0 <= j < |ps| ==> ps[j].t <= a + Before(ps, ps[j].t)
  }

  lemma ChainedWithout(ps: seq<Point>, m: nat, a: nat)
    requires m < |ps| && Chained(ps, a)
    requires forall j :: 0 <= j < |ps| ==> ps[j].t <= ps[m].t
    ensures Chained(Without(ps, m), a)
  {
    var rest := Without(ps, m);
    forall j | 0 <= j < |rest|
      ensures rest[j].t <= a + Before(rest, rest[j].t)
    {
      var k := if j < m then j else j + 1;
      assert rest[j] == ps[k];
      BeforeWithout(ps, m, ps[k].t);
    }
  }

  /** The work of chained points grows at most geometrically. */
  lemma {:induction false} GeometricGrowth(ps: seq<Point>, a: nat, x: nat)
    requires Chained(ps, a) && forall p :: p in ps ==> Weighted(p)
    ensures (a + Before(ps, x)) as real <= Grown(ps, a as real)
    decreases |ps|
  {
    if |ps| == 0 {
    } else {
      var m := LatestPoint(ps);
      var rest := Without(ps, m);
      ChainedWithout(ps, m, a);
      GeometricGrowth(rest, a, x);
      GeometricGrowth(rest, a, ps[m].t);
      assert ps[m] in ps;
      GrowByLatest(ps, m, a, x);
    }
  }

  lemma GrowByLatest(ps: seq<Point>, m: nat, a: nat, x: nat)
    requires m < |ps| && Weighted(ps[m]) && ps[m].t <= a + Before(ps, ps[m].t)
    requires (a + Before(Without(ps, m), x)) as real <= Grown(Without(ps, m), a as real)
    requires (a + Before(Without(ps, m), ps[m].t)) as real <= Grown(Without(ps, m), a as real)
    ensures (a + Before(ps, x)) as real <= Grown(ps, a as real)
  {
    BeforeWithout(ps, m, x);
    BeforeWithout(ps, m, ps[m].t);
    GrownWithout(ps, m, a as real);
    GrowNumbers(ps[m], x, a, Before(ps, x), Before(Without(ps, m), x), Before(Without(ps, m), ps[m].t),
                Grown(Without(ps, m), a as real), Grown(ps, a as real));
  }

  lemma GrowNumbers(p: Point, x: nat, a: nat, work: nat, rest: nat, older: nat, g: real, g': real)
    requires Weighted(p) && p.t <= a + older && work == rest + (if p.t < x then p.w else 0)
    requires (a + rest) as real <= g && (a + older) as real <= g && IsProduct(g', g, p.f)
    ensures (a + work) as real <= g'
  {
    GrowOnce(p, g, g');
  }

  lemma GrowOnce(p: Point, g: real, g': real)
    requires Weighted(p) && p.t as real <= g && g' == g * p.f
    ensures g + p.w as real <= g' && g <= g'
  {
    NonNegative(g - p.t as real, p.f - 1.0);
    NonNegative(g, p.f - 1.0);
  }

  // The hyperbolic bound --------------------------------------------------------

  /** Point p is the last whole period of task k within x and bounds what k asks for in shorter windows. */
  ghost predicate Fits(p: Point, k: Task, x: nat)
    requires ValidTask(k)
  {
    && Weighted(p) && p.f == Factor(k) && p.t <= x
    && forall y: nat :: y <= x ==> Arrived(k, y) <= 2 * p.w && (y <= p.t ==> Arrived(k, y) <= p.w)
  }

  lemma LastPeriod(k: Task, x: nat) returns (p: Point)
    requires ValidTask(k) && k.period <= x
    ensures Fits(p, k, x)
  {
    var m := x / k.period;
    DivBounds(x, k.period);
    DivMono(k.period, x, k.period);
    CeilDivMultiple(1, k.period);
    PeriodWorkClosed(k, x);
    MulMono(1, m, k.wcet);
    p := Point(m * k.period, Factor(k), m * k.wcet);
    PointWeighted(k, m);
    forall y: nat | y <= x
      ensures Arrived(k, y) <= 2 * p.w
      ensures y <= p.t ==> Arrived(k, y) <= p.w
    {
      ArrivedMono(k, y, x);
      PeriodWorkMono(k, x - 1, x);
      if y <= p.t {
        ArrivedMono(k, y, p.t);
        ArrivedClosed(k, p.t);
        CeilDivMultiple(m, k.period);
      }
    }
  }

  lemma PointWeighted(k: Task, m: nat)
    requires ValidTask(k)
    ensures Weighted(Point(m * k.period, Factor(k), m * k.wcet))
  {
    TaskUtilizationPositive(k);
    RealMul(m, k.period);
    RealMul(m, k.wcet);
    Reassociate(m as real, k.period as real, TaskUtilization(k));
  }

  lemma Reassociate(q: real, p: real, u: real)
    ensures (q * p) * (1.0 + u) == q * p + q * (u * p)
  {
  }

  lemma {:induction false} LastPeriods(ts: seq<Task>, n: nat, x: nat) returns (ps: seq<Point>)
    requires ValidSet(ts) && n <= |ts|
    requires forall j :: 0 <= j < n ==> ts[j].period <= x
    ensures |ps| == n && forall j :: 0 <= j < n ==> Fits(ps[j], ts[j], x)
  {
    if n == 0 {
      ps := [];
    } else {
      ps := LastPeriods(ts, n - 1, x);
      var p := LastPeriod(ts[n - 1], x);
      ps := ps + [p];
    }
  }

  /** Product of 1 + u over a task set, scaled by a. */
  function HyperbolicScaled(ts: seq<Task>, n: nat, a: real): real
    requires ValidSet(ts) && n <= |ts|
  {
    if n == 0 then a else HyperbolicScaled(ts, n - 1, a) * Factor(ts[n - 1])
  }

  lemma {:induction false} GrownIsHyperbolic(ts: seq<Task>, ps: seq<Point>, a: real)
    requires ValidSet(ts) && |ps| <= |ts|
    requires forall j :: 0 <= j < |ps| ==> ps[j].f == Factor(ts[j])
    ensures Grown(ps, a) == HyperbolicScaled(ts, |ps|, a)
  {
    if |ps| == 0 {
    } else {
      GrownIsHyperbolic(ts, ps[..|ps| - 1], a);
    }
  }

  lemma {:induction false} HyperbolicScale(ts: seq<Task>, n: nat, a: real)
    requires ValidSet(ts) && n <= |ts|
    ensures HyperbolicScaled(ts, n, a) == a * Hyperbolic(ts[..n])
  {
    if n == 0 {
    } else {
      HyperbolicScale(ts, n - 1, a);
      assert ts[..n][..n - 1] == ts[..n - 1];
      Associate(HyperbolicScaled(ts, n - 1, a), a, Hyperbolic(ts[..n - 1]), Factor(ts[n - 1]));
    }
  }

  lemma Associate(g: real, a: real, h: real, f: real)
    requires g == a * h
    ensures g * f == a * (h * f)
  {
  }

  /** Until its last whole period a task asks for that period's work, afterwards for at most twice as much. */
  lemma {:induction false} InterferenceByPoints(ts: seq<Task>, ps: seq<Point>, x: nat, y: nat)
    requires ValidSet(ts) && |ps| <= |ts| && y <= x
    requires forall j :: 0 <= j < |ps| ==> Fits(ps[j], ts[j], x)
    ensures Interference(ts, |ps|, y) <= Before(ps, x + 1) + Before(ps, y)
  {
    if |ps| == 0 {
    } else {
      InterferenceByPoints(ts, ps[..|ps| - 1], x, y);
      assert Fits(ps[|ps| - 1], ts[|ps| - 1], x);
    }
  }

  lemma {:induction false} BeforeMono(ps: seq<Point>, x: nat, y: nat)
    requires x <= y
    ensures Before(ps, x) <= Before(ps, y)
  {
    if |ps| == 0 {
    } else {
      BeforeMono(ps[..|ps| - 1], x, y);
    }
  }

  /** Without a response within its period x, task i finds its points chained and their work beyond the period. */
  lemma UnresponsiveChained(ts: seq<Task>, i: nat, ps: seq<Point>, a: nat)
    requires ValidSet(ts) && i < |ts| && |ps| == i
    requires forall j :: 0 <= j < i ==> Fits(ps[j], ts[j], ts[i].period)
    requires forall y: nat :: y <= ts[i].period ==> y < Demand(ts, i, y)
    requires a == ts[i].wcet + Before(ps, ts[i].period + 1)
    ensures Chained(ps, a) && ts[i].period < a + Before(ps, ts[i].period + 1)
  {
    var x := ts[i].period;
    forall j | 0 <= j < |ps|
      ensures ps[j].t <= a + Before(ps, ps[j].t)
    {
      InterferenceByPoints(ts, ps, x, ps[j].t);
      assert ps[j].t < Demand(ts, i, ps[j].t);
    }
    InterferenceByPoints(ts, ps, x, x);
    assert x < Demand(ts, i, x);
    BeforeMono(ps, x, x + 1);
  }

  lemma UnresponsiveGrowth(ts: seq<Task>, i: nat) returns (a: nat)
    requires ValidSet(ts) && RateMonotonic(ts) && i < |ts|
    requires forall y: nat :: y <= ts[i].period ==> y < Demand(ts, i, y)
    ensures ts[i].wcet <= a && ts[i].period < 2 * a - ts[i].wcet
    ensures (2 * a - ts[i].wcet) as real <= HyperbolicScaled(ts, i, a as real)
  {
    var ps := LastPeriods(ts, i, ts[i].period);
    a := ts[i].wcet + Before(ps, ts[i].period + 1);
    UnresponsiveChained(ts, i, ps, a);
    GeometricGrowth(ps, a, ts[i].period + 1);
    GrownIsHyperbolic(ts, ps, a as real);
  }

  /** Hyperbolic bound: if the product of 1 + u down to task i is at most 2, task i has a response within its period. */
  lemma HyperbolicResponsive(ts: seq<Task>, i: nat)
    requires ValidSet(ts) && ImplicitDeadlines(ts) && RateMonotonic(ts)
    requires i < |ts| && Hyperbolic(ts[..i + 1]) <= 2.0
    ensures Responsive(ts, i)
  {
    if forall y: nat :: y <= ts[i].period ==> y < Demand(ts, i, y) {
      var a := UnresponsiveGrowth(ts, i);
      UnresponsiveProduct(ts, i, a);
    }
  }

  lemma UnresponsiveProduct(ts: seq<Task>, i: nat, a: nat)
    requires ValidSet(ts) && i < |ts|
    requires ts[i].wcet <= a && ts[i].period < 2 * a - ts[i].wcet
    requires (2 * a - ts[i].wcet) as real <= HyperbolicScaled(ts, i, a as real)
    ensures 2.0 < Hyperbolic(ts[..i + 1])
  {
    assert ts[..i + 1][..i] == ts[..i];
    HyperbolicScale(ts, i, a as real);
    TooMuchFor(ts[i], a as real, Hyperbolic(ts[..i]), HyperbolicScaled(ts, i, a as real), Hyperbolic(ts[..i + 1]));
  }

  lemma TooMuchFor(k: Task, a: real, p: real, g: real, h: real)
    requires ValidTask(k) && k.wcet as real <= a
    requires k.period as real < 2.0 * a - k.wcet as real <= g
    requires g == a * p && h == p * Factor(k)
    ensures 2.0 < h
  {
    TaskUtilizationPositive(k);
    TooMuch(a, k.wcet as real, k.period as real, TaskUtilization(k), Factor(k), p, g, h);
  }

  /** Demand beyond the period x contradicts a product of at most 2. */
  lemma TooMuch(a: real, c: real, x: real, u: real, f: real, p: real, g: real, h: real)
    requires h == p * f && 0.0 < c <= a && 0.0 < u && c == u * x && 0.0 < x && f == 1.0 + u
    requires x < 2.0 * a - c <= g && g == a * p
    ensures 2.0 < h
  {
    assert x * f == x + c;
    if p < 2.0 {
      var d, e := 2.0 - p, 2.0 * a - x * f;
      assert a * d == 2.0 * a - g;
      Strict(e, d);
      assert e * d == 2.0 * (a * d) - x * (f * d);
      assert x * (f * d) == 2.0 * (x * f) - x * (p * f);
      StrictFactor(p * f - 2.0, x);
    } else {
      NonNegative(p - 2.0, u);
    }
  }

  lemma Strict(x: real, y: real)
    requires 0.0 < x && 0.0 < y
    ensures 0.0 < x * y
  {
  }

  lemma StrictFactor(x: real, y: real)
    requires 0.0 < y && 0.0 < x * y
    ensures 0.0 < x
  {
  }

  /** A rate monotonic set that passes the check has a response within its period for every task. */
  lemma BoundResponsive(ts: seq<Task>)
    requires ValidSet(ts) && ImplicitDeadlines(ts) && RateMonotonic(ts) && 0 < |ts|
    requires BoundPasses(Utilization(ts), |ts|)
    ensures forall i :: 0 <= i < |ts| ==> Responsive(ts, i)
  {
    HyperbolicAtMostMean(ts);
    forall i | 0 <= i < |ts|
      ensures Responsive(ts, i)
    {
      HyperbolicPrefix(ts, i + 1);
      HyperbolicResponsive(ts, i);
    }
  }
}
