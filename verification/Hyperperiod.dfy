/**
 Greatest common divisor, least common multiple and hyperperiod of auxiliar.hpp
 and taskset_by_name_t.cpp, over unsigned 64-bit periods in nanoseconds.
 */
module Hyperperiod {
  import opened Options
  import opened Arith
  import opened TaskModel

  const WORD: nat := 0x1_0000_0000_0000_0000

  /** Arithmetic of unsigned long long. */
  function Wrap(x: nat): (r: nat)
    ensures r < WORD
    ensures x < WORD <==> r == x
  {
    x % WORD
  }

  /** d divides x; 0 divides only 0. */
  predicate Divides(d: nat, x: int) {
    if d == 0 then x == 0 else x % d == 0
  }

  lemma Quotient(d: nat, x: int) returns (k: int)
    requires Divides(d, x)
    ensures x == d * k
  {
    k := if d == 0 then 0 else x / d;
  }

  lemma Multiple(d: nat, k: int)
    ensures Divides(d, d * k)
  {
    if d > 0 {
      DivUnique(d * k, d, k);
      assert d * k == (d * k / d) * d + (d * k) % d;
    }
  }

  /** A common divisor divides every linear combination. */
  lemma Combination(d: nat, x: int, y: int, a: int, b: int)
    requires Divides(d, x) && Divides(d, y)
    ensures Divides(d, a * x + b * y)
  {
    var p := Quotient(d, x);
    var q := Quotient(d, y);
    var k := a * p + b * q;
    assert a * x == d * (a * p) && b * y == d * (b * q);
    assert d * k == d * (a * p) + d * (b * q);
    Multiple(d, k);
  }

  lemma DividesAtMost(d: nat, x: nat)
    requires Divides(d, x) && 0 < x
    ensures 0 < d <= x
  {
    var k := Quotient(d, x);
    if 1 <= k {
      MulMono(1, k, d);
    } else {
      MulMono(k, 0, d);
    }
  }

  lemma DividesTrans(c: nat, d: nat, x: int)
    requires Divides(c, d) && Divides(d, x)
    ensures Divides(c, x)
  {
    var k := Quotient(d, x);
    Combination(c, d, d, k, 0);
    assert k * d + 0 * d == x;
  }

  // Greatest common divisor -----------------------------------------------------------

  function Gcd(m: nat, n: nat): (g: nat)
    ensures g == 0 <==> m == 0 && n == 0
    decreases m
  {
    if m == 0 then n else Gcd(n % m, m)
  }

  /** The remainder step keeps the common divisors. */
  lemma RemainderDivides(d: nat, m: nat, n: nat)
    requires 0 < m && Divides(d, m)
    ensures Divides(d, n % m) <==> Divides(d, n)
  {
    var q := n / m;
    assert n == q * m + n % m;
    if Divides(d, n % m) {
      Combination(d, m, n % m, q, 1);
    }
    if Divides(d, n) {
      Combination(d, m, n, -q, 1);
      assert -q * m + 1 * n == n % m;
    }
  }

  /** The divisors of the result are exactly the common divisors: it is the greatest of them. */
  lemma {:induction false} GcdDivisors(m: nat, n: nat, d: nat)
    ensures Divides(d, Gcd(m, n)) <==> Divides(d, m) && Divides(d, n)
    decreases m
  {
    if m == 0 {
      Multiple(d, 0);
    } else {
      GcdDivisors(n % m, m, d);
      if Divides(d, m) {
        RemainderDivides(d, m, n);
      }
    }
  }

  lemma {:induction false} Bezout(m: nat, n: nat) returns (a: int, b: int)
    ensures Gcd(m, n) == a * m + b * n
    decreases m
  {
    if m == 0 {
      a, b := 0, 1;
    } else {
      var q := n / m;
      var u, v := Bezout(n % m, m);
      a, b := v - u * q, u;
      assert n % m == n - q * m;
      Rearrange(u, v, q, m, n);
    }
  }

  lemma Rearrange(u: int, v: int, q: int, m: int, n: int)
    ensures u * (n - q * m) + v * m == (v - u * q) * m + u * n
  {
  }

  /** gcd2 as coded: a loop of remainders. */
  method Gcd2(m0: nat, n0: nat) returns (n: nat)
    ensures n == Gcd(m0, n0)
    ensures forall d: nat :: Divides(d, n) <==> Divides(d, m0) && Divides(d, n0)
  {
    var m: nat := m0;
    n := n0;
    while m != 0
      invariant Gcd(m, n) == Gcd(m0, n0)
      decreases m
    {
      var tmp: nat := m;
      m := n % m;
      n := tmp;
    }
    forall d: nat
      ensures Divides(d, n) <==> Divides(d, m0) && Divides(d, n0)
    {
      GcdDivisors(m0, n0, d);
    }
  }

  // Least common multiple of two --------------------------------------------------------

  function Lcm(m: nat, n: nat): nat {
    if m == 0 || n == 0 then 0 else n / Gcd(m, n) * m
  }

  lemma GcdParts(m: nat, n: nat)
    requires 0 < m && 0 < n
    ensures 0 < Gcd(m, n)
    ensures m / Gcd(m, n) * Gcd(m, n) == m && n / Gcd(m, n) * Gcd(m, n) == n
    ensures 0 < m / Gcd(m, n) && 0 < n / Gcd(m, n)
  {
    var g := Gcd(m, n);
    Multiple(g, 1);
    GcdDivisors(m, n, g);
    DivBounds(m, g);
    DivBounds(n, g);
  }

  /** Either operand may be divided first. */
  lemma LcmSwap(m: nat, n: nat)
    requires 0 < m && 0 < n
    ensures Lcm(m, n) == m / Gcd(m, n) * n
    ensures 0 < Lcm(m, n)
  {
    GcdParts(m, n);
    var g := Gcd(m, n);
    Product(m / g, n / g, g, m, n);
  }

  lemma Product(a: int, b: int, g: int, m: int, n: int)
    requires m == a * g && n == b * g && 0 < b && 0 < m
    ensures b * m == a * n && 0 < b * m
  {
    assert b * m == b * (a * g) == a * (b * g);
  }

  lemma LcmDivided(m: nat, n: nat)
    requires 0 < m && 0 < n
    ensures Divides(m, Lcm(m, n)) && Divides(n, Lcm(m, n))
  {
    LcmSwap(m, n);
    ProductDivided(n / Gcd(m, n), m, Lcm(m, n));
    ProductDivided(m / Gcd(m, n), n, Lcm(m, n));
  }

  lemma ProductDivided(k: int, d: nat, x: int)
    requires x == k * d
    ensures Divides(d, x)
  {
    Multiple(d, k);
  }

  lemma CommonMultipleDivided(m: nat, n: nat, x: int)
    requires 0 < m && 0 < n && Divides(m, x) && Divides(n, x)
    ensures Divides(Lcm(m, n), x)
  {
    var g := Gcd(m, n);
    GcdParts(m, n);
    var p := Quotient(m, x);
    var q := Quotient(n, x);
    var a, b := Bezout(m, n);
    CommonMultiple2(m, n, g, n / g, x, p, q, a, b);
    Multiple(Lcm(m, n), a * q + b * p);
  }

  /** The multiples of the result are exactly the common multiples. */
  lemma LcmMultiples(m: nat, n: nat, x: int)
    requires 0 < m && 0 < n
    ensures Divides(Lcm(m, n), x) <==> Divides(m, x) && Divides(n, x)
  {
    if Divides(Lcm(m, n), x) {
      LcmDivided(m, n);
      DividesTrans(m, Lcm(m, n), x);
      DividesTrans(n, Lcm(m, n), x);
    }
    if Divides(m, x) && Divides(n, x) {
      CommonMultipleDivided(m, n, x);
    }
  }

  /** With g = a m + b n, n = n' g and x = p m = q n: x = (n' m) (a q + b p). */
  lemma CommonMultiple2(m: int, n: int, g: int, n': int, x: int, p: int, q: int, a: int, b: int)
    requires 0 < g && g == a * m + b * n && n == n' * g && x == m * p && x == n * q
    ensures x == n' * m * (a * q + b * p)
  {
    var y := a * q + b * p;
    calc {
      x * g;
      x * (a * m) + x * (b * n);
      { assert x * (a * m) == (n * q) * (a * m) == (n * m) * (a * q);
        assert x * (b * n) == (m * p) * (b * n) == (n * m) * (b * p); }
      (n * m) * (a * q) + (n * m) * (b * p);
      (n * m) * y;
      ((n' * g) * m) * y;
      { Reorder(n', g, m, y); }
      (n' * m * y) * g;
    }
    Cancel(x, n' * m * y, g);
  }

  lemma Reorder(a: int, g: int, m: int, y: int)
    ensures ((a * g) * m) * y == (a * m * y) * g
  {
    assert (a * g) * m == (a * m) * g;
    var k := a * m;
    assert (k * g) * y == (k * y) * g;
  }

  lemma Cancel(x: int, y: int, g: int)
    requires 0 < g && x * g == y * g
    ensures x == y
  {
    if x < y {
      MulMono(x + 1, y, g);
      AddOne(x, g);
    } else if y < x {
      MulMono(y + 1, x, g);
      AddOne(y, g);
    }
  }

  /**
   lcm2 as coded: the larger operand is divided first and the product wraps at 64
   bits. Two zeros divide by zero, which yields None.
   */
  method Lcm2(m: nat, n: nat) returns (r: Option<nat>)
    requires m < WORD && n < WORD
    ensures r == None <==> m == 0 && n == 0
    ensures r.Some? ==> r.value == Wrap(Lcm(m, n))
  {
    var g := Gcd2(m, n);
    if g == 0 {
      return None;
    }
    if m == 0 || n == 0 {
      DivUnique(g, g, 1);
    } else {
      LcmSwap(m, n);
    }
    if m > n {
      var tmp := m / g;
      return Some(Wrap(tmp * n));
    } else {
      var tmp := n / g;
      return Some(Wrap(tmp * m));
    }
  }

  // Least common multiple of a list --------------------------------------------------------

  predicate Positive(ns: seq<nat>) {
    forall k :: 0 <= k < |ns| ==> 0 < ns[k]
  }

  function LcmAll(ns: seq<nat>): nat {
    if ns == [] then 1 else Lcm(LcmAll(ns[..|ns| - 1]), ns[|ns| - 1])
  }

  predicate DividedByAll(ns: seq<nat>, x: int) {
    forall k :: 0 <= k < |ns| ==> Divides(ns[k], x)
  }

  /** The multiples of the fold are exactly the common multiples of the list. */
  lemma {:induction false} LcmAllMultiples(ns: seq<nat>, x: int)
    requires Positive(ns)
    ensures 0 < LcmAll(ns)
    ensures Divides(LcmAll(ns), x) <==> DividedByAll(ns, x)
  {
    if ns == [] {
      assert x % 1 == 0;
    } else {
      var front, n := ns[..|ns| - 1], ns[|ns| - 1];
      LcmAllMultiples(front, x);
      LcmSwap(LcmAll(front), n);
      LcmMultiples(LcmAll(front), n, x);
      assert DividedByAll(front, x) && Divides(n, x) ==> DividedByAll(ns, x);
    }
  }

  /** Order and repetition do not matter. */
  lemma LcmAllUnordered(ns: seq<nat>, ns': seq<nat>)
    requires Positive(ns) && Positive(ns') && forall n :: n in ns <==> n in ns'
    ensures LcmAll(ns) == LcmAll(ns')
  {
    var h, h' := LcmAll(ns), LcmAll(ns');
    LcmAllMultiples(ns, h);
    LcmAllMultiples(ns, h');
    LcmAllMultiples(ns', h);
    LcmAllMultiples(ns', h');
    SameMultiples(ns, ns', h);
    SameMultiples(ns, ns', h');
    Multiple(h, 1);
    Multiple(h', 1);
    DividesAtMost(h, h');
    DividesAtMost(h', h);
  }

  lemma SameMultiples(ns: seq<nat>, ns': seq<nat>, x: int)
    requires forall n :: n in ns <==> n in ns'
    ensures DividedByAll(ns, x) <==> DividedByAll(ns', x)
  {
    assert forall k :: 0 <= k < |ns| ==> ns[k] in ns';
    assert forall k :: 0 <= k < |ns'| ==> ns'[k] in ns;
  }

  /** The multiple of a prefix never exceeds that of the whole list. */
  lemma LcmAllPrefix(ns: seq<nat>, k: nat)
    requires Positive(ns) && k <= |ns|
    ensures 0 < LcmAll(ns[..k]) <= LcmAll(ns)
  {
    var h := LcmAll(ns);
    LcmAllMultiples(ns, h);
    Multiple(h, 1);
    LcmAllMultiples(ns[..k], h);
    DividesAtMost(LcmAll(ns[..k]), h);
  }

  lemma LcmOne(n: nat)
    requires 0 < n
    ensures Lcm(1, n) == n
  {
    assert Gcd(1, n) == Gcd(n % 1, 1);
    assert n % 1 == 0;
    assert Gcd(0, 1) == 1;
  }

  lemma LcmAllOne(ns: seq<nat>)
    requires |ns| == 1 && 0 < ns[0]
    ensures LcmAll(ns) == ns[0]
  {
    assert LcmAll(ns[..0]) == 1;
    LcmOne(ns[0]);
  }

  lemma LcmAllTwo(ns: seq<nat>)
    requires |ns| == 2 && 0 < ns[0]
    ensures LcmAll(ns) == Lcm(ns[0], ns[1])
  {
    var a := LcmAll(ns[..1]);
    assert a == ns[0] by {
      LcmAllOne(ns[..1]);
    }
    assert LcmAll(ns) == Lcm(a, ns[1]);
  }

  /** One more element of a list whose least common multiple fits. */
  lemma LcmAllNext(ns: seq<nat>, i: nat, r: nat)
    requires Positive(ns) && i < |ns|
    requires LcmAll(ns) < WORD ==> r == LcmAll(ns[..i])
    ensures LcmAll(ns) < WORD ==> Wrap(Lcm(r, ns[i])) == LcmAll(ns[..i + 1])
  {
    assert ns[..i + 1][..i] == ns[..i];
    LcmAllPrefix(ns, i + 1);
  }

  /** lcm as coded: the result is right exactly when the least common multiple fits in a word. */
  method LcmOfList(ns: seq<nat>) returns (r: Option<nat>)
    requires Positive(ns) && forall k :: 0 <= k < |ns| ==> ns[k] < WORD
    ensures r == None <==> ns == []
    ensures ns != [] ==> (r.value == LcmAll(ns) <==> LcmAll(ns) < WORD)
  {
    if |ns| == 0 {
      return None;
    } else if |ns| == 1 {
      LcmAllOne(ns);
      return Some(ns[0]);
    } else {
      r := Lcm2(ns[0], ns[1]);
      LcmAllTwo(ns[..2]);
      LcmAllPrefix(ns, 2);
      var i := 2;
      while i < |ns|
        invariant 2 <= i <= |ns| && r.Some? && r.value < WORD
        invariant LcmAll(ns) < WORD ==> r.value == LcmAll(ns[..i])
      {
        LcmAllNext(ns, i, r.value);
        r := Lcm2(r.value, ns[i]);
        i := i + 1;
      }
      assert ns[..i] == ns;
    }
  }

  // Hyperperiod of a task set -----------------------------------------------------------------

  function Periods(ts: seq<Task>): (ps: seq<nat>)
    ensures |ps| == |ts| && forall k :: 0 <= k < |ts| ==> ps[k] == ts[k].period
  {
    seq(|ts|, k requires 0 <= k < |ts| => ts[k].period)
  }

  /** get_hyperperiod: the periods are collected by insertion at the front. */
  method GetHyperperiod(ts: seq<Task>) returns (r: Option<nat>)
    requires ValidSet(ts) && forall k :: 0 <= k < |ts| ==> ts[k].period < WORD
    ensures r == None <==> ts == []
    ensures ts != [] ==> (r.value == LcmAll(Periods(ts)) <==> LcmAll(Periods(ts)) < WORD)
  {
    var ps: seq<nat> := [];
    var i := 0;
    while i < |ts|
      invariant i <= |ts| == |ts| && |ps| == i
      invariant forall k :: 0 <= k < i ==> ps[i - 1 - k] == ts[k].period
    {
      ps := [ts[i].period] + ps;
      i := i + 1;
    }
    forall n
      ensures n in ps <==> n in Periods(ts)
    {
      if n in ps {
        var k :| 0 <= k < |ps| && ps[k] == n;
        assert Periods(ts)[i - 1 - k] == n;
      }
      if n in Periods(ts) {
        var k :| 0 <= k < |ts| && Periods(ts)[k] == n;
        assert ps[i - 1 - k] == n;
      }
    }
    assert forall k :: 0 <= k < |ps| ==> ps[k] == ts[i - 1 - k].period;
    LcmAllUnordered(ps, Periods(ts));
    r := LcmOfList(ps);
  }

  /** The joint release pattern repeats after x: a task is released at t + x exactly if it is at t. */
  ghost predicate Repeats(ts: seq<Task>, x: nat)
    requires ValidSet(ts)
  {
    forall k: nat, t: nat :: k < |ts| ==> (Divides(ts[k].period, t + x) <==> Divides(ts[k].period, t))
  }

  /** It repeats exactly with the multiples of the hyperperiod, so with no shorter time. */
  lemma HyperperiodExact(ts: seq<Task>, x: nat)
    requires ValidSet(ts)
    ensures Repeats(ts, x) <==> Divides(LcmAll(Periods(ts)), x)
    ensures CommonMultiple(ts, x) <==> Divides(LcmAll(Periods(ts)), x)
  {
    var ps := Periods(ts);
    LcmAllMultiples(ps, x);
    if Repeats(ts, x) {
      forall k: nat | k < |ps|
        ensures Divides(ps[k], x)
      {
        Multiple(ts[k].period, 0);
        assert Divides(ts[k].period, 0 + x) <==> Divides(ts[k].period, 0);
      }
    }
    if DividedByAll(ps, x) {
      forall k: nat, t: nat | k < |ts|
        ensures Divides(ts[k].period, t + x) <==> Divides(ts[k].period, t)
      {
        assert Divides(ps[k], x);
        Shift(ts[k].period, t, x);
      }
    }
    CommonMultipleIs(ts, x);
  }

  lemma Shift(d: nat, t: nat, x: nat)
    requires Divides(d, x)
    ensures Divides(d, t + x) <==> Divides(d, t)
  {
    if Divides(d, t) {
      Combination(d, t, x, 1, 1);
    }
    if Divides(d, t + x) {
      Combination(d, t + x, x, 1, -1);
    }
  }

  lemma CommonMultipleIs(ts: seq<Task>, x: nat)
    requires ValidSet(ts)
    ensures CommonMultiple(ts, x) <==> DividedByAll(Periods(ts), x)
  {
    var ps := Periods(ts);
    if CommonMultiple(ts, x) {
      forall k | 0 <= k < |ps|
        ensures Divides(ps[k], x)
      {
        assert ts[k] in ts;
      }
    }
    if DividedByAll(ps, x) {
      forall k | k in ts
        ensures x % k.period == 0
      {
        var i :| 0 <= i < |ts| && ts[i] == k;
        assert Divides(ps[i], x);
      }
    }
  }
}
