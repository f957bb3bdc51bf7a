/** Integer division facts shared by the analyses. */
module Arith {

  /** Smallest integer not below a / b. */
  function CeilDiv(a: nat, b: nat): nat
    requires 0 < b
  {
    (a + b - 1) / b
  }

  lemma DivUnique(a: int, b: int, q: int)
    requires 0 < b && q * b <= a < (q + 1) * b
    ensures a / b == q
  {
    var p := a / b;
    assert p * b <= a < (p + 1) * b;
    if p < q {
      MulMono(p + 1, q, b);
    } else if q < p {
      MulMono(q + 1, p, b);
    }
  }

  lemma DivBounds(a: int, b: int)
    requires 0 < b
    ensures (a / b) * b <= a < (a / b + 1) * b
  {
  }

  lemma MulMono(a: int, b: int, c: int)
    requires a <= b && 0 <= c
    ensures a * c <= b * c
  {
  }

  lemma DivMono(a: int, c: int, b: int)
    requires 0 < b && a <= c
    ensures a / b <= c / b
  {
    if c / b < a / b {
      MulMono(c / b + 1, a / b, b);
    }
  }

  /** Multiples released strictly before t + 1 are those released at or before t. */
  lemma CeilDivSucc(t: nat, b: nat)
    requires 0 < b
    ensures CeilDiv(t + 1, b) == t / b + 1
  {
    DivBounds(t, b);
    DivUnique(t + b, b, t / b + 1);
  }

  lemma CeilDivBounds(a: nat, b: nat)
    requires 0 < b
    ensures (CeilDiv(a, b) - 1) * b < a <= CeilDiv(a, b) * b || (a == 0 && CeilDiv(a, b) == 0)
    ensures a <= CeilDiv(a, b) * b < a + b
  {
    DivBounds(a + b - 1, b);
    if a == 0 {
      DivUnique(b - 1, b, 0);
    }
  }

  /** A window of length y starting at x sees at most CeilDiv(y, b) new multiples of b. */
  lemma CeilDivSubadditive(x: nat, y: nat, b: nat)
    requires 0 < b
    ensures CeilDiv(x + y, b) <= CeilDiv(x, b) + CeilDiv(y, b)
  {
    var p, q, s := CeilDiv(x, b), CeilDiv(y, b), CeilDiv(x + y, b);
    CeilDivBounds(x, b);
    CeilDivBounds(y, b);
    CeilDivBounds(x + y, b);
    assert x + y <= p * b + q * b == (p + q) * b;
    if p + q < s {
      MulMono(p + q, s - 1, b);
    }
  }

  lemma CeilDivMultiple(k: nat, b: nat)
    requires 0 < b
    ensures CeilDiv(k * b, b) == k && (k * b) / b == k
  {
    DivUnique(k * b + b - 1, b, k);
    DivUnique(k * b, b, k);
  }

  /** Jobs whose whole period lies inside [t + 1, d) number at most (d - t - 1) / b. */
  lemma WholePeriods(t: nat, d: nat, b: nat)
    requires 0 < b && t < d
    ensures d / b - t / b - 1 <= (d - t - 1) / b
    ensures 0 <= (d - t - 1) / b
  {
    var p, q, r := t / b, d / b, (d - t - 1) / b;
    DivBounds(t, b);
    DivBounds(d, b);
    DivBounds(d - t - 1, b);
    if r < q - p - 1 {
      assert (q - p - 1) * b == q * b - (p + 1) * b;
      MulMono(r + 1, q - p - 1, b);
    }
  }

  /** A quotient grows exactly at the multiples of the divisor. */
  lemma NextQuotient(t: nat, p: nat)
    requires 0 < p && 0 < t
    ensures t / p == (t - 1) / p + (if t % p == 0 then 1 else 0)
  {
    DivBounds(t, p);
    var q := t / p;
    if t % p == 0 {
      assert (q - 1) * p + p == q * p == t;
      DivUnique(t - 1, p, q - 1);
    } else {
      DivUnique(t - 1, p, q);
    }
  }

  lemma AddOne(a: int, c: int)
    ensures (a + 1) * c == a * c + c
  {
  }

  lemma ScaleSum(a: nat, b: nat, d: nat, c: nat)
    requires d <= a + b
    ensures d * c <= a * c + b * c
  {
    MulMono(d, a + b, c);
  }

  lemma NonNegative(x: real, y: real)
    requires 0.0 <= x && 0.0 <= y
    ensures 0.0 <= x * y
  {
  }
}
