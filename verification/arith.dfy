/** Small facts of integer arithmetic, each proved where the solver sees
    nothing else. */
module Arith {

  /** base raised to the k-th power. */
  function Pow(base: nat, k: nat): nat
  {
    if k == 0 then 1 else base * Pow(base, k - 1)
  }

  /** One step of positional division. */
  lemma DivStep(n: nat, b: nat)
    requires 2 <= b <= n
    ensures 1 <= n / b < n && n % b < b && n == (n / b) * b + n % b
  {
    var q, r := n / b, n % b;
    assert n == q * b + r;
    MulLe(2, b, q);
  }

  lemma MulLe(x: nat, y: nat, b: nat)
    requires x <= y
    ensures x * b <= y * b
  {
  }

  lemma MulSucc(x: int, b: int)
    ensures (x + 1) * b == x * b + b
  {
  }

  /** Quotient and remainder are unique. */
  lemma MulAddUnique(a: nat, c: nat, x: nat, y: nat, b: nat)
    requires b > 0 && x < b && y < b
    requires a * b + x == c * b + y
    ensures a == c && x == y
  {
    if a < c {
      MulLe(a + 1, c, b);
      MulSucc(a, b);
    } else if a > c {
      MulLe(c + 1, a, b);
      MulSucc(c, b);
    }
  }

  /** Splitting the last digit off a number in base b. */
  lemma DivModUnique(n: nat, q: nat, r: nat, b: nat)
    requires b > 0 && r < b && n == q * b + r
    ensures n / b == q && n % b == r
  {
    MulAddUnique(n / b, q, n % b, r, b);
  }

  lemma PowPositive(base: nat, k: nat)
    requires base >= 1
    ensures Pow(base, k) >= 1
  {
  }

  lemma PowStep(base: nat, k: nat)
    ensures Pow(base, k + 1) == Pow(base, k) * base
  {
  }

  lemma {:induction false} PowMonotone(base: nat, j: nat, k: nat)
    requires base >= 1 && j <= k
    ensures Pow(base, j) <= Pow(base, k)
    decreases k
  {
    if j < k {
      PowMonotone(base, j, k - 1);
      PowPositive(base, k - 1);
      MulLe(1, base, Pow(base, k - 1));
    }
  }

  lemma {:induction false} PowAdd(base: nat, j: nat, k: nat)
    ensures Pow(base, j + k) == Pow(base, j) * Pow(base, k)
    decreases k
  {
    if k > 0 {
      PowAdd(base, j, k - 1);
      PowStep(base, j + k - 1);
      PowStep(base, k - 1);
    }
  }

  /** v < p implies v*b + d < p*b for a digit d. */
  lemma DigitBound(v: nat, p: nat, d: nat, b: nat)
    requires v < p && d < b
    ensures v * b + d < p * b
  {
    MulLe(v + 1, p, b);
    MulSucc(v, b);
  }

  /** p <= n/b implies p*b <= n. */
  lemma QuotientBound(p: nat, n: nat, b: nat)
    requires b > 0 && p <= n / b
    ensures p * b <= n
  {
    MulLe(p, n / b, b);
  }

  lemma Distribute(a: int, p: int, v: int, b: int, d: int)
    ensures (a * p + v) * b + d == a * (p * b) + (v * b + d)
  {
  }

  /** Dividing twice is dividing by the product. */
  lemma DivDiv(n: nat, d: nat, u: nat)
    requires d > 0 && u > 0
    ensures n / d / u == n / (d * u)
  {
    var q: nat, r: nat := n / d, n % d;
    var q2: nat, r2: nat := q / u, q % u;
    assert n == q * d + r;
    assert q == q2 * u + r2;
    Distribute(q2, u, r2, d, r);
    DigitBound(r2, u, r, d);
    assert u * d == d * u;
    DivModUnique(n, q2, r2 * d + r, d * u);
  }

  /** A quotient below u means the dividend is below u times the divisor. */
  lemma QuotientBelow(n: nat, d: nat, u: nat)
    requires d > 0 && n / d < u
    ensures n < u * d
  {
    assert n == (n / d) * d + n % d;
    MulSucc(n / d, d);
    MulLe(n / d + 1, u, d);
  }

  /** Counting multiples: m+1 adds one to the quotient exactly when it is a
      multiple of k. */
  lemma DivSucc(m: nat, k: nat)
    requires k > 0
    ensures (m + 1) / k == m / k + (if (m + 1) % k == 0 then 1 else 0)
  {
    var q, r := m / k, m % k;
    assert m == q * k + r;
    if r + 1 == k {
      MulSucc(q, k);
      DivModUnique(m + 1, q + 1, 0, k);
    } else {
      DivModUnique(m + 1, q, r + 1, k);
    }
  }

  /** i is a multiple of k, decided by repeated subtraction so that no
      nonlinear term enters the proofs that use it. */
  predicate IsMultiple(i: nat, k: nat)
    decreases i
  {
    if k == 0 then false else if i < k then i == 0 else IsMultiple(i - k, k)
  }

  /** How many of 1..n are multiples of k. */
  function CountMultiples(n: nat, k: nat): nat
  {
    if n == 0 then 0 else CountMultiples(n - 1, k) + (if IsMultiple(n, k) then 1 else 0)
  }

  lemma {:induction false} IsMultipleMod(i: nat, k: nat)
    requires k > 0
    ensures IsMultiple(i, k) <==> i % k == 0
    decreases i
  {
    if i >= k {
      IsMultipleMod(i - k, k);
      ModStep(i, k);
    } else {
      DivModUnique(i, 0, i, k);
    }
  }

  /** Taking k away keeps the remainder modulo k. */
  lemma ModStep(i: nat, k: nat)
    requires k > 0 && i >= k
    ensures i % k == (i - k) % k
  {
    MulSucc((i - k) / k, k);
    DivModUnique(i, (i - k) / k + 1, (i - k) % k, k);
  }

  lemma {:induction false} CountMultiplesIsQuotient(n: nat, k: nat)
    requires k > 0
    ensures CountMultiples(n, k) == n / k
  {
    if n > 0 {
      CountMultiplesIsQuotient(n - 1, k);
      DivSucc(n - 1, k);
      IsMultipleMod(n, k);
    }
  }

  lemma {:induction false} NoMultiplesOfZero(n: nat)
    ensures CountMultiples(n, 0) == 0
  {
    if n > 0 {
      NoMultiplesOfZero(n - 1);
    }
  }
}
