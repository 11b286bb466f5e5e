/** Facts about integer division and multiplication used by the raster proofs. */
module Arith {
  lemma MulMono(a: int, b: int, m: nat)
    requires a <= b
    ensures a * m <= b * m
  {
    assert b * m - a * m == (b - a) * m;
  }

  lemma MulSucc(a: int, m: int)
    ensures (a + 1) * m == a * m + m
  {}

  lemma MulNonneg(a: nat, b: nat)
    ensures a * b >= 0
  {}

  /** d lies in the q-th block of size m exactly when d / m == q. */
  lemma DivBlock(d: int, m: nat, q: nat)
    requires m > 0
    ensures (d >= 0 && d / m == q) <==> (q * m <= d < q * m + m)
  {
    var q', k := d / m, d % m;
    assert d == q' * m + k && 0 <= k < m;
    if q * m <= d < q * m + m {
      if q' < q {
        MulSucc(q', m);
        MulMono(q' + 1, q, m);
      } else if q' > q {
        MulSucc(q, m);
        MulMono(q + 1, q', m);
      }
    }
  }

  /** For d >= 0, d / m < k exactly when d < k * m. */
  lemma DivBelow(d: nat, m: nat, k: nat)
    requires m > 0
    ensures d / m < k <==> d < k * m
  {
    var q := d / m;
    DivBlock(d, m, q);
    if q < k {
      MulSucc(q, m);
      MulMono(q + 1, k, m);
    } else {
      MulMono(k, q, m);
    }
  }

  /** Adding one to a: the remainder steps, and wraps into the quotient at m. */
  lemma DivModSucc(a: nat, m: nat)
    requires m > 0
    ensures (a + 1) % m == if a % m + 1 == m then 0 else a % m + 1
    ensures (a + 1) / m == if a % m + 1 == m then a / m + 1 else a / m
  {
    var q, k := a / m, a % m;
    assert a == q * m + k;
    if k + 1 == m {
      assert a + 1 == (q + 1) * m + 0;
      DivBlock(a + 1, m, q + 1);
    } else {
      assert a + 1 == q * m + (k + 1);
      DivBlock(a + 1, m, q);
    }
  }

  /** The quotient and remainder are the unique q, k with a == q * m + k and 0 <= k < m. */
  lemma DivModUnique(a: nat, m: nat, q: nat, k: nat)
    requires m > 0 && a == q * m + k && k < m
    ensures a / m == q && a % m == k
  {
    DivBlock(a, m, q);
  }

  /** A number is its quotient times the divisor plus its remainder. */
  lemma DivModSplit(a: nat, m: nat)
    requires m > 0
    ensures a == (a / m) * m + a % m
  {
  }

  /** The remainder modulo 2 * p, from halving first: the low bit and the half's remainder. */
  lemma DivModDouble(v: nat, p: nat)
    requires p > 0
    ensures v % (2 * p) == 2 * ((v / 2) % p) + v % 2
  {
    var a, b := v / 2, v % 2;
    var q, m := a / p, a % p;
    assert a == q * p + m;
    assert 2 * (q * p) == q * (2 * p);
    assert v == q * (2 * p) + (2 * m + b);
    DivModUnique(v, 2 * p, q, 2 * m + b);
  }

  /** Below the divisor, the quotient is 0 and the remainder the number itself. */
  lemma DivModSmall(a: nat, m: nat)
    requires a < m
    ensures a / m == 0 && a % m == a
  {
    DivModUnique(a, m, 0, a);
  }

  /** A quotient is at most its dividend. */
  lemma DivLe(a: nat, m: nat)
    requires m > 0
    ensures 0 <= a / m <= a
  {
    var q := a / m;
    DivBlock(a, m, q);
    MulMono(1, m, q);
  }

  /** A positive quotient means the dividend is at least the divisor. */
  lemma DivPos(a: nat, m: nat)
    requires m > 0 && a / m > 0
    ensures m <= a
  {
    DivBelow(a, m, 1);
  }

  /** Dividing by at least 2 makes a positive number smaller. */
  lemma DivShrinks(a: nat, m: nat)
    requires m >= 2 && a >= 1
    ensures a / m < a
  {
    DivBelow(a, m, a);
    MulMono(2, m, a);
  }
}
