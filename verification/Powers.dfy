/** Powers of natural numbers, up to the weighted mean inequality that the
    entropy bound rests on. Everything stays in exact integers. */
module Powers {

  function Pow(b: nat, e: nat): nat {
    if e == 0 then 1 else b * Pow(b, e - 1)
  }

  lemma Regroup(a: int, b: int, p: int, q: int)
    ensures (a * b) * (p * q) == (a * p) * (b * q)
  {
  }

  lemma PowPositive(b: nat, e: nat)
    requires b > 0
    ensures Pow(b, e) > 0
  {
  }

  lemma {:induction false} PowAdd(b: nat, m: nat, n: nat)
    ensures Pow(b, m + n) == Pow(b, m) * Pow(b, n)
  {
    if m > 0 {
      PowAdd(b, m - 1, n);
      assert Pow(b, m + n) == b * Pow(b, m - 1 + n);
      assert b * (Pow(b, m - 1) * Pow(b, n)) == (b * Pow(b, m - 1)) * Pow(b, n);
    }
  }

  lemma {:induction false} PowProduct(a: nat, b: nat, n: nat)
    ensures Pow(a * b, n) == Pow(a, n) * Pow(b, n)
  {
    if n > 0 {
      PowProduct(a, b, n - 1);
      Regroup(a, b, Pow(a, n - 1), Pow(b, n - 1));
    }
  }

  lemma {:induction false} PowTower(b: nat, m: nat, n: nat)
    ensures Pow(Pow(b, m), n) == Pow(b, m * n)
  {
    if n > 0 {
      PowTower(b, m, n - 1);
      PowAdd(b, m, m * (n - 1));
      assert m + m * (n - 1) == m * n;
    } else {
      assert m * n == 0;
    }
  }

  lemma {:induction false} PowMonotone(a: nat, b: nat, n: nat)
    requires a <= b
    ensures Pow(a, n) <= Pow(b, n)
  {
    if n > 0 {
      PowMonotone(a, b, n - 1);
      MulMonotone(a, b, Pow(a, n - 1), Pow(b, n - 1));
    }
  }

  lemma MulMonotone(a: nat, b: nat, c: nat, d: nat)
    requires a <= b && c <= d
    ensures a * c <= b * d
  {
    assert a * c <= b * c;
    assert b * c <= b * d;
  }

  /** A common positive factor may be cancelled from an inequality. */
  lemma Cancel(factor: nat, x: nat, y: nat)
    requires factor > 0
    ensures factor * x <= factor * y <==> x <= y
  {
    if x > y {
      assert factor * x >= factor * (y + 1);
    }
  }

  /** With a positive exponent, powers are ordered exactly as their bases. */
  lemma PowOrder(a: nat, b: nat, n: nat)
    requires n > 0
    ensures Pow(a, n) <= Pow(b, n) <==> a <= b
  {
    if a <= b {
      PowMonotone(a, b, n);
    } else {
      PowMonotone(b, a, n - 1);
      PowPositive(a, n - 1);
      assert Pow(b, n) == b * Pow(b, n - 1) <= b * Pow(a, n - 1) by {
        MulMonotone(b, b, Pow(b, n - 1), Pow(a, n - 1));
      }
      assert (b + 1) * Pow(a, n - 1) <= a * Pow(a, n - 1) by {
        MulMonotone(b + 1, a, Pow(a, n - 1), Pow(a, n - 1));
      }
    }
  }

  /** Bernoulli's inequality without fractions: the curve u^m lies above its tangent at w. */
  lemma {:induction false} Tangent(u: nat, w: nat, m: nat)
    requires m > 0
    ensures Pow(u, m) + (m - 1) * Pow(w, m) >= m * u * Pow(w, m - 1)
  {
    if m > 1 {
      var p := Pow(w, m - 2);
      Tangent(u, w, m - 1);
      var k := m - 1;
      assert Pow(w, m - 1) == w * p && Pow(w, m) == w * (w * p);
      var x := Pow(u, k);
      assert x + (k - 1) * (w * p) >= k * u * p;
      TangentStep(u, w, k, p, x);
    }
  }

  lemma TangentStep(u: nat, w: nat, k: nat, p: nat, x: nat)
    requires x + (k - 1) * (w * p) >= k * u * p
    ensures u * x + k * (w * (w * p)) >= (k + 1) * u * (w * p)
  {
    var gap := x + (k - 1) * (w * p) - k * u * p;
    NonNegative(u, gap);
    NonNegative(k * p, (u - w) * (u - w));
    TangentAlgebra(u, w, k, p, x);
  }

  lemma NonNegative(a: int, b: int)
    requires 0 <= a && 0 <= b
    ensures 0 <= a * b
  {
  }

  lemma TangentAlgebra(u: int, w: int, k: int, p: int, x: int)
    ensures u * x + k * (w * (w * p)) - (k + 1) * u * (w * p)
         == u * (x + (k - 1) * (w * p) - k * u * p) + (k * p) * ((u - w) * (u - w))
  {
  }

  /** Adding one more number x to n numbers of sum s: the step of the mean inequality. */
  lemma MeanStep(s: nat, x: nat, n: nat)
    ensures Pow(n + 1, n + 1) * (Pow(s, n) * x) <= Pow(s + x, n + 1) * Pow(n, n)
  {
    if n > 0 {
      var u, w := n * (s + x), (n + 1) * s;
      Tangent(u, w, n + 1);
      PowProduct(n, s + x, n + 1);
      PowProduct(n + 1, s, n);
      MeanAlgebra(s, x, n, Pow(n, n), Pow(s + x, n + 1), Pow(n + 1, n), Pow(s, n));
    }
  }

  lemma MeanAlgebra(s: nat, x: nat, n: nat, a: nat, b: nat, c: nat, d: nat)
    requires n > 0
    requires (n * a) * b + n * (((n + 1) * s) * (c * d)) >= (n + 1) * (n * (s + x)) * (c * d)
    ensures ((n + 1) * c) * (d * x) <= b * a
  {
    assert (n * a) * b == n * (b * a);
    MeanPolynomial(s, x, n, c * d);
    Regroup(n + 1, x, c, d);
    assert ((n + 1) * x) * (c * d) == ((n + 1) * c) * (d * x);
    Cancel(n, ((n + 1) * c) * (d * x), b * a);
  }

  lemma MeanPolynomial(s: int, x: int, n: int, p: int)
    ensures (n + 1) * (n * (s + x)) * p - n * (((n + 1) * s) * p) == n * (((n + 1) * x) * p)
  {
  }

  /** The arithmetic and geometric means of a copies of x and c copies of y. */
  lemma {:induction false} TwoMeans(x: nat, y: nat, a: nat, c: nat)
    ensures Pow(x, a) * Pow(y, c) * Pow(a + c, a + c) <= Pow(a * x + c * y, a + c)
  {
    if c == 0 {
      PowProduct(a, x, a);
      assert a * x + c * y == a * x;
    } else {
      var n, s := a + c - 1, a * x + (c - 1) * y;
      SumStep(a * x, c, y);
      TwoMeans(x, y, a, c - 1);
      MeanStep(s, y, n);
      if n > 0 { PowPositive(n, n); }
      TwoMeansAlgebra(Pow(x, a), Pow(y, c - 1), y, Pow(n, n), Pow(s, n), Pow(n + 1, n + 1), Pow(s + y, n + 1));
    }
  }

  lemma SumStep(base: int, c: int, y: int)
    ensures base + (c - 1) * y + y == base + c * y
  {
  }

  lemma TwoMeansAlgebra(p: nat, q: nat, y: nat, nn: nat, sn: nat, g: nat, total: nat)
    requires nn > 0
    requires p * q * nn <= sn
    requires g * (sn * y) <= total * nn
    ensures p * (y * q) * g <= total
  {
    MulMonotone(p * q * nn, sn, y, y);
    MulMonotone(g, g, p * q * nn * y, sn * y);
    FiveFactors(g, p, q, nn, y);
    Cancel(nn, p * (y * q) * g, total);
  }

  lemma FiveFactors(g: int, p: int, q: int, nn: int, y: int)
    ensures g * (p * q * nn * y) == nn * (p * (y * q) * g)
  {
  }

  /** Joining one more class of size c to k classes of total size a cannot
      push the joint bound below the uniform one. */
  lemma Merge(a: nat, c: nat, k: nat)
    ensures Pow(a + c, a + c) * Pow(k, a) <= Pow(k + 1, a + c) * (Pow(a, a) * Pow(c, c))
  {
    var n := a + c;
    if a == 0 {
      PowPositive(k + 1, c);
      MulMonotone(1, Pow(k + 1, n), Pow(c, c), Pow(c, c));
    } else if c == 0 {
      PowMonotone(k, k + 1, a);
      MulMonotone(Pow(k, a), Pow(k + 1, a), Pow(a, a), Pow(a, a));
    } else {
      MergePositive(a, c, k);
    }
  }

  lemma MergePositive(a: nat, c: nat, k: nat)
    requires a > 0 && c > 0
    ensures Pow(a + c, a + c) * Pow(k, a) <= Pow(k + 1, a + c) * (Pow(a, a) * Pow(c, c))
  {
    var n := a + c;
    TwoMeans(k * c, a, a, c);
    SumOfProducts(a, c, k);
    PowProduct(k, c, a);
    PowProduct(a * c, k + 1, n);
    PowProduct(a, c, n);
    PowAdd(a, a, c);
    PowAdd(c, a, c);
    PowPositive(c, a);
    PowPositive(a, c);
    MergeCancel(Pow(k, a), Pow(c, a), Pow(a, c), Pow(n, n), Pow(a, a), Pow(c, c), Pow(k + 1, n));
  }

  lemma SumOfProducts(a: int, c: int, k: int)
    ensures a * (k * c) + c * a == a * c * (k + 1)
  {
  }

  lemma MergeCancel(ka: nat, ca: nat, ac: nat, nn: nat, aa: nat, cc: nat, kn: nat)
    requires ca > 0 && ac > 0
    requires ka * ca * ac * nn <= (aa * ac) * (ca * cc) * kn
    ensures nn * ka <= kn * (aa * cc)
  {
    assert ka * ca * ac * nn == (ca * ac) * (nn * ka);
    assert (aa * ac) * (ca * cc) * kn == (ca * ac) * (kn * (aa * cc));
    Cancel(ca * ac, nn * ka, kn * (aa * cc));
  }
}
