/** What the acceptance test decides, said without its own product of powers: a read is rejected
    exactly if some rational upper bound on its entropy lies below the threshold. */
module Threshold {
  import opened Bytes
  import opened Powers
  import opened Entropy

  // ----- rational bounds on the entropy -----

  /** log2(n / count) <= l / scale for every positive count. */
  ghost predicate LogsAtMost(h: seq<nat>, n: nat, scale: nat, l: seq<nat>) {
    && |l| == |h| && scale > 0
    && forall v :: 0 <= v < |h| && h[v] > 0 ==> Pow(n, scale) <= Pow(h[v], scale) * Pow(2, l[v])
  }

  /** log2(n / count) >= l / scale for every positive count. */
  ghost predicate LogsAtLeast(h: seq<nat>, n: nat, scale: nat, l: seq<nat>) {
    && |l| == |h| && scale > 0
    && forall v :: 0 <= v < |h| && h[v] > 0 ==> Pow(h[v], scale) * Pow(2, l[v]) <= Pow(n, scale)
  }

  /** The sum of count * l: divided by n * scale it bounds the entropy as l / scale bounds the logarithms. */
  function Weighted(h: seq<nat>, l: seq<nat>): nat
    requires |h| == |l|
  {
    if h == [] then 0 else Weighted(h[..|h| - 1], l[..|l| - 1]) + h[|h| - 1] * l[|h| - 1]
  }

  /** A witness that the entropy of the bytes read is below the threshold of a file of `size` bytes:
      7 up to 1023 bytes, 39/5 from 1024 bytes on. */
  ghost predicate EntropyUnder(read: seq<Byte>, size: nat, scale: nat, l: seq<nat>) {
    && LogsAtMost(Histogram(read), |read|, scale, l)
    && if size < 1024 then Weighted(Histogram(read), l) < 7 * |read| * scale
       else 5 * Weighted(Histogram(read), l) < 39 * |read| * scale
  }

  ghost predicate EntropyOver(read: seq<Byte>, size: nat, scale: nat, l: seq<nat>) {
    && LogsAtLeast(Histogram(read), |read|, scale, l)
    && if size < 1024 then Weighted(Histogram(read), l) >= 7 * |read| * scale
       else 5 * Weighted(Histogram(read), l) >= 39 * |read| * scale
  }

  // ----- products over a histogram -----

  lemma {:induction false} TowersCommute(b: nat, x: nat, y: nat)
    ensures Pow(Pow(b, x), y) == Pow(Pow(b, y), x)
  {
    PowTower(b, x, y);
    PowTower(b, y, x);
    assert x * y == y * x;
  }

  /** The factor that a class of c bytes contributes to the left side. */
  lemma {:induction false} ClassOfBytes(n: nat, scale: nat, s: nat, c: nat)
    ensures Pow(n, scale * (s + c)) == Pow(n, scale * s) * Pow(Pow(n, scale), c)
  {
    assert scale * (s + c) == scale * s + scale * c;
    PowAdd(n, scale * s, scale * c);
    PowTower(n, scale, c);
  }

  /** And to the right side. */
  lemma {:induction false} ClassOfPowers(p: nat, w: nat, scale: nat, c: nat, l: nat)
    ensures Pow(p * Pow(c, c), scale) * Pow(2, w + c * l)
         == (Pow(p, scale) * Pow(2, w)) * Pow(Pow(c, scale) * Pow(2, l), c)
  {
    PowProduct(p, Pow(c, c), scale);
    PowAdd(2, w, c * l);
    PowProduct(Pow(c, scale), Pow(2, l), c);
    TowersCommute(c, c, scale);
    PowTower(2, l, c);
    assert l * c == c * l;
    Regroup(Pow(p, scale), Pow(Pow(c, c), scale), Pow(2, w), Pow(2, c * l));
  }

  lemma {:induction false} ProductAtMost(h: seq<nat>, n: nat, scale: nat, l: seq<nat>)
    requires LogsAtMost(h, n, scale, l)
    ensures Pow(n, scale * Sum(h)) <= Pow(SelfPowers(h), scale) * Pow(2, Weighted(h, l))
  {
    if h == [] {
      assert scale * Sum(h) == 0;
      PowOne(scale);
    } else {
      var k := |h| - 1;
      var c, s, p, w := h[k], Sum(h[..k]), SelfPowers(h[..k]), Weighted(h[..k], l[..k]);
      var left: nat, right: nat, base: nat :=
        Pow(n, scale * s), Pow(p, scale) * Pow(2, w), Pow(c, scale) * Pow(2, l[k]);
      ProductAtMost(h[..k], n, scale, l[..k]);
      ClassOfBytes(n, scale, s, c);
      ClassOfPowers(p, w, scale, c, l[k]);
      if c > 0 { PowMonotone(Pow(n, scale), base, c); }
      MulMonotone(left, right, Pow(Pow(n, scale), c), Pow(base, c));
    }
  }

  lemma {:induction false} ProductAtLeast(h: seq<nat>, n: nat, scale: nat, l: seq<nat>)
    requires LogsAtLeast(h, n, scale, l)
    ensures Pow(SelfPowers(h), scale) * Pow(2, Weighted(h, l)) <= Pow(n, scale * Sum(h))
  {
    if h == [] {
      assert scale * Sum(h) == 0;
      PowOne(scale);
    } else {
      var k := |h| - 1;
      var c, s, p, w := h[k], Sum(h[..k]), SelfPowers(h[..k]), Weighted(h[..k], l[..k]);
      var left: nat, right: nat, base: nat :=
        Pow(n, scale * s), Pow(p, scale) * Pow(2, w), Pow(c, scale) * Pow(2, l[k]);
      ProductAtLeast(h[..k], n, scale, l[..k]);
      ClassOfBytes(n, scale, s, c);
      ClassOfPowers(p, w, scale, c, l[k]);
      if c > 0 { PowMonotone(base, Pow(n, scale), c); }
      MulMonotone(right, left, Pow(base, c), Pow(Pow(n, scale), c));
    }
  }

  lemma {:induction false} PowOne(e: nat)
    ensures Pow(1, e) == 1
  {
    if e > 0 { PowOne(e - 1); }
  }

  lemma {:induction false} PowOfTwoOrder(a: nat, b: nat)
    ensures a <= b ==> Pow(2, a) <= Pow(2, b)
    ensures a < b ==> Pow(2, a) < Pow(2, b)
  {
    PowPositive(2, a);
    if a < b {
      PowAdd(2, a, b - a);
      PowPositive(2, b - a - 1);
      assert Pow(2, b - a) >= 2;
      MulMonotone(Pow(2, a), Pow(2, a), 2, Pow(2, b - a));
    }
  }

  // ----- the cut -----

  /** The two sides of the comparison with num / den, raised to the scale. */
  lemma {:induction false} Sides(p: nat, scale: nat, e: nat, den: nat)
    ensures Pow(Pow(2, e) * Pow(p, den), scale) == Pow(Pow(p, scale), den) * Pow(2, e * scale)
  {
    PowProduct(Pow(2, e), Pow(p, den), scale);
    PowTower(2, e, scale);
    TowersCommute(p, den, scale);
  }

  lemma {:induction false} SwapTowers(n: nat, x: nat, z: nat)
    ensures Pow(Pow(n, x * n), z) == Pow(Pow(n, z * n), x)
  {
    PowTower(n, x * n, z);
    PowTower(n, z * n, x);
    Rearranged(x, n, z);
  }

  lemma {:induction false} Rearranged(x: nat, y: nat, z: nat)
    ensures (x * y) * z == (z * y) * x
  {
  }

  lemma {:induction false} Raised(p: nat, scale: nat, w: nat, den: nat)
    ensures Pow(Pow(p, scale) * Pow(2, w), den) == Pow(Pow(p, scale), den) * Pow(2, den * w)
  {
    PowProduct(Pow(p, scale), Pow(2, w), den);
    PowTower(2, w, den);
    assert w * den == den * w;
  }

  /** An upper bound below num / den. */
  lemma {:induction false} CutBelow(h: seq<nat>, n: nat, scale: nat, l: seq<nat>, num: nat, den: nat)
    requires LogsAtMost(h, n, scale, l) && Sum(h) == n
    requires den * Weighted(h, l) < num * n * scale
    ensures Pow(n, den * n) < Pow(2, num * n) * Pow(SelfPowers(h), den)
  {
    var p, w, e: nat := SelfPowers(h), Weighted(h, l), num * n;
    var low: nat, high: nat, sum: nat := den * w, e * scale, scale * n;
    var side: nat, other: nat := Pow(2, e) * Pow(p, den), Pow(n, den * n);
    var product: nat, ps: nat := Pow(p, scale) * Pow(2, w), Pow(Pow(p, scale), den);
    ProductAtMost(h, n, scale, l);
    PowMonotone(Pow(n, sum), product, den);
    Raised(p, scale, w, den);
    SwapTowers(n, scale, den);
    Sides(p, scale, e, den);
    SelfPowersPositive(h);
    PowPositive(p, scale);
    PowPositive(Pow(p, scale), den);
    PowOfTwoOrder(low, high);
    Strictly(ps, Pow(2, low), Pow(2, high));
    PowOrder(side, other, scale);
  }

  lemma {:induction false} Strictly(a: nat, x: nat, y: nat)
    requires a > 0 && x < y
    ensures a * x < a * y
  {
  }

  /** A lower bound at or above num / den. */
  lemma {:induction false} CutAbove(h: seq<nat>, n: nat, scale: nat, l: seq<nat>, num: nat, den: nat)
    requires LogsAtLeast(h, n, scale, l) && Sum(h) == n
    requires den * Weighted(h, l) >= num * n * scale
    ensures Pow(2, num * n) * Pow(SelfPowers(h), den) <= Pow(n, den * n)
  {
    var p, w := SelfPowers(h), Weighted(h, l);
    var low: nat, high: nat, sum: nat := num * n * scale, den * w, scale * n;
    var side: nat, other: nat := Pow(2, num * n) * Pow(p, den), Pow(n, den * n);
    var product: nat := Pow(p, scale) * Pow(2, w);
    ProductAtLeast(h, n, scale, l);
    PowMonotone(product, Pow(n, sum), den);
    Raised(p, scale, w, den);
    SwapTowers(n, scale, den);
    Sides(p, scale, num * n, den);
    Between(Pow(Pow(p, scale), den), low, high, Pow(other, scale));
    PowOrder(side, other, scale);
  }

  lemma {:induction false} Between(p: nat, low: nat, high: nat, top: nat)
    requires low <= high && p * Pow(2, high) <= top
    ensures p * Pow(2, low) <= top
  {
    PowOfTwoOrder(low, high);
    MulMonotone(p, p, Pow(2, low), Pow(2, high));
  }

  // ----- every rejection has a witness -----

  /** The least l with a <= b * 2^l. */
  function CeilLog(a: nat, b: nat): (l: nat)
    requires b > 0
    decreases a - b
  {
    if a <= b then 0 else 1 + CeilLog(a, 2 * b)
  }

  lemma {:induction false} CeilLogFits(a: nat, b: nat)
    requires b > 0
    ensures a <= b * Pow(2, CeilLog(a, b))
    ensures b <= a ==> b * Pow(2, CeilLog(a, b)) <= 2 * a
    decreases a - b
  {
    if a > b {
      CeilLogFits(a, 2 * b);
      var e := CeilLog(a, 2 * b);
      assert b * Pow(2, 1 + e) == (2 * b) * Pow(2, e);
      if 2 * b > a { assert e == 0; }
    }
  }

  /** Logarithms rounded up by less than one unit of the scale. */
  function RoundedUp(h: seq<nat>, n: nat, scale: nat): (l: seq<nat>)
    ensures |l| == |h|
  {
    seq(|h|, v requires 0 <= v < |h| =>
      if Pow(h[v], scale) > 0 then CeilLog(Pow(n, scale), Pow(h[v], scale)) else 0)
  }

  ghost predicate Tight(h: seq<nat>, n: nat, scale: nat, l: seq<nat>) {
    && |l| == |h|
    && forall v :: 0 <= v < |h| && h[v] > 0 ==> Pow(h[v], scale) * Pow(2, l[v]) <= 2 * Pow(n, scale)
  }

  lemma {:induction false} RoundedUpFits(h: seq<nat>, n: nat, scale: nat)
    requires scale > 0 && forall v :: 0 <= v < |h| ==> h[v] <= n
    ensures LogsAtMost(h, n, scale, RoundedUp(h, n, scale)) && Tight(h, n, scale, RoundedUp(h, n, scale))
  {
    var l := RoundedUp(h, n, scale);
    forall v | 0 <= v < |h| && h[v] > 0
      ensures Pow(n, scale) <= Pow(h[v], scale) * Pow(2, l[v]) <= 2 * Pow(n, scale)
    {
      PowPositive(h[v], scale);
      PowMonotone(h[v], n, scale);
      CeilLogFits(Pow(n, scale), Pow(h[v], scale));
    }
  }

  lemma {:induction false} ProductTight(h: seq<nat>, n: nat, scale: nat, l: seq<nat>)
    requires Tight(h, n, scale, l)
    ensures Pow(SelfPowers(h), scale) * Pow(2, Weighted(h, l)) <= Pow(2, Sum(h)) * Pow(n, scale * Sum(h))
  {
    if h == [] {
      assert scale * Sum(h) == 0;
      PowOne(scale);
    } else {
      var k := |h| - 1;
      var c, s := h[k], Sum(h[..k]);
      ProductTight(h[..k], n, scale, l[..k]);
      TightStep(n, scale, s, c, l[k], SelfPowers(h[..k]), Weighted(h[..k], l[..k]));
    }
  }

  /** One more class. */
  lemma {:induction false} TightStep(n: nat, scale: nat, s: nat, c: nat, l: nat, p: nat, w: nat)
    requires Pow(p, scale) * Pow(2, w) <= Pow(2, s) * Pow(n, scale * s)
    requires c > 0 ==> Pow(c, scale) * Pow(2, l) <= 2 * Pow(n, scale)
    ensures Pow(p * Pow(c, c), scale) * Pow(2, w + c * l) <= Pow(2, s + c) * Pow(n, scale * (s + c))
  {
    var right: nat, base: nat, twice: nat := Pow(p, scale) * Pow(2, w), Pow(c, scale) * Pow(2, l), 2 * Pow(n, scale);
    var bytes: nat, all: nat, top: nat := Pow(n, scale * s), right * Pow(base, c), Pow(n, scale * (s + c));
    if c > 0 { PowMonotone(base, twice, c); }
    PowProduct(2, Pow(n, scale), c);
    PowAdd(2, s, c);
    ClassOfBytes(n, scale, s, c);
    GatherTight(right, Pow(2, s), bytes, Pow(base, c), Pow(2, c), Pow(Pow(n, scale), c), all, Pow(2, s + c), top);
    ClassOfPowers(p, w, scale, c, l);
  }

  lemma {:induction false} GatherTight(x: nat, a: nat, b: nat, y: nat, c: nat, d: nat, all: nat, ac: nat, bd: nat)
    requires x <= a * b && y <= c * d
    requires all == x * y && ac == a * c && bd == b * d
    ensures all <= ac * bd
  {
    MulMonotone(x, a * b, y, c * d);
    Regroup(a, b, c, d);
  }

  /** (a + 1)^a is at least twice a^a, so a gap of one doubles within a steps. */
  lemma {:induction false} Doubling(a: nat, b: nat, k: nat)
    requires 0 < a < b
    ensures Pow(2, k) * Pow(a, a * k) <= Pow(b, a * k)
  {
    Tangent(a + 1, a, a);
    TangentAtOne(a, Pow(a, a - 1));
    assert Pow(a + 1, a) >= 2 * Pow(a, a);
    PowMonotone(a + 1, b, a);
    PowMonotone(2 * Pow(a, a), Pow(b, a), k);
    PowProduct(2, Pow(a, a), k);
    PowTower(a, a, k);
    PowTower(b, a, k);
  }

  lemma {:induction false} TangentAtOne(a: nat, q: nat)
    requires a > 0
    ensures a * (a + 1) * q - (a - 1) * (a * q) == 2 * (a * q)
  {
  }

  lemma {:induction false} CountAtMostSum(h: seq<nat>, v: nat)
    requires v < |h|
    ensures h[v] <= Sum(h)
  {
    if v < |h| - 1 { CountAtMostSum(h[..|h| - 1], v); }
  }

  /** Below num / den there is always room for a rational bound. */
  lemma {:induction false} CutComplete(h: seq<nat>, n: nat, num: nat, den: nat) returns (scale: nat, l: seq<nat>)
    requires n > 0 && Sum(h) == n
    ensures Pow(n, den * n) < Pow(2, num * n) * Pow(SelfPowers(h), den) ==>
              LogsAtMost(h, n, scale, l) && den * Weighted(h, l) < num * n * scale
  {
    var p, k: nat := SelfPowers(h), den * n;
    var a: nat, b: nat := Pow(n, k), Pow(2, num * n) * Pow(p, den);
    PowPositive(n, k);
    scale := a * (k + 1);
    NonZero(a, k + 1);
    forall v | 0 <= v < |h|
      ensures h[v] <= n
    {
      CountAtMostSum(h, v);
    }
    RoundedUpFits(h, n, scale);
    l := RoundedUp(h, n, scale);
    var w := Weighted(h, l);
    ProductTight(h, n, scale, l);
    if a < b && den * w >= num * n * scale {
      TooTight(n, p, scale, w, num, den);
      Exceeded(a, b, k);
    }
  }

  /** Rounding up costs at most the factor 2^n, or 2^(den * n) on the raised sides. */
  lemma {:induction false} TooTight(n: nat, p: nat, scale: nat, w: nat, num: nat, den: nat)
    requires Pow(p, scale) * Pow(2, w) <= Pow(2, n) * Pow(n, scale * n)
    requires den * w >= num * n * scale
    ensures Pow(Pow(2, num * n) * Pow(p, den), scale) <= Pow(2, den * n) * Pow(Pow(n, den * n), scale)
  {
    var low: nat, high: nat := num * n * scale, den * w;
    var left: nat, right: nat := Pow(p, scale) * Pow(2, w), Pow(2, n) * Pow(n, scale * n);
    var top: nat := Pow(2, den * n) * Pow(Pow(n, den * n), scale);
    PowMonotone(left, right, den);
    Raised(p, scale, w, den);
    RaisedTight(n, scale, den);
    SwapTowers(n, scale, den);
    Sides(p, scale, num * n, den);
    Between(Pow(Pow(p, scale), den), low, high, top);
  }

  lemma {:induction false} RaisedTight(n: nat, scale: nat, den: nat)
    ensures Pow(Pow(2, n) * Pow(n, scale * n), den) == Pow(2, den * n) * Pow(Pow(n, den * n), scale)
  {
    PowProduct(Pow(2, n), Pow(n, scale * n), den);
    PowTower(2, n, den);
    SwapTowers(n, scale, den);
    assert n * den == den * n;
  }

  /** A larger base outgrows the factor 2^k. */
  lemma {:induction false} Exceeded(a: nat, b: nat, k: nat)
    requires 0 < a < b
    ensures Pow(2, k) * Pow(a, a * (k + 1)) < Pow(b, a * (k + 1))
  {
    Doubling(a, b, k + 1);
    PowPositive(a, a * (k + 1));
    PowOfTwoOrder(k, k + 1);
    Strictly(Pow(a, a * (k + 1)), Pow(2, k), Pow(2, k + 1));
  }

  lemma {:induction false} AcceptsInFractions(read: seq<Byte>, size: nat)
    ensures var n, p := |read|, SelfPowers(Histogram(read));
      Accepts(read, size) <==> if size < 1024 then Pow(2, 7 * n) * Pow(p, 1) <= Pow(n, 1 * n)
                               else Pow(2, 39 * n) * Pow(p, 5) <= Pow(n, 5 * n)
  {
    var n, p := |read|, SelfPowers(Histogram(read));
    assert Pow(2, 7) == 128;
    PowTower(2, 7, n);
    assert Pow(p, 1) == p && 1 * n == n;
  }

  /** A read is rejected exactly if some rational upper bound on its entropy lies below the threshold. */
  lemma {:induction false} RejectedIff(read: seq<Byte>, size: nat)
    requires |read| > 0
    ensures !Accepts(read, size) <==> exists scale, l :: EntropyUnder(read, size, scale, l)
  {
    var h, n := Histogram(read), |read|;
    HistogramTotal(read);
    AcceptsInFractions(read, size);
    var num, den := if size < 1024 then 7 else 39, if size < 1024 then 1 else 5;
    if !Accepts(read, size) {
      var scale, l := CutComplete(h, n, num, den);
      assert EntropyUnder(read, size, scale, l);
    }
    forall scale, l | EntropyUnder(read, size, scale, l)
      ensures !Accepts(read, size)
    {
      CutBelow(h, n, scale, l, num, den);
    }
  }

  /** A rational lower bound at or above the threshold means acceptance. */
  lemma {:induction false} OverIsAccepted(read: seq<Byte>, size: nat, scale: nat, l: seq<nat>)
    requires EntropyOver(read, size, scale, l)
    ensures Accepts(read, size)
  {
    HistogramTotal(read);
    AcceptsInFractions(read, size);
    CutAbove(Histogram(read), |read|, scale, l, if size < 1024 then 7 else 39, if size < 1024 then 1 else 5);
  }

  // ----- uneven reads -----

  /** Every value read makes up the fraction 1 / 2^l of the bytes. */
  ghost predicate Dyadic(read: seq<Byte>, l: seq<nat>) {
    |l| == 256 && forall b: Byte :: b in read ==> multiset(read)[b] * Pow(2, l[b]) == |read|
  }

  /** On such reads the entropy is the rational number (sum of count * l) / n, and the decision is
      the comparison with it. */
  lemma {:induction false} DyadicAcceptedIff(read: seq<Byte>, size: nat, l: seq<nat>)
    requires |read| > 0 && Dyadic(read, l)
    ensures Accepts(read, size) <==>
            if size < 1024 then Weighted(Histogram(read), l) >= 7 * |read|
            else 5 * Weighted(Histogram(read), l) >= 39 * |read|
  {
    var h, n := Histogram(read), |read|;
    forall v | 0 <= v < 256 && h[v] > 0
      ensures Pow(h[v], 1) * Pow(2, l[v]) == Pow(n, 1)
    {
      assert v in read;
    }
    RejectedIff(read, size);
    if EntropyUnder(read, size, 1, l) {
    } else {
      assert EntropyOver(read, size, 1, l);
      OverIsAccepted(read, size, 1, l);
    }
  }

  lemma {:induction false} SplitClass(h: seq<nat>, i: nat)
    requires i < |h|
    ensures var rest := h[i := 0];
      && Sum(h) == Sum(rest) + h[i]
      && SelfPowers(h) == SelfPowers(rest) * Pow(h[i], h[i])
  {
    var k, rest := |h| - 1, h[i := 0];
    if i < k {
      SplitClass(h[..k], i);
      assert rest[..k] == h[..k][i := 0];
      Reorder(SelfPowers(rest[..k]), Pow(h[i], h[i]), Pow(h[k], h[k]));
    } else {
      assert rest[..k] == h[..k];
    }
  }

  lemma {:induction false} Reorder(a: int, b: int, c: int)
    ensures (a * b) * c == (a * c) * b
  {
  }

  lemma {:induction false} SupportAtMost(h: seq<nat>)
    ensures Support(h) <= |h|
  {
    if h != [] { SupportAtMost(h[..|h| - 1]); }
  }

  /** With half of the mass in one class the entropy is at most 1 + 8 / 2 bits. */
  lemma {:induction false} HalfInOne(h: seq<nat>, n: nat, i: nat)
    requires |h| == 256 && i < 256 && Sum(h) == n && 2 * h[i] >= n
    ensures Pow(n, n) <= Pow(2, 5 * n) * SelfPowers(h)
  {
    var rest, c := h[i := 0], h[i];
    var r := Sum(rest);
    SplitClass(h, i);
    // between the class and the others
    Gibbs([r, c]);
    PairPowers(r, c);
    PowMonotone(Support([r, c]), 2, n);
    MulMonotone(Pow(Support([r, c]), n), Pow(2, n), Pow(r, r) * Pow(c, c), Pow(r, r) * Pow(c, c));
    // among the others
    Gibbs(rest);
    SupportAtMost(rest);
    PowMonotone(Support(rest), 256, r);
    MulMonotone(Pow(Support(rest), r), Pow(256, r), SelfPowers(rest), SelfPowers(rest));
    assert Pow(2, 8) == 256;
    PowTower(2, 8, r);
    PowOfTwoOrder(n + 8 * r, 5 * n);
    PowAdd(2, n, 8 * r);
    HalfAlgebra(Pow(n, n), Pow(2, n), Pow(r, r), Pow(c, c), Pow(2, 8 * r), SelfPowers(rest), Pow(2, 5 * n));
  }

  lemma {:induction false} PairPowers(r: nat, c: nat)
    ensures Sum([r, c]) == r + c && SelfPowers([r, c]) == Pow(r, r) * Pow(c, c) && Support([r, c]) <= 2
  {
    var h: seq<nat>, one: seq<nat> := [r, c], [r];
    assert h[..1] == one && one[..0] == [];
    assert Sum(one) == r && SelfPowers(one) == 1 * Pow(r, r) && Support(one) <= 1;
  }

  lemma {:induction false} HalfAlgebra(nn: nat, a: nat, rr: nat, cc: nat, b: nat, p: nat, top: nat)
    requires nn <= a * (rr * cc) && rr <= b * p && a * b <= top
    ensures nn <= top * (p * cc)
  {
    MulMonotone(rr, b * p, cc, cc);
    MulMonotone(a, a, rr * cc, b * p * cc);
    MulMonotone(a * b, top, p * cc, p * cc);
    assert a * (b * p * cc) == (a * b) * (p * cc);
  }

  /** A read in which one value makes up at least half of the bytes is never accepted, however many
      other values it holds. */
  lemma {:induction false} MajorityRejected(read: seq<Byte>, size: nat, b: Byte)
    requires |read| > 0 && 2 * multiset(read)[b] >= |read|
    ensures !Accepts(read, size)
  {
    var h, n := Histogram(read), |read|;
    HistogramTotal(read);
    AcceptsInFractions(read, size);
    HalfInOne(h, n, b);
    SelfPowersPositive(h);
    HalfFraction(n, SelfPowers(h), if size < 1024 then 7 else 39, if size < 1024 then 1 else 5);
  }

  lemma {:induction false} HalfFraction(n: nat, p: nat, num: nat, den: nat)
    requires n > 0 && p > 0 && 5 * den < num
    requires Pow(n, n) <= Pow(2, 5 * n) * p
    ensures Pow(n, den * n) < Pow(2, num * n) * Pow(p, den)
  {
    var high: nat, low: nat := num * n, 5 * n * den;
    RaiseBound(n, p, 5 * n, den);
    PowPositive(p, den);
    LessTimes(5 * den, num, n);
    assert low == (5 * den) * n;
    PowOfTwoOrder(low, high);
    Strictly(Pow(p, den), Pow(2, low), Pow(2, high));
  }

  lemma {:induction false} RaiseBound(n: nat, p: nat, e: nat, den: nat)
    requires Pow(n, n) <= Pow(2, e) * p
    ensures Pow(n, den * n) <= Pow(p, den) * Pow(2, e * den)
  {
    var right: nat := Pow(2, e) * p;
    PowTower(n, n, den);
    assert n * den == den * n;
    PowMonotone(Pow(n, n), right, den);
    PowProduct(Pow(2, e), p, den);
    PowTower(2, e, den);
  }

  /** The decision in full: no exactly if the entropy is below the threshold; no if half of the bytes
      agree; and if every value makes up a fraction 1 / 2^l, the comparison of the mean of l with 7 or
      39/5. */
  lemma {:induction false} EntropyDecides(read: seq<Byte>, size: nat)
    requires |read| > 0
    ensures !Accepts(read, size) <==> exists scale, l :: EntropyUnder(read, size, scale, l)
    ensures Accepts(read, size) ==> forall b: Byte :: 2 * multiset(read)[b] < |read|
    ensures forall l :: Dyadic(read, l) ==>
      (Accepts(read, size) <==> if size < 1024 then Weighted(Histogram(read), l) >= 7 * |read|
                                else 5 * Weighted(Histogram(read), l) >= 39 * |read|)
  {
    RejectedIff(read, size);
    forall b: Byte | 2 * multiset(read)[b] >= |read|
      ensures !Accepts(read, size)
    {
      MajorityRejected(read, size, b);
    }
    forall l | Dyadic(read, l)
      ensures Accepts(read, size) <==> if size < 1024 then Weighted(Histogram(read), l) >= 7 * |read|
                                       else 5 * Weighted(Histogram(read), l) >= 39 * |read|
    {
      DyadicAcceptedIff(read, size, l);
    }
  }

  lemma {:induction false} LessTimes(a: nat, b: nat, n: nat)
    requires a < b && n > 0
    ensures a * n < b * n
  {
  }
}
