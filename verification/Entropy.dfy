/** The Shannon acceptance test of the noise verifier, in exact integers.

    With n bytes read and counts f, the entropy is log n - (sum of f * log f) / n, so
    "entropy >= 7" says 128^n * (product of f^f) <= n^n, and "entropy >= 39/5" says
    2^(39 n) * (product of f^f)^5 <= n^(5 n). No logarithm is needed. */
module Entropy {
  import opened Bytes
  import opened Powers

  // ----- histograms -----

  function Sum(h: seq<nat>): nat {
    if h == [] then 0 else Sum(h[..|h| - 1]) + h[|h| - 1]
  }

  /** The product of f^f over the counts f. */
  function SelfPowers(h: seq<nat>): nat {
    if h == [] then 1 else SelfPowers(h[..|h| - 1]) * Pow(h[|h| - 1], h[|h| - 1])
  }

  /** How many counts are positive. */
  function Support(h: seq<nat>): nat {
    if h == [] then 0 else Support(h[..|h| - 1]) + if h[|h| - 1] > 0 then 1 else 0
  }

  function Histogram(s: seq<Byte>): (h: seq<nat>)
    ensures |h| == 256
    ensures forall v :: 0 <= v < 256 ==> h[v] == multiset(s)[v]
  {
    seq(256, v requires 0 <= v < 256 => multiset(s)[v])
  }

  function Distinct(s: seq<Byte>): set<Byte> {
    set b | b in s
  }

  lemma {:induction false} SumOfBump(h: seq<nat>, i: nat)
    requires i < |h|
    ensures Sum(h[i := h[i] + 1]) == Sum(h) + 1
  {
    var g, n := h[i := h[i] + 1], |h| - 1;
    if i < n {
      assert g[..n] == h[..n][i := h[i] + 1];
      SumOfBump(h[..n], i);
    } else {
      assert g[..n] == h[..n];
    }
  }

  lemma {:induction false} SumOfZeros(h: seq<nat>)
    requires forall i :: 0 <= i < |h| ==> h[i] == 0
    ensures Sum(h) == 0
  {
    if h != [] { SumOfZeros(h[..|h| - 1]); }
  }

  lemma HistogramGrows(s: seq<Byte>, b: Byte)
    ensures Histogram(s + [b]) == Histogram(s)[b := Histogram(s)[b] + 1]
  {
  }

  /** Conservation: the 256 counts add up to the bytes read. */
  lemma {:induction false} HistogramTotal(s: seq<Byte>)
    ensures Sum(Histogram(s)) == |s|
  {
    if s == [] {
      SumOfZeros(Histogram(s));
    } else {
      var n := |s| - 1;
      HistogramTotal(s[..n]);
      assert s == s[..n] + [s[n]];
      HistogramGrows(s[..n], s[n]);
      SumOfBump(Histogram(s[..n]), s[n]);
    }
  }

  lemma {:induction false} SupportIsASet(h: seq<nat>)
    ensures Support(h) == |set i | 0 <= i < |h| && h[i] > 0|
  {
    if h != [] {
      var n := |h| - 1;
      SupportIsASet(h[..n]);
      var here := set i | 0 <= i < |h| && h[i] > 0;
      var below := set i | 0 <= i < n && h[..n][i] > 0;
      assert here == if h[n] > 0 then below + {n} else below;
    }
  }

  lemma SupportCountsDistinct(s: seq<Byte>)
    ensures Support(Histogram(s)) == |Distinct(s)|
  {
    SupportIsASet(Histogram(s));
    assert Distinct(s) == set i | 0 <= i < |Histogram(s)| && Histogram(s)[i] > 0;
  }

  ghost predicate NoRepeat(s: seq<Byte>) {
    forall i, j :: 0 <= i < j < |s| ==> s[i] != s[j]
  }

  lemma NoRepeatStep(head: seq<Byte>, last: Byte)
    ensures NoRepeat(head + [last]) <==> NoRepeat(head) && last !in head
  {
    var s := head + [last];
    if NoRepeat(s) {
      assert forall i :: 0 <= i < |head| ==> head[i] == s[i] && s[i] != s[|head|];
    }
    if NoRepeat(head) && last !in head {
      forall i, j | 0 <= i < j < |s|
        ensures s[i] != s[j]
      {
        assert s[i] == head[i] && head[i] in head;
      }
    }
  }

  /** At most as many distinct bytes as bytes, with equality exactly when none repeats. */
  lemma {:induction false} DistinctBound(s: seq<Byte>)
    ensures |Distinct(s)| <= |s|
    ensures |Distinct(s)| == |s| <==> NoRepeat(s)
  {
    if s != [] {
      var n := |s| - 1;
      var head, last := s[..n], s[n];
      assert s == head + [last];
      DistinctBound(head);
      NoRepeatStep(head, last);
      assert Distinct(s) == Distinct(head) + {last};
      assert last in head <==> last in Distinct(head);
    }
  }

  lemma SubsetSize(a: set<Byte>, b: set<Byte>)
    requires a <= b
    ensures |a| <= |b|
  {
    assert b == a + (b - a);
  }

  // ----- Gibbs' inequality -----

  /** Gibbs' inequality in integers: among k values no histogram of total n beats the uniform one,
      that is n^n <= k^n * (product of f^f). */
  lemma {:induction false} Gibbs(h: seq<nat>)
    ensures Pow(Sum(h), Sum(h)) <= Pow(Support(h), Sum(h)) * SelfPowers(h)
  {
    if h != [] {
      var rest, c := h[..|h| - 1], h[|h| - 1];
      Gibbs(rest);
      var a, k, p := Sum(rest), Support(rest), SelfPowers(rest);
      if c > 0 {
        Merge(a, c, k);
        SupportPositive(rest);
        if a > 0 { PowPositive(k, a); }
        GibbsAlgebra(Pow(a + c, a + c), Pow(k, a), Pow(k + 1, a + c), Pow(a, a), Pow(c, c), p);
      }
    }
  }

  lemma {:induction false} SupportPositive(h: seq<nat>)
    ensures Support(h) == 0 <==> Sum(h) == 0
  {
    if h != [] { SupportPositive(h[..|h| - 1]); }
  }

  lemma GibbsAlgebra(nn: nat, ka: nat, kn: nat, aa: nat, cc: nat, p: nat)
    requires ka > 0
    requires nn * ka <= kn * (aa * cc)
    requires aa <= ka * p
    ensures nn <= kn * (p * cc)
  {
    MulMonotone(aa, ka * p, cc, cc);
    MulMonotone(kn, kn, aa * cc, ka * p * cc);
    assert kn * (ka * p * cc) == ka * (kn * (p * cc));
    Cancel(ka, nn, kn * (p * cc));
  }

  // ----- the acceptance test -----

  /** `entropy >= threshold` for the bytes actually read; `size` only selects the threshold. */
  predicate Accepts(read: seq<Byte>, size: nat) {
    var n, p := |read|, SelfPowers(Histogram(read));
    if size < 1024 then Pow(128, n) * p <= Pow(n, n)
    else Pow(2, 39 * n) * Pow(p, 5) <= Pow(n, 5 * n)
  }

  function Variety(size: nat): nat {
    if size < 1024 then 128 else 223
  }

  /** 222^5 < 2^39 <= 223^5: the threshold 7.80 falls between log 222 and log 223. */
  lemma ThresholdPowers()
    ensures Pow(2, 39) == 549755813888
    ensures Pow(222, 5) < Pow(2, 39) <= Pow(223, 5)
  {
    assert Pow(2, 8) == 256;
    PowAdd(2, 8, 8);
    PowAdd(2, 16, 16);
    assert Pow(2, 7) == 128;
    PowAdd(2, 32, 7);
    assert Pow(222, 5) == 222 * (222 * (222 * (222 * 222)));
    assert Pow(223, 5) == 223 * (223 * (223 * (223 * 223)));
  }

  /** For every k: 2^(39 n) <= k^(5 n) exactly when k is at least 223. */
  lemma HighThreshold(k: nat, n: nat)
    requires n > 0
    ensures Pow(2, 39 * n) <= Pow(k, 5 * n) <==> k >= 223
  {
    PowTower(2, 39, n);
    PowTower(k, 5, n);
    PowOrder(Pow(2, 39), Pow(k, 5), n);
    ThresholdPowers();
    if k >= 223 { PowMonotone(223, k, 5); } else { PowMonotone(k, 222, 5); }
  }

  lemma SelfPowersPositive(h: seq<nat>)
    ensures SelfPowers(h) > 0
  {
    if h != [] {
      var c := h[|h| - 1];
      if c > 0 { PowPositive(c, c); }
      SelfPowersPositive(h[..|h| - 1]);
      NonZero(SelfPowers(h[..|h| - 1]), Pow(c, c));
    }
  }

  lemma NonZero(a: nat, b: nat)
    requires a > 0 && b > 0
    ensures a * b > 0
  {
  }

  /** An accepting check certifies variety: the bytes read hold at least 128 distinct
      values, and at least 223 when the file has 1024 bytes or more. */
  lemma AcceptanceCertifiesVariety(read: seq<Byte>, size: nat)
    requires |read| > 0
    requires Accepts(read, size)
    ensures |Distinct(read)| >= Variety(size)
  {
    var h := Histogram(read);
    var n, k, p := |read|, Support(h), SelfPowers(h);
    HistogramTotal(read);
    SupportCountsDistinct(read);
    Gibbs(h);
    SelfPowersPositive(h);
    if size < 1024 {
      Cancel(p, Pow(128, n), Pow(k, n));
      PowOrder(128, k, n);
    } else {
      FifthPower(n, k, p);
      PowPositive(p, 5);
      Cancel(Pow(p, 5), Pow(2, 39 * n), Pow(k, 5 * n));
      HighThreshold(k, n);
    }
  }

  lemma FifthPower(n: nat, k: nat, p: nat)
    requires Pow(n, n) <= Pow(k, n) * p
    ensures Pow(n, 5 * n) <= Pow(k, 5 * n) * Pow(p, 5)
  {
    PowTower(n, n, 5);
    PowTower(k, n, 5);
    PowProduct(Pow(k, n), p, 5);
    PowMonotone(Pow(n, n), Pow(k, n) * p, 5);
  }

  // ----- the bound is met: evenly spread bytes -----

  /** Every byte value that occurs at all occurs exactly m times. */
  ghost predicate Even(s: seq<Byte>, m: nat) {
    forall b :: b in s ==> multiset(s)[b] == m
  }

  lemma DistributeOne(m: int, k: int)
    ensures m * (k + 1) == m * k + m
  {
  }

  lemma {:induction false} EvenHistogram(h: seq<nat>, m: nat)
    requires m > 0
    requires forall i :: 0 <= i < |h| ==> h[i] == 0 || h[i] == m
    ensures Sum(h) == m * Support(h)
    ensures SelfPowers(h) == Pow(m, Sum(h))
  {
    if h != [] {
      var rest, c := h[..|h| - 1], h[|h| - 1];
      EvenHistogram(rest, m);
      PowAdd(m, Sum(rest), c);
      DistributeOne(m, Support(rest));
    }
  }

  /** The certified variety is also sufficient when the bytes are evenly spread, so neither
      128 nor 223 can be improved. */
  lemma EvenBytesAccepted(read: seq<Byte>, size: nat, m: nat)
    requires |read| > 0 && Even(read, m)
    ensures Accepts(read, size) <==> |Distinct(read)| >= Variety(size)
  {
    assert read[0] in read;
    var h := Histogram(read);
    var n, k := |read|, Support(h);
    HistogramTotal(read);
    SupportCountsDistinct(read);
    assert m > 0;
    EvenHistogram(h, m);
    var p := SelfPowers(h);
    PowProduct(m, k, n);
    PowPositive(m, n);
    if size < 1024 {
      Cancel(p, Pow(128, n), Pow(k, n));
      PowOrder(128, k, n);
    } else {
      PowTower(n, n, 5);
      PowProduct(p, Pow(k, n), 5);
      PowTower(k, n, 5);
      PowPositive(p, 5);
      Cancel(Pow(p, 5), Pow(2, 39 * n), Pow(k, 5 * n));
      HighThreshold(k, n);
    }
  }

  // ----- small files -----

  /** No read of 1 to 127 bytes is ever accepted. */
  lemma SmallReadRejected(read: seq<Byte>, size: nat)
    requires 0 < |read| < 128
    ensures !Accepts(read, size)
  {
    if Accepts(read, size) {
      AcceptanceCertifiesVariety(read, size);
      DistinctBound(read);
    }
  }

  /** A 128-byte file is accepted exactly when no byte value repeats. */
  lemma ExactlyAllDistinctAt128(read: seq<Byte>)
    requires |read| == 128
    ensures Accepts(read, 128) <==> NoRepeat(read)
  {
    DistinctBound(read);
    if NoRepeat(read) {
      forall b | b in read
        ensures multiset(read)[b] == 1
      {
        OccursOnce(read, b);
      }
      EvenBytesAccepted(read, 128, 1);
    } else if Accepts(read, 128) {
      AcceptanceCertifiesVariety(read, 128);
    }
  }

  lemma {:induction false} OccursOnce(s: seq<Byte>, b: Byte)
    requires NoRepeat(s)
    ensures multiset(s)[b] == if b in s then 1 else 0
  {
    if s != [] {
      var n := |s| - 1;
      assert s == s[..n] + [s[n]];
      NoRepeatStep(s[..n], s[n]);
      OccursOnce(s[..n], b);
    }
  }

  // ----- partial reads -----

  /** The byte values 0 to n - 1, once each. */
  function Counting(n: nat): (s: seq<Byte>)
    requires n <= 256
    ensures |s| == n && forall i :: 0 <= i < n ==> s[i] == i
  {
    seq(n, i requires 0 <= i < n => i)
  }

  lemma CountingAccepted(n: nat, size: nat)
    requires Variety(size) <= n <= 256
    ensures Accepts(Counting(n), size)
  {
    var s := Counting(n);
    DistinctBound(s);
    forall b | b in s
      ensures multiset(s)[b] == 1
    {
      OccursOnce(s, b);
    }
    EvenBytesAccepted(s, size, 1);
  }

  /** The shortest read with the variety that a file of more than 128 bytes calls for. */
  function ShortRead(size: nat): (s: seq<Byte>)
    ensures size > 128 ==> 0 < |s| < size
  {
    Counting(Variety(size))
  }

  /** Nothing asks whether all `size` bytes were read, so a partial read can be accepted, and this
      is possible exactly for files of more than 128 bytes. */
  lemma PartialReadAcceptedIff(size: nat)
    ensures (exists read: seq<Byte> :: 0 < |read| < size && Accepts(read, size)) <==> size > 128
    ensures size > 128 ==> Accepts(ShortRead(size), size)
  {
    CountingAccepted(Variety(size), size);
    if size > 128 {
      assert 0 < |ShortRead(size)| < size && Accepts(ShortRead(size), size);
    }
    forall read: seq<Byte> | 0 < |read| < size && Accepts(read, size)
      ensures size > 128
    {
      if |read| < 128 { SmallReadRejected(read, size); }
    }
  }
}
