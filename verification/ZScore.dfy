/** The z-score anomaly test on the timeline: a window is an outlier when
    the absolute z-score of its count, `stats.zscore` with the population
    standard deviation, exceeds 2.  Over counts `c` with `n = |c|`,
    `S = Σ c` and `Q = Σ c²` that is exactly `(n·c[i] − S)² > 4·(n·Q − S²)`,
    which needs no floating point.  The real-valued mean and variance are
    kept as the reference the integer test is proved against. */
module ZScore {
  import opened TimeBuckets

  function Sum(c: seq<int>): int
  {
    if c == [] then 0 else Sum(c[..|c| - 1]) + c[|c| - 1]
  }

  function SumSq(c: seq<int>): int
  {
    if c == [] then 0 else SumSq(c[..|c| - 1]) + c[|c| - 1] * c[|c| - 1]
  }

  /** `e² > 4·d`: a deviation `e` lies more than twice `√d` away. */
  predicate BeyondTwo(e: int, d: int)
  {
    e * e > 4 * d
  }

  /** `n·c[i] − S`: how far count `i` lies from the mean, scaled by `n`. */
  function Deviation(c: seq<int>, i: int): int
    requires 0 <= i < |c|
  {
    |c| * c[i] - Sum(c)
  }

  /** `n·Q − S²`: the population variance scaled by `n²`. */
  function Spread(c: seq<int>): int
  {
    |c| * SumSq(c) - Sum(c) * Sum(c)
  }

  /** `abs(zscore) > 2` for the count at index `i`, in integers: the
      deviation is scaled by `n` and the variance by `n²`. */
  predicate ZFlagged(c: seq<int>, i: int)
    requires 0 <= i < |c|
  {
    BeyondTwo(Deviation(c, i), Spread(c))
  }

  // ---------------------------------------------------------------------
  // The reference: the z-score over the reals.

  /** The counts as real numbers. */
  function Reals(c: seq<int>): (r: seq<real>)
    ensures |r| == |c|
    ensures forall j :: 0 <= j < |c| ==> r[j] == c[j] as real
  {
    seq(|c|, j requires 0 <= j < |c| => c[j] as real)
  }

  function RSum(r: seq<real>): real
  {
    if r == [] then 0.0 else RSum(r[..|r| - 1]) + r[|r| - 1]
  }

  function RSumSq(r: seq<real>): real
  {
    if r == [] then 0.0 else RSumSq(r[..|r| - 1]) + r[|r| - 1] * r[|r| - 1]
  }

  /** `Σ (r[j] − mu)²`. */
  ghost function SqDev(r: seq<real>, mu: real): real
  {
    if r == [] then 0.0
    else SqDev(r[..|r| - 1], mu) + (r[|r| - 1] - mu) * (r[|r| - 1] - mu)
  }

  ghost function Mean(c: seq<int>): real
    requires |c| > 0
  {
    RSum(Reals(c)) / |c| as real
  }

  /** Population variance (`ddof=0`). */
  ghost function Variance(c: seq<int>): real
    requires |c| > 0
  {
    SqDev(Reals(c), Mean(c)) / |c| as real
  }

  /** `abs((c[i] − mean) / std) > 2`.  With a zero standard deviation the
      quotient is NaN and the comparison is false. */
  ghost predicate AbsZAboveTwo(c: seq<int>, i: int)
    requires 0 <= i < |c|
  {
    Variance(c) > 0.0 && RealBeyondTwo(c[i] as real - Mean(c), Variance(c))
  }

  /** `x² > 4·v`, i.e. `|x| > 2·√v`. */
  ghost predicate RealBeyondTwo(x: real, v: real)
  {
    x * x > 4.0 * v
  }

  // ---------------------------------------------------------------------
  // Scalar algebra used below.

  lemma CastMul(a: int, b: int)
    ensures (a * b) as real == a as real * b as real
  {
  }

  /** One step of the expansion `Σ (r − mu)² = Q − 2·mu·S + n·mu²`. */
  lemma ExpandStep(d0: real, q0: real, s0: real, n0: real, x: real, mu: real, d: real, q: real, s: real, n: real)
    requires d0 == q0 - 2.0 * mu * s0 + n0 * mu * mu
    requires d == d0 + (x - mu) * (x - mu) && q == q0 + x * x && s == s0 + x && n == n0 + 1.0
    ensures d == q - 2.0 * mu * s + n * mu * mu
  {
  }

  lemma SquareNonneg(z: int)
    ensures z * z >= 0
  {
  }

  lemma RealSquareNonneg(z: real)
    ensures z * z >= 0.0
  {
  }

  /** `n²·v`, and `n·q − s²`: named, so that the step below and its caller
      share these terms instead of matching products. */
  function ScaledBy(n: real, v: real): real {
    n * n * v
  }

  function Gap(n: real, q: real, s: real): real {
    n * q - s * s
  }

  /** With `mu·n = s` and `v·n = q − 2·mu·s + n·mu²`: `n²·v = n·q − s²`. */
  lemma VarianceStep(n: real, s: real, q: real, mu: real, d: real, v: real)
    requires mu * n == s && d == q - 2.0 * mu * s + n * mu * mu && v * n == d
    ensures ScaledBy(n, v) == Gap(n, q, s)
  {
    assert n * (n * mu * mu) == (mu * n) * (mu * n);
    assert n * (2.0 * mu * s) == 2.0 * s * (mu * n);
    assert n * d == n * q - s * s;
  }

  /** Casting `n·q − s²` from the integers. */
  lemma CastScaled(n: int, q: int, s: int)
    ensures (n * q - s * s) as real == n as real * q as real - s as real * s as real
  {
    CastMul(n, q);
    CastMul(s, s);
  }

  /** `n·(c − mu) = n·c − S` when `mu = S / n`. */
  lemma DeviationScaled(ni: int, ci: int, si: int, n: real, mu: real)
    requires n == ni as real && mu * n == si as real
    ensures n * (ci as real - mu) == (ni * ci - si) as real
  {
    CastMul(ni, ci);
  }

  lemma CastCompare(e: int, dd: int)
    ensures BeyondTwo(e, dd) <==> RealBeyondTwo(e as real, dd as real)
  {
    CastMul(e, e);
  }

  lemma NonnegQuotient(d: real, n: real)
    requires d >= 0.0 && n > 0.0
    ensures d / n >= 0.0
  {
  }

  lemma ScaleOnce(n: real, a: real, b: real)
    requires n > 0.0
    ensures n * a > n * b <==> a > b
  {
    assert n * a - n * b == n * (a - b);
  }

  /** Scaling `(y − mu)² > 4·v` by `n² > 0` turns it into `e² > 4·dd`. */
  lemma FlagScale(n: real, y: real, mu: real, v: real, e: real, dd: real)
    requires n > 0.0 && n * n * v == dd && n * y - n * mu == e
    ensures RealBeyondTwo(e, dd) <==> RealBeyondTwo(y - mu, v)
  {
    var x := y - mu;
    assert n * x == e;
    var a, b := x * x, 4.0 * v;
    var na, nb := n * a, n * b;
    ScaleOnce(n, a, b);
    ScaleOnce(n, na, nb);
    assert e * e == n * na;
    assert 4.0 * dd == n * nb;
  }

  /** The integer test on `e` and `dd` is the real test on the deviation
      `y − mu` and the variance `v` they scale. */
  lemma ScaledFlag(n: real, y: real, mu: real, v: real, e: int, dd: int)
    requires n > 0.0 && n * n * v == dd as real && n * y - n * mu == e as real
    ensures BeyondTwo(e, dd) <==> RealBeyondTwo(y - mu, v)
  {
    CastCompare(e, dd);
    FlagScale(n, y, mu, v, e as real, dd as real);
  }

  lemma ZeroSpread(n: real, v: real, dd: real)
    requires v == 0.0 && n * n * v == dd
    ensures dd == 0.0
  {
  }

  /** With no spread at all, Samuelson's bound leaves no deviation. */
  lemma NoSpreadNoFlag(e: int, k: int, dd: int)
    requires dd == 0 && e * e <= k * dd
    ensures !BeyondTwo(e, dd)
  {
  }

  lemma PositiveFactor(k: int, y: int)
    requires k > 0 && k * y >= 0
    ensures y >= 0
  {
  }

  lemma CauchySchwarzIdentity(k: int, r: int, p: int, x: int)
    ensures k * (p + k * x * x - 2 * r * x) - (r - k * x) * (r - k * x) == k * p - r * r
  {
  }

  lemma CauchySchwarzGap(k: int, r: int, p: int, x: int)
    ensures (k + 1) * (p + x * x) - (r + x) * (r + x) == (k * p - r * r) + (p + k * x * x - 2 * r * x)
  {
  }

  /** One step of Cauchy–Schwarz: from `r² ≤ k·p` to `(r + x)² ≤ (k + 1)·(p + x²)`. */
  lemma CauchySchwarzStep(k: int, r: int, p: int, x: int)
    requires k >= 0 && p >= 0 && r * r <= k * p
    requires k == 0 ==> r == 0
    ensures (r + x) * (r + x) <= (k + 1) * (p + x * x)
  {
    // With y = p + k·x² − 2·r·x: k·y = (k·p − r²) + (r − k·x)² ≥ 0.
    var y := p + k * x * x - 2 * r * x;
    if k > 0 {
      CauchySchwarzIdentity(k, r, p, x);
      SquareNonneg(r - k * x);
      PositiveFactor(k, y);
    } else {
      assert y == p;
    }
    CauchySchwarzGap(k, r, p, x);
  }

  /** Samuelson's step: removing the count `x` leaves `m` counts with sum
      `s'` and sum of squares `q'`, and the gap between the two sides is
      `(m + 1)·(m·q' − s'²)`. */
  lemma SamuelsonStep(n: int, x: int, s: int, q: int, m: int, s': int, q': int)
    requires m >= 0 && n == m + 1 && s == s' + x && q == q' + x * x
    requires s' * s' <= m * q'
    ensures (n * x - s) * (n * x - s) <= (n - 1) * (n * q - s * s)
  {
    var lhs := (m * x - s') * (m * x - s');
    var rhs := m * ((m + 1) * (q' + x * x) - (s' + x) * (s' + x));
    assert rhs - lhs == (m + 1) * (m * q' - s' * s');
    assert (m + 1) * (m * q' - s' * s') >= 0;
    assert n * x - s == m * x - s';
    assert n * q - s * s == (m + 1) * (q' + x * x) - (s' + x) * (s' + x);
  }

  lemma FewStep(n: int, e: int, d: int)
    requires n <= 5 && d >= 0 && e * e <= (n - 1) * d
    ensures !BeyondTwo(e, d)
  {
    assert (n - 1) * d <= 4 * d;
  }

  // ---------------------------------------------------------------------
  // The integer test is the z-score test.

  lemma {:induction false} SumSqNonneg(c: seq<int>)
    ensures SumSq(c) >= 0
  {
    if c != [] {
      SumSqNonneg(c[..|c| - 1]);
      SquareNonneg(c[|c| - 1]);
    }
  }

  /** The real sums are the integer sums. */
  lemma {:induction false} RealSums(c: seq<int>)
    ensures RSum(Reals(c)) == Sum(c) as real
    ensures RSumSq(Reals(c)) == SumSq(c) as real
  {
    if c != [] {
      var init := c[..|c| - 1];
      RealSums(init);
      assert Reals(c)[..|c| - 1] == Reals(init);
      CastMul(c[|c| - 1], c[|c| - 1]);
    }
  }

  /** `Σ (r − mu)² = Q − 2·mu·S + n·mu²`, with `n` the length of `r`. */
  lemma {:induction false} SqDevExpand(r: seq<real>, mu: real, n: real)
    requires n == |r| as real
    ensures SqDev(r, mu) == RSumSq(r) - 2.0 * mu * RSum(r) + n * mu * mu
  {
    if r != [] {
      var init := r[..|r| - 1];
      SqDevExpand(init, mu, |init| as real);
      var d0, q0, s0 := SqDev(init, mu), RSumSq(init), RSum(init);
      var x := r[|r| - 1];
      var d, q, s := SqDev(r, mu), RSumSq(r), RSum(r);
      assert d == d0 + (x - mu) * (x - mu);
      assert q == q0 + x * x;
      assert s == s0 + x;
      ExpandStep(d0, q0, s0, |init| as real, x, mu, d, q, s, n);
    }
  }

  lemma {:induction false} SqDevNonneg(r: seq<real>, mu: real)
    ensures SqDev(r, mu) >= 0.0
  {
    if r != [] {
      SqDevNonneg(r[..|r| - 1], mu);
      RealSquareNonneg(r[|r| - 1] - mu);
    }
  }

  lemma {:induction false} MeanTimesLength(c: seq<int>)
    requires |c| > 0
    ensures Mean(c) * |c| as real == Sum(c) as real
  {
    RealSums(c);
  }

  lemma {:induction false} VarianceTimesLength(c: seq<int>)
    requires |c| > 0
    ensures Variance(c) * |c| as real == SqDev(Reals(c), Mean(c))
  {
  }

  /** `Σ (c[j] − mu)² = Q − 2·mu·S + n·mu²` over the counts. */
  lemma {:induction false} SqDevOfCounts(c: seq<int>, mu: real)
    ensures SqDev(Reals(c), mu) == SumSq(c) as real - 2.0 * mu * Sum(c) as real + |c| as real * mu * mu
  {
    SqDevExpand(Reals(c), mu, |c| as real);
    RealSums(c);
  }

  lemma {:induction false} SpreadAsReal(c: seq<int>)
    ensures Spread(c) as real == Gap(|c| as real, SumSq(c) as real, Sum(c) as real)
  {
    CastScaled(|c|, SumSq(c), Sum(c));
  }

  /** `n² · Variance = n·Q − S²`, over the reals. */
  lemma {:induction false} VarianceOfCounts(c: seq<int>)
    requires |c| > 0
    ensures ScaledBy(|c| as real, Variance(c)) == Gap(|c| as real, SumSq(c) as real, Sum(c) as real)
  {
    SqDevOfCounts(c, Mean(c));
    MeanTimesLength(c);
    VarianceTimesLength(c);
    VarianceStep(|c| as real, Sum(c) as real, SumSq(c) as real, Mean(c), SqDev(Reals(c), Mean(c)), Variance(c));
  }

  /** `n² · Variance = n·Q − S²`: the spread is the variance scaled by `n²`. */
  lemma {:induction false} VarianceScaled(c: seq<int>)
    requires |c| > 0
    ensures |c| as real * |c| as real * Variance(c) == Spread(c) as real
  {
    VarianceOfCounts(c);
    SpreadAsReal(c);
  }

  /** The variance is never negative. */
  lemma {:induction false} VarianceNonneg(c: seq<int>)
    requires |c| > 0
    ensures Variance(c) >= 0.0
  {
    SqDevNonneg(Reals(c), Mean(c));
    NonnegQuotient(SqDev(Reals(c), Mean(c)), |c| as real);
  }

  /** `n · (c[i] − mean) = n·c[i] − S`. */
  lemma {:induction false} DeviationOfMean(c: seq<int>, i: int)
    requires 0 <= i < |c|
    ensures |c| as real * (c[i] as real) - |c| as real * Mean(c) == Deviation(c, i) as real
  {
    MeanTimesLength(c);
    DeviationScaled(|c|, c[i], Sum(c), |c| as real, Mean(c));
  }

  /** With zero variance no count deviates at all, so nothing is flagged. */
  lemma {:induction false} ZeroVarianceNoFlag(c: seq<int>, i: int)
    requires 0 <= i < |c| && Variance(c) == 0.0
    ensures !ZFlagged(c, i)
  {
    VarianceScaled(c);
    ZeroSpread(|c| as real, Variance(c), Spread(c) as real);
    ZBound(c, i);
    NoSpreadNoFlag(Deviation(c, i), |c| - 1, Spread(c));
  }

  /** With a positive variance, the scaled integer test and the real
      one agree. */
  lemma {:induction false} PositiveVarianceFlag(c: seq<int>, i: int)
    requires 0 <= i < |c| && Variance(c) > 0.0
    ensures ZFlagged(c, i) <==> RealBeyondTwo(c[i] as real - Mean(c), Variance(c))
  {
    VarianceScaled(c);
    DeviationOfMean(c, i);
    ScaledFlag(|c| as real, c[i] as real, Mean(c), Variance(c), Deviation(c, i), Spread(c));
  }

  /** The flag is exactly the z-score test: `|z_i| > 2` holds if and only
      if `(n·c[i] − S)² > 4·(n·Q − S²)`. */
  lemma {:induction false} ZFlagMatchesZScore(c: seq<int>, i: int)
    requires 0 <= i < |c|
    ensures ZFlagged(c, i) <==> AbsZAboveTwo(c, i)
  {
    VarianceNonneg(c);
    if Variance(c) == 0.0 {
      ZeroVarianceNoFlag(c, i);
    } else {
      PositiveVarianceFlag(c, i);
    }
  }

  // ---------------------------------------------------------------------
  // Consequences.

  lemma {:induction false} ConstantSums(c: seq<int>, v: int)
    requires forall j :: 0 <= j < |c| ==> c[j] == v
    ensures Sum(c) == |c| * v && SumSq(c) == |c| * (v * v)
  {
    if c != [] {
      ConstantSums(c[..|c| - 1], v);
    }
  }

  /** When every window has the same count, including the case of a single
      window, nothing is flagged. */
  lemma {:induction false} AllEqualNeverFlagged(c: seq<int>, i: int)
    requires 0 <= i < |c|
    requires forall j :: 0 <= j < |c| ==> c[j] == c[0]
    ensures !ZFlagged(c, i)
  {
    var v := c[0];
    var n := |c|;
    ConstantSums(c, v);
    assert n * c[i] - Sum(c) == 0;
    assert n * (n * (v * v)) == (n * v) * (n * v);
  }

  lemma {:induction false} SumAppend(a: seq<int>, b: seq<int>)
    ensures Sum(a + b) == Sum(a) + Sum(b)
    ensures SumSq(a + b) == SumSq(a) + SumSq(b)
  {
    if b == [] {
      assert a + b == a;
    } else {
      var init := b[..|b| - 1];
      SumAppend(a, init);
      assert (a + b)[..|a + b| - 1] == a + init;
      assert (a + b)[|a + b| - 1] == b[|b| - 1];
    }
  }

  /** Cauchy–Schwarz for sums: `(Σ a)² ≤ |a| · Σ a²`, so `n·Q − S² ≥ 0`. */
  lemma {:induction false} CauchySchwarz(a: seq<int>)
    ensures Sum(a) * Sum(a) <= |a| * SumSq(a)
  {
    if a != [] {
      var init := a[..|a| - 1];
      CauchySchwarz(init);
      SumSqNonneg(init);
      CauchySchwarzStep(|init|, Sum(init), SumSq(init), a[|a| - 1]);
    }
  }

  /** Samuelson's bound: a count is never further than `√(n − 1)` standard
      deviations from the mean, i.e. `(n·c[i] − S)² ≤ (n − 1)·(n·Q − S²)`. */
  lemma {:induction false} ZBound(c: seq<int>, i: int)
    requires 0 <= i < |c|
    ensures Deviation(c, i) * Deviation(c, i) <= (|c| - 1) * Spread(c)
  {
    var a, b := c[..i], c[i + 1..];
    var rest := a + b;
    assert c == (a + [c[i]]) + b;
    SumAppend(a + [c[i]], b);
    SumAppend(a, [c[i]]);
    SumAppend(a, b);
    assert [c[i]][..0] == [];
    var s, q, s', q' := Sum(c), SumSq(c), Sum(rest), SumSq(rest);
    assert s == s' + c[i];
    assert q == q' + c[i] * c[i];
    CauchySchwarz(rest);
    SamuelsonStep(|c|, c[i], s, q, |rest|, s', q');
  }

  /** With five windows or fewer no count can be flagged: `√(n − 1) ≤ 2`. */
  lemma {:induction false} FewWindowsNeverFlagged(c: seq<int>, i: int)
    requires 0 <= i < |c| <= 5
    ensures !ZFlagged(c, i)
  {
    ZBound(c, i);
    CauchySchwarz(c);
    FewStep(|c|, Deviation(c, i), Spread(c));
  }

  /** A spike among six windows is flagged, and only the spike:
      counts 5, 5, 5, 50, 5, 5 flag index 3 alone. */
  lemma {:induction false} SpikeFlagged()
    ensures ZFlagged([5, 5, 5, 50, 5, 5], 3)
    ensures forall j :: 0 <= j < 6 && j != 3 ==> !ZFlagged([5, 5, 5, 50, 5, 5], j)
  {
    var c := [5, 5, 5, 50, 5, 5];
    var c1, c2, c3, c4, c5 := [5], [5, 5], [5, 5, 5], [5, 5, 5, 50], [5, 5, 5, 50, 5];
    assert c1[..0] == [] && c2[..1] == c1 && c3[..2] == c2 && c4[..3] == c3 && c5[..4] == c4 && c[..5] == c5;
    assert Sum(c) == 75;
    assert SumSq(c) == 2625;
  }

  // ---------------------------------------------------------------------
  // The outlier rows of the timeline.

  /** `event_counts["count"]`. */
  function Counts(bs: seq<Bucket>): (c: seq<int>)
    ensures |c| == |bs|
    ensures forall k :: 0 <= k < |bs| ==> c[k] == bs[k].count
  {
    seq(|bs|, k requires 0 <= k < |bs| => bs[k].count)
  }

  /** The flagged rows among the first `m`, in timeline order. */
  function OutliersUpTo(bs: seq<Bucket>, m: nat): (zs: seq<Bucket>)
    requires m <= |bs|
    ensures |zs| <= m
  {
    if m == 0 then []
    else OutliersUpTo(bs, m - 1) + (if ZFlagged(Counts(bs), m - 1) then [bs[m - 1]] else [])
  }

  /** `event_counts[abs(event_counts["zscore"]) > 2]`. */
  function ZOutliers(bs: seq<Bucket>): (zs: seq<Bucket>)
    ensures |zs| <= |bs|
  {
    OutliersUpTo(bs, |bs|)
  }

  lemma {:induction false} OutliersUpToMembers(bs: seq<Bucket>, m: nat, b: Bucket)
    requires m <= |bs|
    ensures b in OutliersUpTo(bs, m) <==> exists k :: 0 <= k < m && bs[k] == b && ZFlagged(Counts(bs), k)
  {
    if m > 0 {
      OutliersUpToMembers(bs, m - 1, b);
    }
  }

  /** Rows in strictly ascending window order; no row occurs twice. */
  ghost predicate Ascending(bs: seq<Bucket>) {
    forall a, b :: 0 <= a < b < |bs| ==> bs[a].start < bs[b].start
  }

  /** Selecting rows of an ascending timeline keeps them ascending. */
  lemma {:induction false} OutliersUpToAscending(bs: seq<Bucket>, m: nat)
    requires m <= |bs| && Ascending(bs)
    ensures Ascending(OutliersUpTo(bs, m))
  {
    if m > 0 {
      OutliersUpToAscending(bs, m - 1);
      var zs := OutliersUpTo(bs, m - 1);
      forall z | z in zs
        ensures z.start < bs[m - 1].start
      {
        OutliersUpToMembers(bs, m - 1, z);
      }
    }
  }

  /** The reported rows of a timeline ascend strictly by window: each
      flagged row is reported once, in timeline order. */
  lemma TimelineOutliersAscend(times: seq<int>)
    ensures Ascending(ZOutliers(Buckets(times)))
  {
    var bs := Buckets(times);
    forall a, b | 0 <= a < b < |bs|
      ensures bs[a].start < bs[b].start
    {
      BucketsAscending(times, a, b);
    }
    OutliersUpToAscending(bs, |bs|);
  }

  /** A row is reported exactly when it is a row of the timeline whose
      count is flagged. */
  lemma {:induction false} ZOutliersMembers(bs: seq<Bucket>, b: Bucket)
    ensures b in ZOutliers(bs) <==> exists k :: 0 <= k < |bs| && bs[k] == b && ZFlagged(Counts(bs), k)
  {
    OutliersUpToMembers(bs, |bs|, b);
  }

  /** A timeline of at most five windows reports no outliers. */
  lemma {:induction false} ShortTimelineNoOutliers(bs: seq<Bucket>)
    requires |bs| <= 5
    ensures ZOutliers(bs) == []
  {
    if ZOutliers(bs) != [] {
      var b := ZOutliers(bs)[0];
      ZOutliersMembers(bs, b);
      var k :| 0 <= k < |bs| && bs[k] == b && ZFlagged(Counts(bs), k);
      FewWindowsNeverFlagged(Counts(bs), k);
    }
  }
}
