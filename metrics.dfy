/** The similarity scores of one match set: the sum of absolute differences
    (SAD), the sum of squared differences (SSD), the normalised
    cross-correlation (NCC) and their inverse-variance weighted variants.
    Each score is `None` where the floating-point computation yields a
    non-finite value (a division of zero by zero, or by zero). */
module Metrics {
  import opened Wrappers

  /** `std::numeric_limits<unsigned short>::max()`, the scale by which the
      mean-centred elevations are divided before they are compared. */
  const Range: real := 65535.0

  /** The recorded pairs of one successful match: live elevations, reference
      elevations, live inverse variances (`None` where the variance is
      undefined or zero) and the two means. */
  datatype MatchSet = MatchSet(shifted: seq<real>, reference: seq<real>, weights: seq<Option<real>>,
                               shiftedMean: real, referenceMean: real)
  {
    predicate Valid() {
      |shifted| == |reference| == |weights|
    }

    function Count(): nat {
      |shifted|
    }

    /** The k-th live elevation minus the live mean. */
    function LiveDev(k: nat): real
      requires Valid() && k < Count()
    {
      shifted[k] - shiftedMean
    }

    /** The k-th reference elevation minus the reference mean. */
    function RefDev(k: nat): real
      requires Valid() && k < Count()
    {
      reference[k] - referenceMean
    }

    /** The difference of the two range-normalised centred elevations. */
    function Residual(k: nat): real
      requires Valid() && k < Count()
    {
      LiveDev(k) / Range - RefDev(k) / Range
    }

    /** Every recorded pair has a live value equal to its reference value
        once both are centred on their means. */
    predicate CentredEqual()
      requires Valid()
    {
      forall k | 0 <= k < Count() :: LiveDev(k) == RefDev(k)
    }

    /** Every recorded weight is defined. */
    predicate Weighted() {
      Valid() && forall k | 0 <= k < |weights| :: weights[k].Some?
    }

    /** The k-th weight; an undefined weight reads as 0, which never
        matters because every weighted score using it is undefined. */
    function Weight(k: nat): real
      requires Valid() && k < Count()
    {
      if weights[k].Some? then weights[k].value else 0.0
    }

    predicate PositiveWeights() {
      Weighted() && forall k | 0 <= k < |weights| :: weights[k].value > 0.0
    }
  }

  function Abs(x: real): real {
    if x < 0.0 then -x else x
  }

  lemma MulNonNegative(a: real, b: real)
    requires a >= 0.0 && b >= 0.0
    ensures a * b >= 0.0
  {
  }

  lemma MulPositive(a: real, b: real)
    requires a > 0.0 && b > 0.0
    ensures a * b > 0.0
  {
  }

  lemma ZeroProduct(a: real, b: real)
    requires a * b == 0.0
    ensures a == 0.0 || b == 0.0
  {
    if a != 0.0 {
      assert b == (a * b) / a;
    }
  }

  lemma SquareNonNegative(x: real)
    ensures x * x >= 0.0
  {
    if x < 0.0 {
      MulPositive(-x, -x);
      assert x * x == (-x) * (-x);
    }
  }

  lemma MulNegative(a: real, b: real)
    requires a < 0.0 && b < 0.0
    ensures a * b > 0.0
  {
    MulPositive(-a, -b);
    assert a * b == (-a) * (-b);
  }

  lemma PositiveFactor(p: real, q: real)
    requires p > 0.0 && p * q >= 0.0
    ensures q >= 0.0
  {
    if q < 0.0 {
      MulPositive(p, -q);
      assert false;
    }
  }

  /** A non-zero value squares to a positive one (stated, like ZeroSquare,
      on a product of two equal factors). */
  lemma PositiveSquare(t: real, x: real, y: real)
    requires x == y && x != 0.0 && t == x * y
    ensures t > 0.0
  {
    if x > 0.0 {
      MulPositive(x, y);
      assert x * y > 0.0 && t == x * y;
    } else {
      MulNegative(x, y);
      assert x * y > 0.0 && t == x * y;
    }
  }

  /** Only zero squares to zero (stated on a product of two equal factors,
      which the solver handles better than a literal square). */
  lemma ZeroSquare(x: real, y: real)
    requires x == y && x * y == 0.0
    ensures x == 0.0
  {
    ZeroProduct(x, y);
  }

  /** The sum of the first n elements. */
  function SumTo(s: seq<real>, n: nat): real
    requires n <= |s|
  {
    if n == 0 then 0.0 else SumTo(s, n - 1) + s[n - 1]
  }

  function Sum(s: seq<real>): real {
    SumTo(s, |s|)
  }

  /** A prefix sum only depends on the elements it covers. */
  lemma {:induction false} SumToPrefix(s: seq<real>, t: seq<real>, n: nat)
    requires n <= |s| && n <= |t|
    requires forall k | 0 <= k < n :: s[k] == t[k]
    ensures SumTo(s, n) == SumTo(t, n)
  {
    if n > 0 {
      SumToPrefix(s, t, n - 1);
    }
  }

  /** Appending a value adds it to the sum, as the running sums of the
      matcher do. */
  lemma SumAppend(s: seq<real>, x: real)
    ensures Sum(s + [x]) == Sum(s) + x
  {
    SumToPrefix(s + [x], s, |s|);
  }

  /** A sum of non-negative terms is non-negative, and zero exactly when
      every term is zero. */
  lemma {:induction false} SumOfNonNegative(s: seq<real>, n: nat)
    requires n <= |s|
    requires forall k | 0 <= k < |s| :: s[k] >= 0.0
    ensures SumTo(s, n) >= 0.0
    ensures SumTo(s, n) == 0.0 <==> forall k | 0 <= k < n :: s[k] == 0.0
  {
    if n > 0 {
      SumOfNonNegative(s, n - 1);
    }
  }

  /** The arithmetic mean; the mean of nothing is taken to be 0. */
  function Mean(s: seq<real>): real {
    if |s| == 0 then 0.0 else Sum(s) / |s| as real
  }

  function Centred(s: seq<real>, c: real): (t: seq<real>)
    ensures |t| == |s|
  {
    seq(|s|, k requires 0 <= k < |s| => s[k] - c)
  }

  lemma {:induction false} SumOfCentred(s: seq<real>, c: real, n: nat)
    requires n <= |s|
    ensures SumTo(Centred(s, c), n) == SumTo(s, n) - n as real * c
  {
    if n > 0 {
      SumOfCentred(s, c, n - 1);
    }
  }

  /** The deviations from the mean cancel out: the mean is the point the
      values balance on. */
  lemma MeanBalances(s: seq<real>)
    requires |s| > 0
    ensures Sum(Centred(s, Mean(s))) == 0.0
  {
    SumOfCentred(s, Mean(s), |s|);
  }

  /* ---------------- SAD and SSD ---------------- */

  function AbsTerms(m: MatchSet): (t: seq<real>)
    requires m.Valid()
    ensures |t| == m.Count()
  {
    seq(m.Count(), k requires 0 <= k < m.Count() => Abs(m.Residual(k)))
  }

  function SqTerms(m: MatchSet): (t: seq<real>)
    requires m.Valid()
    ensures |t| == m.Count()
  {
    seq(m.Count(), k requires 0 <= k < m.Count() => m.Residual(k) * m.Residual(k))
  }

  /** A residual is zero exactly when the centred values agree. */
  lemma ResidualZero(m: MatchSet, k: nat)
    requires m.Valid() && k < m.Count()
    ensures m.Residual(k) == 0.0 <==> m.LiveDev(k) == m.RefDev(k)
  {
  }

  /** `errorSAD`: the mean absolute residual; undefined (0/0) for an empty
      match set. */
  function Sad(m: MatchSet): (r: Option<real>)
    requires m.Valid()
    ensures r.None? <==> m.Count() == 0
    ensures r.Some? ==> r.value >= 0.0
  {
    if m.Count() == 0 then None
    else
      SumOfNonNegative(AbsTerms(m), m.Count());
      Some(Sum(AbsTerms(m)) / m.Count() as real)
  }

  /** `errorSSD`: the mean squared residual; undefined for an empty set. */
  function Ssd(m: MatchSet): (r: Option<real>)
    requires m.Valid()
    ensures r.None? <==> m.Count() == 0
    ensures r.Some? ==> r.value >= 0.0
  {
    if m.Count() == 0 then None
    else
      forall k | 0 <= k < m.Count() ensures SqTerms(m)[k] >= 0.0 {
        SquareNonNegative(m.Residual(k));
      }
      SumOfNonNegative(SqTerms(m), m.Count());
      Some(Sum(SqTerms(m)) / m.Count() as real)
  }

  /** SAD is zero exactly when every centred live value equals its centred
      reference value. */
  lemma SadZeroIffCentredEqual(m: MatchSet)
    requires m.Valid() && m.Count() > 0
    ensures Sad(m) == Some(0.0) <==> m.CentredEqual()
  {
    var t := AbsTerms(m);
    SumOfNonNegative(t, |t|);
    forall k | 0 <= k < m.Count() ensures t[k] == 0.0 <==> m.LiveDev(k) == m.RefDev(k) {
      ResidualZero(m, k);
    }
  }

  /** SSD is zero exactly when every centred live value equals its centred
      reference value. */
  lemma SsdZeroIffCentredEqual(m: MatchSet)
    requires m.Valid() && m.Count() > 0
    ensures Ssd(m) == Some(0.0) <==> m.CentredEqual()
  {
    var t := SqTerms(m);
    SumOfNonNegative(t, |t|);
    forall k | 0 <= k < m.Count() ensures t[k] == 0.0 <==> m.LiveDev(k) == m.RefDev(k) {
      ResidualZero(m, k);
      if t[k] == 0.0 {
        ZeroSquare(m.Residual(k), m.Residual(k));
      }
    }
  }

  /* ---------------- weighted SAD and SSD ---------------- */

  function WeightValues(m: MatchSet): (t: seq<real>)
    requires m.Valid()
    ensures |t| == m.Count()
  {
    seq(m.Count(), k requires 0 <= k < m.Count() => m.Weight(k))
  }

  function SquaredWeights(m: MatchSet): (t: seq<real>)
    requires m.Valid()
    ensures |t| == m.Count()
  {
    seq(m.Count(), k requires 0 <= k < m.Count() => m.Weight(k) * m.Weight(k))
  }

  function WeightedAbsTerms(m: MatchSet): (t: seq<real>)
    requires m.Valid()
    ensures |t| == m.Count()
  {
    seq(m.Count(), k requires 0 <= k < m.Count() => Abs(m.Residual(k)) * m.Weight(k))
  }

  function WeightedSqTerms(m: MatchSet): (t: seq<real>)
    requires m.Valid()
    ensures |t| == m.Count()
  {
    seq(m.Count(), k requires 0 <= k < m.Count() => m.Residual(k) * m.Residual(k) * m.Weight(k) * m.Weight(k))
  }

  /** With positive weights every weighted sum is non-negative, and the
      normalisations are positive once there is a pair. */
  lemma PositiveWeightSums(m: MatchSet)
    requires m.Valid()
    ensures m.PositiveWeights() ==>
      && Sum(WeightedAbsTerms(m)) >= 0.0 && Sum(WeightedSqTerms(m)) >= 0.0
      && (m.Count() > 0 ==> Sum(WeightValues(m)) > 0.0 && Sum(SquaredWeights(m)) > 0.0)
  {
    if m.PositiveWeights() {
      forall k | 0 <= k < m.Count()
        ensures SquaredWeights(m)[k] > 0.0 && WeightedAbsTerms(m)[k] >= 0.0 && WeightedSqTerms(m)[k] >= 0.0
      {
        var w, r := m.Weight(k), m.Residual(k);
        assert w > 0.0;
        PositiveSquare(SquaredWeights(m)[k], w, w);
        assert WeightedAbsTerms(m)[k] == Abs(r) * w;
        assert WeightedSqTerms(m)[k] == r * r * w * w;
        MulNonNegative(Abs(r), w);
        SquareNonNegative(r);
        MulNonNegative(r * r, w * w);
        assert r * r * w * w == (r * r) * (w * w);
        assert SquaredWeights(m)[k] > 0.0;
        assert WeightedAbsTerms(m)[k] >= 0.0;
        assert WeightedSqTerms(m)[k] >= 0.0;
      }
      SumOfNonNegative(WeightValues(m), m.Count());
      SumOfNonNegative(SquaredWeights(m), m.Count());
      SumOfNonNegative(WeightedAbsTerms(m), m.Count());
      SumOfNonNegative(WeightedSqTerms(m), m.Count());
      assert m.Count() > 0 ==> WeightValues(m)[0] != 0.0 && SquaredWeights(m)[0] != 0.0;
    }
  }

  /** `weightedErrorSAD`: the weight-averaged absolute residual; undefined
      when a weight is undefined or the weights sum to zero. */
  function WeightedSad(m: MatchSet): (r: Option<real>)
    requires m.Valid()
    ensures r.Some? ==> m.Weighted() && Sum(WeightValues(m)) != 0.0
    ensures m.PositiveWeights() && m.Count() > 0 ==> r.Some? && r.value >= 0.0
  {
    PositiveWeightSums(m);
    if !m.Weighted() || Sum(WeightValues(m)) == 0.0 then None
    else
      Some(Sum(WeightedAbsTerms(m)) / Sum(WeightValues(m)))
  }

  /** `weightedErrorSSD`: squared residuals weighted by the squared inverse
      variance; undefined when a weight is undefined or the squared weights
      sum to zero. */
  function WeightedSsd(m: MatchSet): (r: Option<real>)
    requires m.Valid()
    ensures r.Some? ==> m.Weighted() && Sum(SquaredWeights(m)) != 0.0
    ensures m.PositiveWeights() && m.Count() > 0 ==> r.Some? && r.value >= 0.0
  {
    PositiveWeightSums(m);
    if !m.Weighted() || Sum(SquaredWeights(m)) == 0.0 then None
    else
      Some(Sum(WeightedSqTerms(m)) / Sum(SquaredWeights(m)))
  }

  /** With positive weights, weighted SAD is zero exactly when the centred
      values agree pairwise. */
  lemma WeightedSadZeroIffCentredEqual(m: MatchSet)
    requires m.PositiveWeights() && m.Count() > 0
    ensures WeightedSad(m) == Some(0.0) <==> m.CentredEqual()
  {
    var t := WeightedAbsTerms(m);
    SumOfNonNegative(t, |t|);
    SumOfNonNegative(WeightValues(m), m.Count());
    forall k | 0 <= k < m.Count() ensures t[k] == 0.0 <==> m.LiveDev(k) == m.RefDev(k) {
      ResidualZero(m, k);
    }
  }

  /* ---------------- NCC ---------------- */

  /** The weighted inner product of the first n elements of u and v. */
  function WDot(w: seq<real>, u: seq<real>, v: seq<real>, n: nat): real
    requires n <= |w| && n <= |u| && n <= |v|
  {
    if n == 0 then 0.0 else WDot(w, u, v, n - 1) + w[n - 1] * u[n - 1] * v[n - 1]
  }

  function Units(n: nat): (t: seq<real>)
    ensures |t| == n
  {
    seq(n, _ => 1.0)
  }

  predicate NonNegative(w: seq<real>) {
    forall k | 0 <= k < |w| :: w[k] >= 0.0
  }

  lemma {:induction false} WDotSelfNonNegative(w: seq<real>, u: seq<real>, n: nat)
    requires n <= |w| && n <= |u| && NonNegative(w)
    ensures WDot(w, u, u, n) >= 0.0
  {
    if n > 0 {
      WDotSelfNonNegative(w, u, n - 1);
      assert w[n - 1] * u[n - 1] * u[n - 1] == w[n - 1] * (u[n - 1] * u[n - 1]);
    }
  }

  /** The weighted spread of the vectors (u_k * b - a * v_k) over the first
      n elements. */
  function Spread(w: seq<real>, u: seq<real>, v: seq<real>, a: real, b: real, n: nat): real
    requires n <= |w| && n <= |u| && n <= |v|
  {
    if n == 0 then 0.0
    else
      var d := u[n - 1] * b - a * v[n - 1];
      Spread(w, u, v, a, b, n - 1) + w[n - 1] * (d * d)
  }

  lemma {:induction false} SpreadNonNegative(w: seq<real>, u: seq<real>, v: seq<real>, a: real, b: real, n: nat)
    requires n <= |w| && n <= |u| && n <= |v| && NonNegative(w)
    ensures Spread(w, u, v, a, b, n) >= 0.0
  {
    if n > 0 {
      SpreadNonNegative(w, u, v, a, b, n - 1);
      var d := u[n - 1] * b - a * v[n - 1];
      SquareNonNegative(d);
      MulNonNegative(w[n - 1], d * d);
    }
  }

  lemma {:induction false} SpreadExpands(w: seq<real>, u: seq<real>, v: seq<real>, a: real, b: real, n: nat)
    requires n <= |w| && n <= |u| && n <= |v|
    ensures Spread(w, u, v, a, b, n)
         == b * b * WDot(w, u, u, n) - 2.0 * a * b * WDot(w, u, v, n) + a * a * WDot(w, v, v, n)
  {
    if n > 0 {
      SpreadExpands(w, u, v, a, b, n - 1);
      var x, p, q := w[n - 1], u[n - 1], v[n - 1];
      assert x * ((p * b - a * q) * (p * b - a * q))
          == b * b * (x * p * p) - 2.0 * a * b * (x * p * q) + a * a * (x * q * q);
    }
  }

  /** The quadratic form b²·A - 2ab·C + a²·B in three weighted sums. */
  function Quadratic(A: real, B: real, C: real, a: real, b: real): real {
    b * b * A - 2.0 * a * b * C + a * a * B
  }

  /** The spread is the quadratic form in the three weighted sums, so that
      form is never negative. */
  lemma QuadraticNonNegative(w: seq<real>, u: seq<real>, v: seq<real>, a: real, b: real, n: nat)
    requires n <= |w| && n <= |u| && n <= |v| && NonNegative(w)
    ensures Quadratic(WDot(w, u, u, n), WDot(w, v, v, n), WDot(w, u, v, n), a, b) >= 0.0
  {
    SpreadExpands(w, u, v, a, b, n);
    SpreadNonNegative(w, u, v, a, b, n);
  }

  /** The Cauchy-Schwarz inequality for a non-negatively weighted inner
      product: the squared cross sum never exceeds the product of the two
      sums of squares. The quadratic form is evaluated at (C, B), which
      settles B > 0, and at a second point that forces C = 0 when B = 0. */
  lemma CauchySchwarz(w: seq<real>, u: seq<real>, v: seq<real>, n: nat)
    requires n <= |w| && n <= |u| && n <= |v| && NonNegative(w)
    ensures WDot(w, u, v, n) * WDot(w, u, v, n) <= WDot(w, u, u, n) * WDot(w, v, v, n)
  {
    var A, B, C := WDot(w, u, u, n), WDot(w, v, v, n), WDot(w, u, v, n);
    WDotSelfNonNegative(w, v, n);
    QuadraticNonNegative(w, u, v, C, B, n);
    var a := if C == 0.0 then 0.0 else (A + 1.0) / (2.0 * C);
    QuadraticNonNegative(w, u, v, a, 1.0, n);
    DiscriminantBound(A, B, C, a);
  }

  /** Cauchy-Schwarz on the real numbers alone, from two values of the
      non-negative quadratic form. */
  lemma DiscriminantBound(A: real, B: real, C: real, a: real)
    requires B >= 0.0 && Quadratic(A, B, C, C, B) >= 0.0 && Quadratic(A, B, C, a, 1.0) >= 0.0
    requires a == if C == 0.0 then 0.0 else (A + 1.0) / (2.0 * C)
    ensures C * C <= A * B
  {
    if B > 0.0 {
      assert Quadratic(A, B, C, C, B) == B * (A * B - C * C);
      PositiveFactor(B, A * B - C * C);
    } else {
      assert Quadratic(A, B, C, a, 1.0) == A - 2.0 * a * C;
      CrossVanishes(A, C, a);
    }
  }

  /** With B = 0 the form is A - 2a·C, which is negative at the chosen a
      unless the cross sum C is zero. */
  lemma CrossVanishes(A: real, C: real, a: real)
    requires a == if C == 0.0 then 0.0 else (A + 1.0) / (2.0 * C)
    requires A - 2.0 * a * C >= 0.0
    ensures C == 0.0
  {
    assert C != 0.0 ==> 2.0 * a * C == A + 1.0;
  }

  /** The square root the NCC denominator takes: non-negative, and squaring
      it gives back its argument. */
  ghost predicate IsSqrt(sqrt: real -> real) {
    forall x :: 0.0 <= x ==> 0.0 <= sqrt(x) && sqrt(x) * sqrt(x) == x
  }

  lemma SquaresOrdered(x: real, y: real)
    requires 0.0 <= y && x * x <= y * y
    ensures -y <= x <= y
  {
    assert x * x - y * y == (x - y) * (x + y);
    if x > y {
      MulPositive(x - y, x + y);
    } else if x < -y {
      MulPositive(-x - y, -x + y);
    }
  }

  lemma ProductSign(a: real, d: real)
    requires d > 0.0 && a * d >= 0.0
    ensures a >= 0.0
  {
    if a < 0.0 {
      MulPositive(-a, d);
    }
  }

  lemma QuotientBound(c: real, d: real)
    requires d > 0.0 && -d <= c <= d
    ensures -1.0 <= c / d <= 1.0
  {
    var q := c / d;
    assert q * d == c;
    assert (1.0 - q) * d == d - c && (q + 1.0) * d == c + d;
    ProductSign(1.0 - q, d);
    ProductSign(q + 1.0, d);
  }

  /** A quotient c / sqrt(a * b) with c * c <= a * b lies in [-1, 1]. */
  lemma NormalisedBound(c: real, p: real, sqrt: real -> real)
    requires IsSqrt(sqrt) && p > 0.0 && c * c <= p
    ensures sqrt(p) > 0.0
    ensures -1.0 <= c / sqrt(p) <= 1.0
  {
    var d := sqrt(p);
    assert d * d == p;
    SquaresOrdered(c, d);
    QuotientBound(c, d);
  }

  function LiveDevs(m: MatchSet): (t: seq<real>)
    requires m.Valid()
    ensures |t| == m.Count()
  {
    seq(m.Count(), k requires 0 <= k < m.Count() => m.LiveDev(k))
  }

  function RefDevs(m: MatchSet): (t: seq<real>)
    requires m.Valid()
    ensures |t| == m.Count()
  {
    seq(m.Count(), k requires 0 <= k < m.Count() => m.RefDev(k))
  }

  /** The three sums of `correlationNCC`: the cross sum and the two sums of
      squares of the centred elevations (unit weights). */
  function CrossSum(m: MatchSet): real
    requires m.Valid()
  {
    WDot(Units(m.Count()), LiveDevs(m), RefDevs(m), m.Count())
  }

  function LiveNorm(m: MatchSet): real
    requires m.Valid()
  {
    WDot(Units(m.Count()), LiveDevs(m), LiveDevs(m), m.Count())
  }

  function RefNorm(m: MatchSet): real
    requires m.Valid()
  {
    WDot(Units(m.Count()), RefDevs(m), RefDevs(m), m.Count())
  }

  /** Both normalisation sums are non-negative and bound the cross sum. */
  lemma NccSumsBounded(m: MatchSet)
    requires m.Valid()
    ensures LiveNorm(m) >= 0.0 && RefNorm(m) >= 0.0
    ensures CrossSum(m) * CrossSum(m) <= LiveNorm(m) * RefNorm(m)
  {
    var w := Units(m.Count());
    WDotSelfNonNegative(w, LiveDevs(m), m.Count());
    WDotSelfNonNegative(w, RefDevs(m), m.Count());
    CauchySchwarz(w, LiveDevs(m), RefDevs(m), m.Count());
  }

  /** `correlationNCC`: the cross sum over the square root of the product
      of the sums of squares. It is undefined exactly when that product is
      zero, in which case the cross sum is zero as well (0/0); otherwise it
      lies in [-1, 1]. */
  function Ncc(m: MatchSet, sqrt: real -> real): (r: Option<real>)
    requires m.Valid() && IsSqrt(sqrt)
    ensures r.None? <==> LiveNorm(m) * RefNorm(m) == 0.0
    ensures r.None? ==> CrossSum(m) == 0.0
    ensures r.Some? ==> -1.0 <= r.value <= 1.0
    ensures r.Some? ==> r.value * sqrt(LiveNorm(m) * RefNorm(m)) == CrossSum(m)
  {
    NccSumsBounded(m);
    SquareNonNegative(CrossSum(m));
    var p := LiveNorm(m) * RefNorm(m);
    if p == 0.0 then
      ZeroSquare(CrossSum(m), CrossSum(m));
      None
    else
      NormalisedBound(CrossSum(m), p, sqrt);
      Some(CrossSum(m) / sqrt(p))
  }

  /** Off the undefined case, NCC is the cross sum divided by the square
      root of the product of the sums of squares. */
  lemma NccIsQuotient(m: MatchSet, sqrt: real -> real)
    requires m.Valid() && IsSqrt(sqrt) && LiveNorm(m) * RefNorm(m) != 0.0
    ensures sqrt(LiveNorm(m) * RefNorm(m)) > 0.0
    ensures Ncc(m, sqrt) == Some(CrossSum(m) / sqrt(LiveNorm(m) * RefNorm(m)))
  {
    var p := LiveNorm(m) * RefNorm(m);
    NccSumsBounded(m);
    MulNonNegative(LiveNorm(m), RefNorm(m));
    SquareNonNegative(CrossSum(m));
    NormalisedBound(CrossSum(m), p, sqrt);
    assert Ncc(m, sqrt).Some?;
    var v, d, c := Ncc(m, sqrt).value, sqrt(p), CrossSum(m);
    assert v * d == c;
    assert (c / d) * d == c;
    assert (v - c / d) * d == 0.0;
    ZeroProduct(v - c / d, d);
  }

  /** NCC read off its three sums. */
  lemma NccOfSums(m: MatchSet, sqrt: real -> real, c: real, sn: real, rn: real)
    requires m.Valid() && IsSqrt(sqrt)
    requires c == CrossSum(m) && sn == LiveNorm(m) && rn == RefNorm(m)
    ensures sn * rn != 0.0 ==> sqrt(sn * rn) != 0.0
    ensures Ncc(m, sqrt) == if sn * rn == 0.0 then None else Some(c / sqrt(sn * rn))
  {
    assert sn * rn == LiveNorm(m) * RefNorm(m);
    if sn * rn != 0.0 {
      NccIsQuotient(m, sqrt);
    }
  }

  lemma SqrtOfSquare(x: real, sqrt: real -> real)
    requires IsSqrt(sqrt) && x >= 0.0
    ensures sqrt(x * x) == x
  {
    SquareNonNegative(x);
    var d := sqrt(x * x);
    assert d >= 0.0 && d * d == x * x;
    assert (d - x) * (d + x) == 0.0;
    ZeroProduct(d - x, d + x);
  }

  /** For pairwise-equal centred elevations the cross sum equals both
      normalisation sums, and NCC is exactly 1 unless the values are all
      equal to their mean. */
  lemma NccOfIdenticalCentred(m: MatchSet, sqrt: real -> real)
    requires m.Valid() && IsSqrt(sqrt) && m.CentredEqual()
    ensures CrossSum(m) == LiveNorm(m) == RefNorm(m)
    ensures LiveNorm(m) > 0.0 ==> Ncc(m, sqrt) == Some(1.0)
  {
    assert LiveDevs(m) == RefDevs(m);
    var s := LiveNorm(m);
    if s > 0.0 {
      var p := LiveNorm(m) * RefNorm(m);
      PositiveSquare(p, s, s);
      SqrtOfSquare(s, sqrt);
      assert sqrt(p) == s;
      var v := Ncc(m, sqrt).value;
      assert (v - 1.0) * s == 0.0;
      ZeroProduct(v - 1.0, s);
    }
  }

  /* ---------------- weighted NCC ---------------- */

  function WeightedCrossSum(m: MatchSet): real
    requires m.Valid()
  {
    WDot(WeightValues(m), LiveDevs(m), RefDevs(m), m.Count())
  }

  function WeightedLiveNorm(m: MatchSet): real
    requires m.Valid()
  {
    WDot(WeightValues(m), LiveDevs(m), LiveDevs(m), m.Count())
  }

  function WeightedRefNorm(m: MatchSet): real
    requires m.Valid()
  {
    WDot(WeightValues(m), RefDevs(m), RefDevs(m), m.Count())
  }

  lemma WeightedNccBounded(m: MatchSet, sqrt: real -> real)
    requires m.Weighted() && IsSqrt(sqrt)
    requires WeightedLiveNorm(m) * WeightedRefNorm(m) > 0.0
    ensures sqrt(WeightedLiveNorm(m) * WeightedRefNorm(m)) > 0.0
    ensures NonNegative(WeightValues(m)) ==>
      -1.0 <= WeightedCrossSum(m) / sqrt(WeightedLiveNorm(m) * WeightedRefNorm(m)) <= 1.0
  {
    var p := WeightedLiveNorm(m) * WeightedRefNorm(m);
    assert 0.0 <= sqrt(p) && sqrt(p) * sqrt(p) == p;
    if NonNegative(WeightValues(m)) {
      CauchySchwarz(WeightValues(m), LiveDevs(m), RefDevs(m), m.Count());
      NormalisedBound(WeightedCrossSum(m), p, sqrt);
    }
  }

  /** Off the undefined cases, weighted NCC is the weighted cross sum over
      the square root of the product of the weighted sums of squares. */
  lemma WeightedNccIsQuotient(m: MatchSet, sqrt: real -> real)
    requires m.Weighted() && IsSqrt(sqrt) && WeightedLiveNorm(m) * WeightedRefNorm(m) > 0.0
    ensures sqrt(WeightedLiveNorm(m) * WeightedRefNorm(m)) > 0.0
    ensures WeightedNcc(m, sqrt) == Some(WeightedCrossSum(m) / sqrt(WeightedLiveNorm(m) * WeightedRefNorm(m)))
  {
    WeightedNccBounded(m, sqrt);
    var p := WeightedLiveNorm(m) * WeightedRefNorm(m);
    assert WeightedNcc(m, sqrt).Some?;
    assert WeightedNcc(m, sqrt).value == WeightedCrossSum(m) / sqrt(p);
  }

  /** Weighted NCC read off its three sums and the flag saying whether every
      weight is defined. */
  lemma WeightedNccOfSums(m: MatchSet, sqrt: real -> real, defined: bool, c: real, sn: real, rn: real)
    requires m.Valid() && IsSqrt(sqrt) && defined == m.Weighted()
    requires c == WeightedCrossSum(m) && sn == WeightedLiveNorm(m) && rn == WeightedRefNorm(m)
    ensures defined && sn * rn > 0.0 ==> sqrt(sn * rn) != 0.0
    ensures WeightedNcc(m, sqrt) == if !defined || sn * rn <= 0.0 then None else Some(c / sqrt(sn * rn))
  {
    assert sn * rn == WeightedLiveNorm(m) * WeightedRefNorm(m);
    if defined && sn * rn > 0.0 {
      WeightedNccIsQuotient(m, sqrt);
    }
  }

  /** `weightedCorrelationNCC`: every sum weighted by the inverse variance.
      Undefined when a weight is undefined or the product of the sums is
      not positive; with non-negative weights it lies in [-1, 1]. */
  function WeightedNcc(m: MatchSet, sqrt: real -> real): (r: Option<real>)
    requires m.Valid() && IsSqrt(sqrt)
    ensures r.Some? <==> m.Weighted() && WeightedLiveNorm(m) * WeightedRefNorm(m) > 0.0
    ensures r.Some? && NonNegative(WeightValues(m)) ==> -1.0 <= r.value <= 1.0
  {
    if !m.Weighted() then None
    else
      var p := WeightedLiveNorm(m) * WeightedRefNorm(m);
      if p <= 0.0 then None
      else
        WeightedNccBounded(m, sqrt);
        Some(WeightedCrossSum(m) / sqrt(p))
  }
}
