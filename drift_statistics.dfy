/**
  The two distribution-shift statistics of the monitoring component: the
  two-sample Kolmogorov–Smirnov statistic and the population stability
  index (PSI) over quantile bins of the baseline. Values are exact reals;
  pandas' NaN is `None`, both in a column and as a result.
 */
module DriftStatistics {
  import opened Base

  /** A numeric column: `None` is a missing value. */
  type Series = seq<Option<real>>

  function AtMost(x: real): real -> bool {
    (v: real) => v <= x
  }

  /**
    The empirical distribution function of `s` at `x`: the share of values
    at or below `x`. On the sorted sample this is
    `searchsorted(s, x, side="right") / len(s)`; the empty sample, which
    the statistic never reaches, has 0.
   */
  function Cdf(s: seq<real>, x: real): real {
    Share(CountWhere(s, AtMost(x)), |s|)
  }

  /** `count / total` as a real; an empty total, which no caller divides by, gives 0. */
  function Share(count: nat, total: nat): real {
    if total == 0 then 0.0 else count as real / total as real
  }

  lemma ShareBounds(count: nat, total: nat)
    requires count <= total
    ensures 0.0 <= Share(count, total) <= 1.0
  {
    if total != 0 {
      FractionBounds(count as real, total as real);
    }
  }

  lemma CdfBounds(s: seq<real>, x: real)
    ensures 0.0 <= Cdf(s, x) <= 1.0
  {
    ShareBounds(CountWhere(s, AtMost(x)), |s|);
  }

  /** The distance between the two distribution functions at `x`. */
  function Gap(e: seq<real>, a: seq<real>): real -> real {
    (x: real) => Abs(Cdf(e, x) - Cdf(a, x))
  }

  lemma GapBounds(e: seq<real>, a: seq<real>, x: real)
    ensures 0.0 <= Gap(e, a)(x) <= 1.0
  {
    CdfBounds(e, x);
    CdfBounds(a, x);
  }

  lemma GapSymmetric(e: seq<real>, a: seq<real>)
    ensures forall x :: Gap(e, a)(x) == Gap(a, e)(x)
  {
  }

  /** Points at which both samples have as many values at or below: their gaps agree. */
  lemma GapOfCounts(e: seq<real>, a: seq<real>, x: real, y: real)
    requires CountWhere(e, AtMost(x)) == CountWhere(e, AtMost(y))
    requires CountWhere(a, AtMost(x)) == CountWhere(a, AtMost(y))
    ensures Gap(e, a)(x) == Gap(e, a)(y)
  {
  }

  /** `np.max` of `g` over the given points: the largest value, attained at one of them. */
  function MaxOver(g: real -> real, points: seq<real>): (m: real)
    requires points != []
    ensures forall i :: 0 <= i < |points| ==> g(points[i]) <= m
    ensures exists i :: 0 <= i < |points| && g(points[i]) == m
  {
    if |points| == 1 then g(points[0])
    else
      var rest := MaxOver(g, points[1..]);
      if g(points[0]) >= rest then g(points[0]) else rest
  }

  /** The maximum of two functions that agree, over points with the same values, is the same. */
  lemma MaxOverSameValues(f: real -> real, g: real -> real, p: seq<real>, q: seq<real>)
    requires p != [] && q != []
    requires forall x :: f(x) == g(x)
    requires forall x :: x in p <==> x in q
    ensures MaxOver(f, p) == MaxOver(g, q)
  {
    var i :| 0 <= i < |p| && f(p[i]) == MaxOver(f, p);
    var j :| 0 <= j < |q| && g(q[j]) == MaxOver(g, q);
    assert p[i] in p && q[j] in q;
    var i' :| 0 <= i' < |q| && q[i'] == p[i];
    var j' :| 0 <= j' < |p| && p[j'] == q[j];
  }

  function MaxGap(e: seq<real>, a: seq<real>, points: seq<real>): real
    requires points != []
  {
    MaxOver(Gap(e, a), points)
  }

  /**
    `kolmogorov_smirnov_statistic`: NaN when either column has no value,
    otherwise the largest gap between the two distribution functions over
    the values of both samples.
   */
  function KolmogorovSmirnov(expected: Series, actual: Series): (ks: Option<real>)
    ensures ks.None? <==> Present(expected) == [] || Present(actual) == []
  {
    var e := Present(expected);
    var a := Present(actual);
    if e == [] || a == [] then None else Some(MaxGap(e, a, e + a))
  }

  /** The statistic is a distance between shares: it lies in `[0, 1]`. */
  lemma KsBounds(expected: Series, actual: Series)
    ensures KolmogorovSmirnov(expected, actual).Some? ==> 0.0 <= KolmogorovSmirnov(expected, actual).value <= 1.0
  {
    var e := Present(expected);
    var a := Present(actual);
    if e != [] && a != [] {
      var points := e + a;
      var i :| 0 <= i < |points| && Gap(e, a)(points[i]) == MaxGap(e, a, points);
      GapBounds(e, a, points[i]);
    }
  }

  /** The statistic does not depend on which column is the baseline. */
  lemma KsSymmetric(expected: Series, actual: Series)
    ensures KolmogorovSmirnov(expected, actual) == KolmogorovSmirnov(actual, expected)
  {
    var e := Present(expected);
    var a := Present(actual);
    if e != [] && a != [] {
      GapSymmetric(e, a);
      MaxOverSameValues(Gap(e, a), Gap(a, e), e + a, a + e);
    }
  }

  /** A column compared with itself shows no shift. */
  lemma KsSelf(s: Series)
    requires Present(s) != []
    ensures KolmogorovSmirnov(s, s) == Some(0.0)
  {
    var e := Present(s);
    var i :| 0 <= i < |e + e| && Gap(e, e)((e + e)[i]) == MaxGap(e, e, e + e);
    assert Gap(e, e)((e + e)[i]) == Abs(0.0);
  }

  /** The largest value of `vs` at or below `x`, if there is one. */
  function LargestAtMost(vs: seq<real>, x: real): (r: Option<real>)
    ensures r.None? ==> forall i :: 0 <= i < |vs| ==> vs[i] > x
    ensures r.Some? ==> r.value in vs && r.value <= x
    ensures r.Some? ==> forall i :: 0 <= i < |vs| && vs[i] <= x ==> vs[i] <= r.value
  {
    if vs == [] then None
    else
      var rest := LargestAtMost(vs[1..], x);
      if vs[0] > x then rest
      else if rest.Some? && rest.value >= vs[0] then rest
      else Some(vs[0])
  }

  lemma {:induction false} CountWhereSame<T>(s: seq<T>, p: T -> bool, q: T -> bool)
    requires forall i :: 0 <= i < |s| ==> p(s[i]) == q(s[i])
    ensures CountWhere(s, p) == CountWhere(s, q)
  {
    if s != [] {
      CountWhereSame(s[1..], p, q);
    }
  }

  /**
    Between the largest sample value at or below `x` and `x` itself neither
    distribution function steps; below every sample value both are 0.
   */
  lemma GapStepsAtValues(e: seq<real>, a: seq<real>, x: real)
    ensures LargestAtMost(e + a, x).None? ==> Gap(e, a)(x) == 0.0
    ensures LargestAtMost(e + a, x).Some? ==> Gap(e, a)(x) == Gap(e, a)(LargestAtMost(e + a, x).value)
  {
    var points := e + a;
    assert forall k :: 0 <= k < |e| ==> points[k] == e[k];
    assert forall k :: 0 <= k < |a| ==> points[|e| + k] == a[k];
    match LargestAtMost(points, x)
    case None =>
      CountWhereSame(e, AtMost(x), (v: real) => false);
      CountWhereSame(a, AtMost(x), (v: real) => false);
      FalseCount(e);
      FalseCount(a);
    case Some(v) =>
      CountWhereSame(e, AtMost(x), AtMost(v));
      CountWhereSame(a, AtMost(x), AtMost(v));
      GapOfCounts(e, a, x, v);
  }

  lemma {:induction false} FalseCount(s: seq<real>)
    ensures CountWhere(s, (v: real) => false) == 0
  {
    if s != [] {
      FalseCount(s[1..]);
    }
  }

  /**
    The maximum over the sample values is the supremum over the whole real
    line: the distribution functions only step at sample values, so no
    point whatever shows a larger gap, and some point shows exactly this one.
   */
  lemma KsIsSupremum(expected: Series, actual: Series, x: real)
    requires KolmogorovSmirnov(expected, actual).Some?
    ensures Gap(Present(expected), Present(actual))(x) <= KolmogorovSmirnov(expected, actual).value
    ensures exists y :: Gap(Present(expected), Present(actual))(y) == KolmogorovSmirnov(expected, actual).value
  {
    var e := Present(expected);
    var a := Present(actual);
    var points := e + a;
    var i :| 0 <= i < |points| && Gap(e, a)(points[i]) == MaxGap(e, a, points);
    GapBounds(e, a, points[i]);
    GapStepsAtValues(e, a, x);
  }

  // Population stability index

  /** Strictly increasing break points, as `np.unique` returns them. */
  predicate Increasing(breaks: seq<real>) {
    forall i, j :: 0 <= i < j < |breaks| ==> breaks[i] < breaks[j]
  }

  /** `np.digitize(x, breaks, right=False)` for increasing breaks: how many breaks lie at or below `x`. */
  function Digitize(breaks: seq<real>, x: real): nat {
    CountWhere(breaks, AtMost(x))
  }

  /** `np.clip(v, lo, hi)`: `min(max(v, lo), hi)`. */
  function Clip(v: int, lo: int, hi: int): int {
    var up := if v < lo then lo else v;
    if up > hi then hi else up
  }

  /** The bin of `x`: `np.clip(np.digitize(x, breaks) - 1, 0, len(breaks) - 2)`. */
  function Bin(breaks: seq<real>, x: real): (b: int)
    ensures |breaks| >= 2 ==> 0 <= b <= |breaks| - 2
  {
    Clip(Digitize(breaks, x) - 1, 0, |breaks| - 2)
  }

  function BinOf(breaks: seq<real>): real -> int {
    (x: real) => Bin(breaks, x)
  }

  /** Exactly the first `k` elements satisfy `p`: then `k` of them do. */
  lemma {:induction false} CountPrefix<T>(s: seq<T>, p: T -> bool, k: nat)
    requires k <= |s|
    requires forall i :: 0 <= i < k ==> p(s[i])
    requires forall i :: k <= i < |s| ==> !p(s[i])
    ensures CountWhere(s, p) == k
  {
    if s != [] {
      CountPrefix(s[1..], p, if k == 0 then 0 else k - 1);
    }
  }

  /**
    Bin assignment: a value below the first break falls in bin 0, one at or
    above the last break in the last bin, `len(breaks) - 2`, and one in
    `[breaks[k], breaks[k + 1])` in bin `k`.
   */
  lemma BinPlacement(breaks: seq<real>, x: real)
    requires |breaks| >= 2 && Increasing(breaks)
    ensures x < breaks[0] ==> Bin(breaks, x) == 0
    ensures x >= breaks[|breaks| - 1] ==> Bin(breaks, x) == |breaks| - 2
    ensures forall k :: 0 <= k < |breaks| - 1 && breaks[k] <= x < breaks[k + 1] ==> Bin(breaks, x) == k
  {
    var m := |breaks|;
    if x < breaks[0] {
      CountPrefix(breaks, AtMost(x), 0);
    }
    if x >= breaks[m - 1] {
      CountPrefix(breaks, AtMost(x), m);
    }
    forall k | 0 <= k < m - 1 && breaks[k] <= x < breaks[k + 1] ensures Bin(breaks, x) == k {
      CountPrefix(breaks, AtMost(x), k + 1);
    }
  }

  function IsBin(b: int): int -> bool {
    (v: int) => v == b
  }

  /** `max((bins == b).sum() / len(bins), epsilon)`: the share of bin `b`, floored at `epsilon`. */
  function BinRatio(bins: seq<int>, b: int, epsilon: real): real {
    var share := Share(CountWhere(bins, IsBin(b)), |bins|);
    if share >= epsilon then share else epsilon
  }

  /**
    A floored ratio is never below `epsilon`, is the bin's true share
    whenever that share reaches `epsilon`, and is at most 1 unless
    `epsilon` itself is larger.
   */
  lemma BinRatioFloor(bins: seq<int>, b: int, epsilon: real)
    ensures BinRatio(bins, b, epsilon) >= epsilon
    ensures Share(CountWhere(bins, IsBin(b)), |bins|) >= epsilon ==>
      BinRatio(bins, b, epsilon) == Share(CountWhere(bins, IsBin(b)), |bins|)
    ensures BinRatio(bins, b, epsilon) <= if epsilon > 1.0 then epsilon else 1.0
  {
    ShareBounds(CountWhere(bins, IsBin(b)), |bins|);
  }

  /** How many values fall in bins `0 .. k - 1`. */
  function CountInBins(bins: seq<int>, k: nat): nat {
    if k == 0 then 0 else CountInBins(bins, k - 1) + CountWhere(bins, IsBin(k - 1))
  }

  function InRange(k: nat): int -> bool {
    (v: int) => 0 <= v < k
  }

  lemma {:induction false} CountWhereSplit<T>(s: seq<T>, p: T -> bool, q: T -> bool, r: T -> bool)
    requires forall i :: 0 <= i < |s| ==> p(s[i]) == (q(s[i]) || r(s[i])) && !(q(s[i]) && r(s[i]))
    ensures CountWhere(s, p) == CountWhere(s, q) + CountWhere(s, r)
  {
    if s != [] {
      CountWhereSplit(s[1..], p, q, r);
    }
  }

  lemma {:induction false} CountInBinsRange(bins: seq<int>, k: nat)
    ensures CountInBins(bins, k) == CountWhere(bins, InRange(k))
  {
    if k == 0 {
      CountWhereSame(bins, InRange(0), (v: int) => false);
      FalseCountInt(bins);
    } else {
      CountInBinsRange(bins, k - 1);
      CountWhereSplit(bins, InRange(k), InRange(k - 1), IsBin(k - 1));
    }
  }

  lemma {:induction false} FalseCountInt(s: seq<int>)
    ensures CountWhere(s, (v: int) => false) == 0
  {
    if s != [] {
      FalseCountInt(s[1..]);
    }
  }

  /** Every value lands in exactly one of the `len(breaks) - 1` bins: the bin counts add up to the sample size. */
  lemma BinCountsTotal(breaks: seq<real>, xs: seq<real>, bins: seq<int>)
    requires |breaks| >= 2 && bins == Map(xs, BinOf(breaks))
    ensures CountInBins(bins, |breaks| - 1) == |xs|
  {
    BinsInRange(breaks, xs, bins);
    CountInRange(bins, |breaks| - 1);
  }

  lemma CountInRange(bins: seq<int>, k: nat)
    requires forall i :: 0 <= i < |bins| ==> 0 <= bins[i] < k
    ensures CountInBins(bins, k) == |bins|
  {
    CountInBinsRange(bins, k);
    CountWhereSame(bins, InRange(k), (v: int) => true);
    TrueCountInt(bins);
  }

  lemma BinsInRange(breaks: seq<real>, xs: seq<real>, bins: seq<int>)
    requires |breaks| >= 2 && bins == Map(xs, BinOf(breaks))
    ensures forall i :: 0 <= i < |bins| ==> 0 <= bins[i] < |breaks| - 1
  {
    forall i | 0 <= i < |bins| ensures 0 <= bins[i] < |breaks| - 1 {
      assert bins[i] == Bin(breaks, xs[i]);
    }
  }

  lemma {:induction false} TrueCountInt(s: seq<int>)
    ensures CountWhere(s, (v: int) => true) == |s|
  {
    if s != [] {
      TrueCountInt(s[1..]);
    }
  }

  /** One bin's contribution `(act - exp) * ln(act / exp)`, for a logarithm `ln` given as a parameter. */
  function PsiTerm(expRatio: real, actRatio: real, ln: real -> real): real
    requires expRatio > 0.0
  {
    (actRatio - expRatio) * ln(actRatio / expRatio)
  }

  /** The contributions of bins `0 .. k - 1`. */
  function PsiSum(expBins: seq<int>, actBins: seq<int>, k: nat, epsilon: real, ln: real -> real): real
    requires epsilon > 0.0
  {
    if k == 0 then 0.0
    else
      PsiSum(expBins, actBins, k - 1, epsilon, ln)
      + PsiTerm(BinRatio(expBins, k - 1, epsilon), BinRatio(actBins, k - 1, epsilon), ln)
  }

  /**
    `population_stability_index` for the given break points (which the
    source takes as the distinct quantiles of the baseline): NaN when either
    column has no value, 0 when there are fewer than two breaks, otherwise
    the sum of the bin contributions.
   */
  function Psi(expected: Series, actual: Series, breaks: seq<real>, epsilon: real, ln: real -> real): (r: Option<real>)
    requires epsilon > 0.0
    ensures r.None? <==> Present(expected) == [] || Present(actual) == []
    ensures r.Some? && |breaks| < 2 ==> r.value == 0.0
  {
    var e := Present(expected);
    var a := Present(actual);
    if e == [] || a == [] then None
    else if |breaks| < 2 then Some(0.0)
    else Some(PsiSum(Map(e, BinOf(breaks)), Map(a, BinOf(breaks)), |breaks| - 1, epsilon, ln))
  }

  /** The loop of `population_stability_index` over the bins, accumulating `psi`. */
  method PopulationStabilityIndex(expected: Series, actual: Series, breaks: seq<real>, epsilon: real, ln: real -> real)
    returns (psi: Option<real>)
    requires epsilon > 0.0
    ensures psi == Psi(expected, actual, breaks, epsilon, ln)
  {
    var e := Present(expected);
    var a := Present(actual);
    if e == [] || a == [] {
      return None;
    }
    if |breaks| < 2 {
      return Some(0.0);
    }
    var expectedBins := Map(e, BinOf(breaks));
    var actualBins := Map(a, BinOf(breaks));
    var total := 0.0;
    for b := 0 to |breaks| - 1
      invariant total == PsiSum(expectedBins, actualBins, b, epsilon, ln)
    {
      var expRatio := BinRatio(expectedBins, b, epsilon);
      var actRatio := BinRatio(actualBins, b, epsilon);
      total := total + PsiTerm(expRatio, actRatio, ln);
    }
    return Some(total);
  }

  lemma {:induction false} PsiSumSelf(bins: seq<int>, k: nat, epsilon: real, ln: real -> real)
    requires epsilon > 0.0
    ensures PsiSum(bins, bins, k, epsilon, ln) == 0.0
  {
    if k > 0 {
      PsiSumSelf(bins, k - 1, epsilon, ln);
    }
  }

  /** A column compared with itself has index 0, whatever the logarithm. */
  lemma PsiSelf(s: Series, breaks: seq<real>, epsilon: real, ln: real -> real)
    requires epsilon > 0.0 && Present(s) != []
    ensures Psi(s, s, breaks, epsilon, ln) == Some(0.0)
  {
    if |breaks| >= 2 {
      PsiSumSelf(Map(Present(s), BinOf(breaks)), |breaks| - 1, epsilon, ln);
    }
  }

  /** The sign of the natural logarithm: non-negative from 1 up, non-positive below. */
  ghost predicate LogSign(ln: real -> real) {
    forall x :: x > 0.0 ==> (x >= 1.0 ==> ln(x) >= 0.0) && (x <= 1.0 ==> ln(x) <= 0.0)
  }

  /** With a logarithm of the right sign, each contribution is non-negative. */
  lemma PsiTermNonNegative(expRatio: real, actRatio: real, ln: real -> real)
    requires expRatio > 0.0 && actRatio > 0.0 && LogSign(ln)
    ensures PsiTerm(expRatio, actRatio, ln) >= 0.0
  {
    var q := actRatio / expRatio;
    DivMul(actRatio, expRatio);
    PositiveFactor(q, expRatio);
    assert q > 0.0;
    if actRatio >= expRatio {
      assert (q - 1.0) * expRatio == actRatio - expRatio;
      PositiveFactor(q - 1.0, expRatio);
      assert ln(q) >= 0.0;
    } else {
      assert (1.0 - q) * expRatio == expRatio - actRatio;
      PositiveFactor(1.0 - q, expRatio);
      assert ln(q) <= 0.0;
    }
  }

  lemma {:induction false} PsiSumNonNegative(expBins: seq<int>, actBins: seq<int>, k: nat, epsilon: real, ln: real -> real)
    requires epsilon > 0.0 && LogSign(ln)
    ensures PsiSum(expBins, actBins, k, epsilon, ln) >= 0.0
  {
    if k > 0 {
      PsiSumNonNegative(expBins, actBins, k - 1, epsilon, ln);
      BinRatioFloor(expBins, k - 1, epsilon);
      BinRatioFloor(actBins, k - 1, epsilon);
      PsiTermNonNegative(BinRatio(expBins, k - 1, epsilon), BinRatio(actBins, k - 1, epsilon), ln);
    }
  }

  /** With the logarithm's sign, the index is never negative. */
  lemma PsiNonNegative(expected: Series, actual: Series, breaks: seq<real>, epsilon: real, ln: real -> real)
    requires epsilon > 0.0 && LogSign(ln)
    ensures Psi(expected, actual, breaks, epsilon, ln).Some? ==> Psi(expected, actual, breaks, epsilon, ln).value >= 0.0
  {
    var e := Present(expected);
    var a := Present(actual);
    if e != [] && a != [] && |breaks| >= 2 {
      PsiSumNonNegative(Map(e, BinOf(breaks)), Map(a, BinOf(breaks)), |breaks| - 1, epsilon, ln);
    }
  }
}
