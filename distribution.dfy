/**
 * `Distribution` (smoother/distribution.py): a density given by its values `f_x` on a
 * grid `x`, read between grid points by linear interpolation.  The setter rescales the
 * values so that `sum(f_x * (x[-1] - x[0]) / len(x)) == 1`; the cumulative table is the
 * running trapezoid sum, divided by its total; `ppf` inverts `cdf` by a bisection-like
 * walk of halving steps.
 *
 * The queries (`pdf`, `cdf`, `sf`, `moment`) change nothing, so they are functions of the
 * grid and the stored density; the class holds the two fields and the operations that
 * assign them or loop.
 */
module Distributions {
  import opened Wrappers
  import opened Grid

  /** `np.linspace(0, 1)` has numpy's default of 50 points. */
  const DefaultGridSize: nat := 50

  /** `ppf` stops once `|cdf(v) - q|` is below this. */
  const Tolerance: real := 0.0001

  /** `max_iter=1e2`: `ppf` also stops once its step counter exceeds this. */
  const MaxIter: nat := 100

  /** The grid used when none is given. */
  function DefaultGrid(): (x: seq<real>)
    ensures |x| == DefaultGridSize && x[0] == 0.0 && x[|x| - 1] == 1.0
    ensures StrictlyIncreasing(x)
  {
    Linspace(0.0, 1.0, DefaultGridSize)
  }

  // ------------------------------------------------------------- normalising

  /** `sum(f * (x[-1] - x[0]) / len(x))`: the mass the setter divides by. */
  function Normalizer(x: seq<real>, f: seq<real>): real
    requires |x| > 0
  {
    Sum(f) * Span(x) / (|x| as real)
  }

  /** The mass is the grid width times the mean value, and it is nonnegative for a
      nonnegative density on a grid that does not run backwards. */
  lemma {:induction false} NormalizerIsMeanMass(x: seq<real>, f: seq<real>)
    requires |x| > 0 && |f| == |x|
    ensures Normalizer(x, f) == Span(x) * Mean(f)
    ensures Nonnegative(f) && x[0] <= x[|x| - 1] ==> Normalizer(x, f) >= 0.0
  {
    var total, span, m := Sum(f), Span(x), |x| as real;
    if Nonnegative(f) {
      SumNonnegative(f);
    }
    assert total * span / m == span * (total / m);
  }

  /** The stored density after the `f_x` setter: `f / Normalizer(f)`.  The result has
      mass 1 and is proportional to the input, the factor being the old mass. */
  function Normalize(x: seq<real>, f: seq<real>): (g: seq<real>)
    requires |x| > 0 && Normalizer(x, f) != 0.0
    ensures |g| == |f|
    ensures Normalizer(x, g) == 1.0
    ensures forall i :: 0 <= i < |f| ==> g[i] * Normalizer(x, f) == f[i]
  {
    var s := Normalizer(x, f);
    NormalizedMass(x, f, s, 1.0 / s);
    Scale(f, 1.0 / s)
  }

  lemma {:induction false} NormalizedMass(x: seq<real>, f: seq<real>, s: real, c: real)
    requires |x| > 0 && s == Normalizer(x, f) && s != 0.0 && c == 1.0 / s
    ensures Normalizer(x, Scale(f, c)) == 1.0
    ensures forall i :: 0 <= i < |f| ==> Scale(f, c)[i] * s == f[i]
  {
    ScaledMass(x, f, s, c);
    ScaledBack(f, s, c);
  }

  lemma {:induction false} ScaledMass(x: seq<real>, f: seq<real>, s: real, c: real)
    requires |x| > 0 && s == Normalizer(x, f) && s != 0.0 && c == 1.0 / s
    ensures Normalizer(x, Scale(f, c)) == 1.0
  {
    var total, span, m := Sum(f), Span(x), |x| as real;
    SumScale(f, c);
    MassOfScaled(total, total * c, span, m, s, c);
    assert Normalizer(x, Scale(f, c)) == (total * c) * span / m;
  }

  lemma {:induction false} ScaledBack(f: seq<real>, s: real, c: real)
    requires s != 0.0 && c == 1.0 / s
    ensures forall i :: 0 <= i < |f| ==> Scale(f, c)[i] * s == f[i]
  {
    forall i | 0 <= i < |f| ensures Scale(f, c)[i] * s == f[i] {
      InverseCancels(f[i], s, c);
    }
  }

  lemma {:induction false} MassOfScaled(total: real, scaled: real, span: real, m: real, s: real, c: real)
    requires m > 0.0 && s == total * span / m && s != 0.0 && c == 1.0 / s && scaled == total * c
    ensures scaled * span / m == 1.0
  {
    DivAssoc(total, span, m);
    assert total * c * span / m == c * (total * span / m);
  }

  lemma {:induction false} InverseCancels(a: real, s: real, c: real)
    requires s != 0.0 && c == 1.0 / s
    ensures a * c * s == a
  {
    assert c * s == 1.0;
    assert a * c * s == a * (c * s);
  }

  /** Assigning an already normalised density stores it unchanged, so reloading the
      dumped fields gives back the same distribution. */
  lemma {:induction false} NormalizeIdempotent(x: seq<real>, f: seq<real>)
    requires |x| > 0 && Normalizer(x, f) == 1.0
    ensures Normalize(x, f) == f
  {
    var g := Normalize(x, f);
    forall i | 0 <= i < |f| ensures g[i] == f[i] {
      assert g[i] * 1.0 == f[i];
    }
  }

  /** Normalising twice is normalising once. */
  lemma {:induction false} NormalizeTwice(x: seq<real>, f: seq<real>)
    requires |x| > 0 && Normalizer(x, f) != 0.0
    ensures Normalize(x, Normalize(x, f)) == Normalize(x, f)
  {
    NormalizeIdempotent(x, Normalize(x, f));
  }

  /** With neither argument given, the density is uniform: all ones on `linspace(0, 1)`. */
  lemma {:induction false} DefaultDensityIsUniform()
    ensures Normalizer(DefaultGrid(), Const(1.0, DefaultGridSize)) == 1.0
    ensures Normalize(DefaultGrid(), Const(1.0, DefaultGridSize)) == Const(1.0, DefaultGridSize)
  {
    SumConst(1.0, DefaultGridSize);
    NormalizeIdempotent(DefaultGrid(), Const(1.0, DefaultGridSize));
  }

  // ------------------------------------------------------- cumulative table

  /** `np.insert(f[:-1] + f[1:], 0, 0)`: 0, then the sums of neighbouring values. */
  function PairSums(f: seq<real>): (p: seq<real>)
    requires |f| > 0
    ensures |p| == |f| && p[0] == 0.0
    ensures forall k :: 0 < k < |f| ==> p[k] == f[k - 1] + f[k]
  {
    seq(|f|, k requires 0 <= k < |f| => if k == 0 then 0.0 else f[k - 1] + f[k])
  }

  /** The last entry of the running sum of `PairSums`, which `F_x` divides by: every
      inner value counted twice and the two end values once (`PairTotalIsSum`). */
  function PairTotal(f: seq<real>): real
    requires |f| > 0
  {
    2.0 * Sum(f) - f[0] - f[|f| - 1]
  }

  /** `F_x`: the running sum of `PairSums` divided by its last entry; it starts at 0
      and ends at 1. */
  function Cumulative(f: seq<real>): (cf: seq<real>)
    requires |f| > 0 && PairTotal(f) != 0.0
    ensures |cf| == |f| && cf[0] == 0.0 && cf[|f| - 1] == 1.0
  {
    var p := PairSums(f);
    var a := CumSum(p);
    CumSumFirst(p);
    CumSumLast(p);
    PairTotalIsSum(f);
    Scale(a, 1.0 / a[|a| - 1])
  }

  /** `PairTotal` is indeed the sum of the pair sums. */
  lemma {:induction false} PairTotalIsSum(f: seq<real>)
    requires |f| > 0
    ensures Sum(PairSums(f)) == PairTotal(f)
  {
    var n := |f|;
    if n >= 2 {
      var p, q := PairSums(f), PairSums(f[..n - 1]);
      assert p[..n - 1] == q;
      PairTotalIsSum(f[..n - 1]);
      assert f[..n - 1][..n - 2] == f[..n - 2];
    }
  }

  /** For a nonnegative density with positive mass on two or more points, the total
      `F_x` divides by is positive, so the cumulative table exists. */
  lemma {:induction false} PairTotalPositive(f: seq<real>)
    requires |f| >= 2 && Nonnegative(f) && Sum(f) > 0.0
    ensures PairTotal(f) >= Sum(f) > 0.0
  {
    var n := |f|;
    EntryAtMostSum(f[..n - 1], 0);
  }

  /** For a nonnegative density the cumulative table is nondecreasing and within [0, 1]. */
  lemma {:induction false} CumulativeMonotone(f: seq<real>)
    requires |f| > 0 && Nonnegative(f) && PairTotal(f) != 0.0
    ensures Sorted(Cumulative(f))
    ensures forall i :: 0 <= i < |f| ==> 0.0 <= Cumulative(f)[i] <= 1.0
  {
    var p := PairSums(f);
    assert Nonnegative(p);
    PairTotalIsSum(f);
    CumSumLast(p);
    CumSumSorted(p);
    SumNonnegative(p);
    ScaleToUnit(CumSum(p), Sum(p), 1.0 / Sum(p));
  }

  // ------------------------------------------------------------------ queries

  /** `pdf`: 0 outside the grid, the interpolated density inside it. */
  function Pdf(x: seq<real>, f: seq<real>, v: real): (p: real)
    requires |x| > 0 && |f| == |x|
    ensures v < x[0] || x[|x| - 1] < v ==> p == 0.0
    ensures x[0] <= v <= x[|x| - 1] ==>
      var b := GetWeights(x, v); Min(f[b.lb], f[b.ub]) <= p <= Max(f[b.lb], f[b.ub])
    ensures Nonnegative(f) ==> p >= 0.0
  {
    if v < x[0] || x[|x| - 1] < v then 0.0 else Interp(x, f, v)
  }

  /** On a strictly increasing grid, `pdf` at a grid point is the stored value there. */
  lemma {:induction false} PdfAtGridPoint(x: seq<real>, f: seq<real>, i: nat)
    requires i < |x| && |f| == |x| && StrictlyIncreasing(x)
    ensures Pdf(x, f, x[i]) == f[i]
  {
    InterpAtGridPoint(x, f, i);
  }

  /** `cdf(v)` needs the cumulative table only strictly inside the grid. */
  predicate CdfDefined(x: seq<real>, f: seq<real>, v: real)
  {
    |x| > 0 && |f| == |x| && (x[0] < v < x[|x| - 1] ==> PairTotal(f) != 0.0)
  }

  /** `cdf`: 0 at or left of the grid, 1 at or right of its end, the interpolated
      cumulative table strictly inside. */
  function Cdf(x: seq<real>, f: seq<real>, v: real): (c: real)
    requires CdfDefined(x, f, v)
    ensures v <= x[0] ==> c == 0.0
    ensures x[0] < v && x[|x| - 1] <= v ==> c == 1.0
    ensures Nonnegative(f) ==> 0.0 <= c <= 1.0
  {
    if v <= x[0] then 0.0
    else if x[|x| - 1] <= v then 1.0
    else
      assert Nonnegative(f) ==> 0.0 <= Interp(x, Cumulative(f), v) <= 1.0 by {
        if Nonnegative(f) {
          CumulativeMonotone(f);
        }
      }
      Interp(x, Cumulative(f), v)
  }

  /** Strictly inside the grid `cdf` lies between the cumulative values at the two
      bracketing grid points. */
  lemma {:induction false} CdfBetweenNeighbours(x: seq<real>, f: seq<real>, v: real)
    requires |x| > 0 && |f| == |x| && x[0] < v < x[|x| - 1] && PairTotal(f) != 0.0
    ensures var b, cf := GetWeights(x, v), Cumulative(f);
      Min(cf[b.lb], cf[b.ub]) <= Cdf(x, f, v) <= Max(cf[b.lb], cf[b.ub])
  {
  }

  /** `cdf` is nondecreasing for a nonnegative density on a sorted grid. */
  lemma {:induction false} CdfMonotone(x: seq<real>, f: seq<real>, v1: real, v2: real)
    requires WellFormed(x, f) && Nonnegative(f) && PairTotal(f) != 0.0 && v1 <= v2
    ensures Cdf(x, f, v1) <= Cdf(x, f, v2)
  {
    var n := |x|;
    if v1 <= x[0] || x[n - 1] <= v2 {
    } else {
      CumulativeMonotone(f);
      InterpMonotone(x, Cumulative(f), v1, v2);
    }
  }

  /** `sf = 1 - cdf`: 1 at or left of the grid, 0 at or right of its end. */
  function Sf(x: seq<real>, f: seq<real>, v: real): (s: real)
    requires CdfDefined(x, f, v)
    ensures v <= x[0] ==> s == 1.0
    ensures x[0] < v && x[|x| - 1] <= v ==> s == 0.0
    ensures Nonnegative(f) ==> 0.0 <= s <= 1.0
  {
    1.0 - Cdf(x, f, v)
  }

  /** `sf` is nonincreasing for a nonnegative density on a sorted grid. */
  lemma {:induction false} SfNonincreasing(x: seq<real>, f: seq<real>, v1: real, v2: real)
    requires WellFormed(x, f) && Nonnegative(f) && PairTotal(f) != 0.0 && v1 <= v2
    ensures Sf(x, f, v2) <= Sf(x, f, v1)
  {
    CdfMonotone(x, f, v1, v2);
  }

  /** `pdf` on a list: one value per query, in order. */
  function PdfEach(x: seq<real>, f: seq<real>, vs: seq<real>): (ps: seq<real>)
    requires |x| > 0 && |f| == |x|
    ensures |ps| == |vs| && forall i :: 0 <= i < |vs| ==> ps[i] == Pdf(x, f, vs[i])
  {
    seq(|vs|, i requires 0 <= i < |vs| => Pdf(x, f, vs[i]))
  }

  /** `cdf` on a list: one value per query, in order. */
  function CdfEach(x: seq<real>, f: seq<real>, vs: seq<real>): (cs: seq<real>)
    requires forall i :: 0 <= i < |vs| ==> CdfDefined(x, f, vs[i])
    ensures |cs| == |vs| && forall i :: 0 <= i < |vs| ==> cs[i] == Cdf(x, f, vs[i])
  {
    seq(|vs|, i requires 0 <= i < |vs| => Cdf(x, f, vs[i]))
  }

  // --------------------------------------------------------------------- ppf

  /** The size of step `i` of the search, `(x[-1] - x[0]) / 2 ** (i + 1)`
      (`StepClosedForm`), written as repeated halving. */
  function Step(x: seq<real>, i: nat): real
    requires |x| > 0
  {
    if i == 0 then Span(x) / 2.0 else Step(x, i - 1) / 2.0
  }

  lemma {:induction false} StepClosedForm(x: seq<real>, i: nat)
    requires |x| > 0
    ensures Step(x, i) == Span(x) / (Pow2(i + 1) as real)
  {
    if i > 0 {
      StepClosedForm(x, i - 1);
      var m := Pow2(i) as real;
      assert Pow2(i + 1) as real == 2.0 * m;
      assert m > 0.0;
      assert Span(x) / m / 2.0 == Span(x) / (2.0 * m);
    }
  }

  /** Where the search starts: the middle of the grid. */
  function Midpoint(x: seq<real>): real
    requires |x| > 0
  {
    (x[0] + x[|x| - 1]) / 2.0
  }

  /** `self.cdf` as the function `get_ppf` calls, for a density whose cumulative
      table exists. */
  function CdfOf(x: seq<real>, f: seq<real>): (cdf: real -> real)
    requires |x| > 0 && |f| == |x| && PairTotal(f) != 0.0
    ensures forall v :: cdf(v) == Cdf(x, f, v)
  {
    v => Cdf(x, f, v)
  }

  /** A function that is 0 at or left of the grid and 1 at or right of its end, as
      `cdf` is on a grid of positive width. */
  ghost predicate Saturates(cdf: real -> real, x: seq<real>)
    requires |x| > 0
  {
    forall v :: (v <= x[0] ==> cdf(v) == 0.0) && (x[0] < v && x[|x| - 1] <= v ==> cdf(v) == 1.0)
  }

  lemma {:induction false} CdfSaturates(x: seq<real>, f: seq<real>)
    requires |x| > 0 && |f| == |x| && PairTotal(f) != 0.0
    ensures Saturates(CdfOf(x, f), x)
  {
  }

  /** `get_ppf` returns `v` once `cdf(v)` is within the tolerance of `q` or the step
      counter has passed `MaxIter`. */
  predicate Stops(cdf: real -> real, q: real, v: real, i: nat)
  {
    Abs(cdf(v) - q) < Tolerance || i > MaxIter
  }

  /** Otherwise it steps right when `cdf(v)` is below `q` and left when it is above. */
  function Next(cdf: real -> real, x: seq<real>, q: real, v: real, i: nat): real
    requires |x| > 0
  {
    if cdf(v) - q < 0.0 then v + Step(x, i) else v - Step(x, i)
  }

  /** `get_ppf(v, i)`: the point where the walk of halving steps stops. */
  function Search(cdf: real -> real, x: seq<real>, q: real, v: real, i: nat): real
    requires |x| > 0
    decreases MaxIter + 1 - i
  {
    if Stops(cdf, q, v, i) then v else Search(cdf, x, q, Next(cdf, x, q, v, i), i + 1)
  }

  /** The steps from `i` on halve each time, so wherever the search stops it is less
      than twice step `i` away from where it was at step `i`. */
  lemma {:induction false} SearchWithinSteps(cdf: real -> real, x: seq<real>, q: real, v: real, i: nat)
    requires |x| > 0
    ensures Abs(Search(cdf, x, q, v, i) - v) <= 2.0 * Abs(Step(x, i))
    decreases MaxIter + 1 - i
  {
    if !Stops(cdf, q, v, i) {
      var w := Next(cdf, x, q, v, i);
      SearchWithinSteps(cdf, x, q, w, i + 1);
      assert Abs(Step(x, i + 1)) * 2.0 == Abs(Step(x, i));
      assert Abs(w - v) == Abs(Step(x, i));
    }
  }

  /** The value of the step counter when the search stops: it never passes
      `MaxIter + 1`, and short of that the search stopped within the tolerance. */
  ghost function SearchSteps(cdf: real -> real, x: seq<real>, q: real, v: real, i: nat): (n: nat)
    requires |x| > 0 && i <= MaxIter + 1
    ensures i <= n <= MaxIter + 1
    ensures Abs(cdf(Search(cdf, x, q, v, i)) - q) < Tolerance || n == MaxIter + 1
    decreases MaxIter + 1 - i
  {
    if Stops(cdf, q, v, i) then i else SearchSteps(cdf, x, q, Next(cdf, x, q, v, i), i + 1)
  }

  /** `ppf(q)` reads the cumulative table unless `q` is 0 or 1. */
  predicate Searchable(f: seq<real>, q: real)
    requires |f| > 0
  {
    q == 0.0 || q == 1.0 || PairTotal(f) != 0.0
  }

  /** The quantile `isf` passes on to `ppf`: the probability of the other tail. */
  function Complement(q: real): real
  {
    1.0 - q
  }

  /** `ppf(q)`: the grid ends for `q == 0` and `q == 1`, the search from the midpoint
      otherwise.  For a quantile in [0, 1] on a grid of positive width the result stays
      on the grid, because `cdf` saturates at both ends and so never sends the walk
      outward from an end point. */
  function PpfValue(x: seq<real>, f: seq<real>, q: real): (r: real)
    requires |x| > 0 && |f| == |x| && Searchable(f, q)
    ensures q == 0.0 ==> r == x[0]
    ensures q == 1.0 ==> r == x[|x| - 1]
    ensures x[0] < x[|x| - 1] && 0.0 <= q <= 1.0 ==> x[0] <= r <= x[|x| - 1]
  {
    if q == 0.0 then x[0]
    else if q == 1.0 then x[|x| - 1]
    else
      var cdf := CdfOf(x, f);
      assert x[0] < x[|x| - 1] && 0.0 <= q <= 1.0 ==>
          x[0] <= Search(cdf, x, q, Midpoint(x), 0) <= x[|x| - 1] by {
        if x[0] < x[|x| - 1] && 0.0 <= q <= 1.0 {
          CdfSaturates(x, f);
          assert Midpoint(x) == x[0] + Times(1, Step(x, 0));
          SearchOnGrid(cdf, x, q, Midpoint(x), 0, 1);
        }
      }
      Search(cdf, x, q, Midpoint(x), 0)
  }

  /** `get_ppf`'s recursion run as a loop: from the midpoint, halving steps towards
      `q` until `cdf` is within the tolerance or the steps run out. */
  method Bisect(cdf: real -> real, x: seq<real>, q: real) returns (r: real)
    requires |x| > 0
    ensures r == Search(cdf, x, q, Midpoint(x), 0)
  {
    var v := (x[0] + x[|x| - 1]) / 2.0;
    var i: nat := 0;
    var delta := cdf(v) - q;
    while Tolerance <= Abs(delta) && i <= MaxIter
      invariant i <= MaxIter + 1
      invariant delta == cdf(v) - q
      invariant Search(cdf, x, q, v, i) == Search(cdf, x, q, Midpoint(x), 0)
      decreases MaxIter + 1 - i
    {
      // Step(x, i) is `(x[-1] - x[0]) / 2 ** (i + 1)` (StepClosedForm).
      var stepSize := Step(x, i);
      if delta < 0.0 {
        v := v + stepSize;
      } else {
        v := v - stepSize;
      }
      i := i + 1;
      delta := cdf(v) - q;
    }
    r := v;
  }

  /** `top` steps of size `Step(x, i)` span the grid, `top` being `2 ** (i + 1)`. */
  lemma {:induction false} StepsSpanGrid(x: seq<real>, i: nat)
    requires |x| > 0
    ensures Times(Pow2(i + 1), Step(x, i)) == Span(x)
  {
    if i == 0 {
      assert Times(2, Span(x) / 2.0) == Span(x) / 2.0 + Times(1, Span(x) / 2.0);
    } else {
      StepsSpanGrid(x, i - 1);
      TimesHalf(Pow2(i), Step(x, i - 1));
    }
  }

  lemma {:induction false} StepPositive(x: seq<real>, i: nat)
    requires |x| > 0 && x[0] < x[|x| - 1]
    ensures Step(x, i) > 0.0
  {
    if i > 0 {
      StepPositive(x, i - 1);
    }
  }

  /** The search only visits points `x[0] + n * Step(x, i)` with `0 <= n <= 2 ** (i + 1)`,
      all on the grid, when `0 <= q <= 1` and the grid has positive width. */
  lemma {:induction false} SearchOnGrid(cdf: real -> real, x: seq<real>, q: real, v: real, i: nat, n: nat)
    requires |x| > 0 && x[0] < x[|x| - 1] && Saturates(cdf, x)
    requires 0.0 <= q <= 1.0 && i <= MaxIter + 1
    requires n <= Pow2(i + 1) && v == x[0] + Times(n, Step(x, i))
    ensures x[0] <= Search(cdf, x, q, v, i) <= x[|x| - 1]
    decreases MaxIter + 1 - i
  {
    var u, top := Step(x, i), Pow2(i + 1);
    StepPositive(x, i);
    StepsSpanGrid(x, i);
    TimesMonotone(0, n, u);
    TimesMonotone(n, top, u);
    if !Stops(cdf, q, v, i) {
      var w := Next(cdf, x, q, v, i);
      assert Pow2(i + 2) == 2 * top;
      assert Step(x, i + 1) == u / 2.0;
      if cdf(v) - q < 0.0 {
        // cdf(v) < q <= 1, so v is left of the grid's end and another step fits.
        assert v < x[|x| - 1];
        assert n < top by {
          if n >= top {
            TimesMonotone(top, n, u);
          }
        }
        TimesHalf(n + 1, u);
        SearchOnGrid(cdf, x, q, w, i + 1, 2 * (n + 1));
      } else {
        // cdf(v) > q >= 0, so v is right of the grid's start and a step back fits.
        assert x[0] < v;
        assert n > 0;
        assert Times(n, u) == u + Times(n - 1, u);
        TimesHalf(n - 1, u);
        SearchOnGrid(cdf, x, q, w, i + 1, 2 * (n - 1));
      }
    }
  }

  /** `ppf` inverts `cdf`: exactly at `q == 0` and (on a grid of positive width) at
      `q == 1`; otherwise up to the tolerance, unless the search used up its steps. */
  lemma {:induction false} PpfInvertsCdf(x: seq<real>, f: seq<real>, q: real)
    requires |x| > 0 && |f| == |x| && PairTotal(f) != 0.0 && x[0] < x[|x| - 1]
    ensures q == 0.0 || q == 1.0 ==> Cdf(x, f, PpfValue(x, f, q)) == q
    ensures q != 0.0 && q != 1.0 ==>
      Abs(Cdf(x, f, PpfValue(x, f, q)) - q) < Tolerance ||
      SearchSteps(CdfOf(x, f), x, q, Midpoint(x), 0) == MaxIter + 1
  {
  }

  // ----------------------------------------------------------------- moments

  datatype MomentKind = Raw | Central

  /** `moment(degree, type_)` as written: the mean of `(x - c) ** degree * f_x` with
      `c = 0` for raw moments and `c = mean()` for central ones.  It leaves out the
      grid width, although the setter normalises `f_x` to `mean(f_x) * span == 1`. */
  function Moment(x: seq<real>, f: seq<real>, degree: nat, kind: MomentKind): (r: real)
    requires |x| > 0 && |f| == |x|
    ensures kind == Raw && degree == 0 ==> r == Mean(f)
    ensures Nonnegative(f) && degree % 2 == 0 ==> r >= 0.0
    decreases kind == Central
  {
    match kind
    case Raw =>
      ZerothPowers(x, f, 0.0);
      WeightedPowerMean(x, f, 0.0, degree)
    case Central => WeightedPowerMean(x, f, Moment(x, f, 1, Raw), degree)
  }

  lemma {:induction false} ZerothPowers(x: seq<real>, f: seq<real>, c: real)
    requires |f| == |x|
    ensures PowerProducts(x, f, c, 0) == f
  {
  }

  /** On the grid [2, 4] the uniform density is stored as 0.5 everywhere, and `moment(1)`
      returns 1.5, a mean outside the support. */
  lemma {:induction false} MomentIgnoresSpan()
    ensures Normalizer([2.0, 4.0], [1.0, 1.0]) == 2.0
    ensures Normalize([2.0, 4.0], [1.0, 1.0]) == [0.5, 0.5]
    ensures Moment([2.0, 4.0], [0.5, 0.5], 1, Raw) == 1.5
  {
    var x, f := [2.0, 4.0], [0.5, 0.5];
    assert Sum([1.0, 1.0]) == 2.0 by {
      assert [1.0, 1.0][..1] == [1.0];
      assert [1.0] [..0] == [];
    }
    assert Normalizer(x, [1.0, 1.0]) == 2.0;
    var p := PowerProducts(x, f, 0.0, 1);
    FirstPowerProduct(x, f, 0);
    FirstPowerProduct(x, f, 1);
    assert p == [1.0, 2.0];
    assert Sum(p) == 3.0 by {
      assert p[..1] == [1.0];
      assert [1.0][..0] == [];
    }
  }

  /** The moment of a density stored with `mean(f) * span == 1`: the mean of
      `(x - c) ** degree * f` times the grid width, the centre of a central moment
      being the first raw one. */
  function ExpectedPower(x: seq<real>, f: seq<real>, degree: nat, kind: MomentKind): (r: real)
    requires |x| > 0 && |f| == |x|
    ensures Nonnegative(f) && Span(x) >= 0.0 && degree % 2 == 0 ==> r >= 0.0
    decreases kind == Central
  {
    var c := if kind == Raw then 0.0 else ExpectedPower(x, f, 1, Raw);
    var w := WeightedPowerMean(x, f, c, degree);
    assert Nonnegative(f) && Span(x) >= 0.0 && degree % 2 == 0 ==> Span(x) * w >= 0.0 by {
      if Nonnegative(f) && Span(x) >= 0.0 && degree % 2 == 0 {
        MulNonneg(Span(x), w);
      }
    }
    Span(x) * w
  }

  /** `mean()` with the grid width restored. */
  function MeanValue(x: seq<real>, f: seq<real>): real
    requires |x| > 0 && |f| == |x|
  {
    ExpectedPower(x, f, 1, Raw)
  }

  /** `var()` with the grid width restored. */
  function Variance(x: seq<real>, f: seq<real>): (r: real)
    requires |x| > 0 && |f| == |x|
    ensures Nonnegative(f) && Span(x) >= 0.0 ==> r >= 0.0
  {
    ExpectedPower(x, f, 2, Central)
  }

  /** A stored density has total mass 1: its zeroth moment. */
  lemma {:induction false} ExpectedMassIsOne(x: seq<real>, f: seq<real>)
    requires |x| > 0 && |f| == |x| && Normalizer(x, f) == 1.0
    ensures ExpectedPower(x, f, 0, Raw) == 1.0
  {
    ZerothPowers(x, f, 0.0);
    RawExpectedPower(x, f, 0);
    UnitMass(x, f);
  }

  /** The mean of a nonnegative stored density lies on its grid. */
  lemma {:induction false} MeanWithinGrid(x: seq<real>, f: seq<real>)
    requires WellFormed(x, f) && Nonnegative(f) && Normalizer(x, f) == 1.0
    ensures x[0] <= MeanValue(x, f) <= x[|x| - 1]
  {
    SortedWithinEnds(x);
    MeanWithin(x, f, x[0], x[|x| - 1]);
  }

  lemma {:induction false} MeanWithin(x: seq<real>, f: seq<real>, a: real, b: real)
    requires |x| > 0 && |f| == |x| && Nonnegative(f) && Normalizer(x, f) == 1.0 && Span(x) >= 0.0
    requires forall i :: 0 <= i < |x| ==> a <= x[i] <= b
    ensures a <= MeanValue(x, f) <= b
  {
    FirstMomentWithin(x, f, a, b);
    UnitMass(x, f);
    RawExpectedPower(x, f, 1);
    UnitMassBounds(Span(x), Mean(f), WeightedPowerMean(x, f, 0.0, 1), a, b);
  }

  /** A stored density has `span * mean(f) == 1`. */
  lemma {:induction false} UnitMass(x: seq<real>, f: seq<real>)
    requires |x| > 0 && |f| == |x| && Normalizer(x, f) == 1.0
    ensures Span(x) * Mean(f) == 1.0
  {
    DivAssoc(Sum(f), Span(x), |x| as real);
  }

  lemma {:induction false} RawExpectedPower(x: seq<real>, f: seq<real>, degree: nat)
    requires |x| > 0 && |f| == |x|
    ensures ExpectedPower(x, f, degree, Raw) == Span(x) * WeightedPowerMean(x, f, 0.0, degree)
  {
  }

  /** `a * m <= w <= b * m` scaled by `s` with `s * m == 1`. */
  lemma {:induction false} UnitMassBounds(s: real, m: real, w: real, a: real, b: real)
    requires s >= 0.0 && s * m == 1.0 && a * m <= w <= b * m
    ensures a <= s * w <= b
  {
    MulLeLeft(s, a * m, w);
    MulLeLeft(s, w, b * m);
    assert s * (a * m) == a * (s * m);
    assert s * (b * m) == b * (s * m);
  }

  // -------------------------------------------------------------------- class

  /** A distribution object: the grid and the stored (normalised) density. */
  class Distribution {
    var x: seq<real>
    var fx: seq<real>

    /** `Distribution(x=None, f_x=None)`: the grid defaults to `linspace(0, 1)`, the
        density to ones on it, and the density goes through the setter. */
    constructor (xs: Option<seq<real>>, fs: Option<seq<real>>)
      requires |xs.GetOr(DefaultGrid())| > 0
      requires Normalizer(xs.GetOr(DefaultGrid()), fs.GetOr(Const(1.0, |xs.GetOr(DefaultGrid())|))) != 0.0
      ensures x == xs.GetOr(DefaultGrid())
      ensures fx == Normalize(x, fs.GetOr(Const(1.0, |x|)))
    {
      x := xs.GetOr(DefaultGrid());
      fx := [];
      new;
      SetDensity(fs.GetOr(Const(1.0, |x|)));
    }

    /** The `f_x` setter: stores `f` rescaled to mass 1; the grid is unchanged. */
    method SetDensity(f: seq<real>)
      requires |x| > 0 && Normalizer(x, f) != 0.0
      modifies `fx
      ensures x == old(x) && fx == Normalize(x, f)
      ensures Normalizer(x, fx) == 1.0
    {
      var s := Normalizer(x, f);
      fx := Scale(f, 1.0 / s);
    }

    /** `load`: a new distribution from dumped fields.  Loading what `dump` wrote
        (a density that is already normalised) reproduces it exactly. */
    static method Load(xs: seq<real>, fs: seq<real>) returns (d: Distribution)
      requires |xs| > 0 && Normalizer(xs, fs) != 0.0
      ensures fresh(d) && d.x == xs && d.fx == Normalize(xs, fs)
      ensures Normalizer(xs, fs) == 1.0 ==> d.fx == fs
    {
      d := new Distribution(Some(xs), Some(fs));
      if Normalizer(xs, fs) == 1.0 {
        NormalizeIdempotent(xs, fs);
      }
    }

    /** `ppf(q)` for one quantile. */
    method Ppf(q: real) returns (r: real)
      requires |x| > 0 && |fx| == |x| && Searchable(fx, q)
      ensures r == PpfValue(x, fx, q)
    {
      if q == 0.0 {
        return x[0];
      }
      if q == 1.0 {
        return x[|x| - 1];
      }
      r := Bisect(CdfOf(x, fx), x, q);
    }

    /** `ppf` on a list: one quantile after another, in order. */
    method PpfEach(qs: seq<real>) returns (rs: seq<real>)
      requires |x| > 0 && |fx| == |x|
      requires forall k :: 0 <= k < |qs| ==> Searchable(fx, qs[k])
      ensures |rs| == |qs| && forall k :: 0 <= k < |qs| ==> rs[k] == PpfValue(x, fx, qs[k])
    {
      rs := [];
      for k := 0 to |qs|
        invariant |rs| == k && forall j :: 0 <= j < k ==> rs[j] == PpfValue(x, fx, qs[j])
      {
        var r := Ppf(qs[k]);
        rs := rs + [r];
      }
    }

    /** `isf(q) = ppf(1 - q)`. */
    method Isf(q: real) returns (r: real)
      requires |x| > 0 && |fx| == |x| && Searchable(fx, Complement(q))
      ensures r == PpfValue(x, fx, Complement(q))
    {
      r := Ppf(Complement(q));
    }

    /** `median() = ppf(0.5)`. */
    method Median() returns (r: real)
      requires |x| > 0 && |fx| == |x| && PairTotal(fx) != 0.0
      ensures r == PpfValue(x, fx, 0.5)
      ensures x[0] < x[|x| - 1] ==> x[0] <= r <= x[|x| - 1]
    {
      r := Ppf(0.5);
    }
  }
}
