/**
 * The older standalone `Smoother` (smoother/__init__.py).  It keeps the same grid and
 * stored values as `Distribution` but reads them differently: the public density is the
 * stored values divided by the grid width, the cumulative table is a plain running sum
 * divided by the total, `cdf` moves the lower bracketing index one step left, and `ppf`
 * always runs the search, with no shortcut at 0 or 1.  Its stored values are meant to
 * have mean 1 (the constructor stores ones), which is what its moments assume.
 */
module Smoothers {
  import opened Grid
  import Distributions

  // ------------------------------------------------------------ the tables

  /** The `f_x` property: the stored values divided by the grid width. */
  function PublicDensity(x: seq<real>, f: seq<real>): (g: seq<real>)
    requires |x| > 0 && Span(x) != 0.0
    ensures |g| == |f|
  {
    Scale(f, 1.0 / Span(x))
  }

  /** Multiplying the public density back by the grid width gives the stored values. */
  lemma {:induction false} PublicDensityRescales(x: seq<real>, f: seq<real>)
    requires |x| > 0 && Span(x) != 0.0
    ensures forall i :: 0 <= i < |f| ==> PublicDensity(x, f)[i] * Span(x) == f[i]
  {
    Distributions.ScaledBack(f, Span(x), 1.0 / Span(x));
  }

  /** The `F_x` property: the running sum of the stored values divided by its last
      entry.  It ends at 1 but starts at `f[0] / total`, not at 0. */
  function CumTable(f: seq<real>): (cf: seq<real>)
    requires |f| > 0 && Sum(f) != 0.0
    ensures |cf| == |f| && cf[|f| - 1] == 1.0
  {
    var a := CumSum(f);
    CumSumLast(f);
    DivSelf(Sum(f));
    Scale(a, 1.0 / a[|a| - 1])
  }

  /** The table starts at `f[0] / total`, so it is 0 there only when `f[0]` is. */
  lemma {:induction false} CumTableFirst(f: seq<real>)
    requires |f| > 0 && Sum(f) != 0.0
    ensures CumTable(f)[0] * Sum(f) == f[0]
  {
    CumSumFirst(f);
    CumSumLast(f);
    Distributions.InverseCancels(f[0], Sum(f), 1.0 / Sum(f));
  }

  /** For nonnegative stored values the cumulative table is nondecreasing and within [0, 1]. */
  lemma {:induction false} CumTableMonotone(f: seq<real>)
    requires |f| > 0 && Nonnegative(f) && Sum(f) != 0.0
    ensures Sorted(CumTable(f))
    ensures forall i :: 0 <= i < |f| ==> 0.0 <= CumTable(f)[i] <= 1.0
  {
    CumSumLast(f);
    CumSumSorted(f);
    SumNonnegative(f);
    ScaleToUnit(CumSum(f), Sum(f), 1.0 / Sum(f));
  }

  // --------------------------------------------------------------- queries

  /** `pdf(v)` reads the public density, which needs a grid of nonzero width, only
      on the grid. */
  predicate PdfDefined(x: seq<real>, f: seq<real>, v: real)
  {
    |x| > 0 && |f| == |x| && (x[0] <= v <= x[|x| - 1] ==> Span(x) != 0.0)
  }

  /** `pdf`: 0 outside the grid, the interpolated public density on it. */
  function Pdf(x: seq<real>, f: seq<real>, v: real): (p: real)
    requires PdfDefined(x, f, v)
    ensures v < x[0] || x[|x| - 1] < v ==> p == 0.0
  {
    if v < x[0] || x[|x| - 1] < v then 0.0 else Distributions.Pdf(x, PublicDensity(x, f), v)
  }

  /** The old `pdf` is the current one divided by the grid width. */
  lemma {:induction false} PdfRescaled(x: seq<real>, f: seq<real>, v: real)
    requires |x| > 0 && |f| == |x| && Span(x) != 0.0
    ensures Pdf(x, f, v) * Span(x) == Distributions.Pdf(x, f, v)
  {
    if x[0] <= v <= x[|x| - 1] {
      var g := PublicDensity(x, f);
      PublicDensityRescales(x, f);
      PdfLinear(x, f, g, Span(x), v);
      SameTimes(Pdf(x, f, v), Distributions.Pdf(x, g, v), Span(x), Distributions.Pdf(x, f, v));
    }
  }

  /** Equal factors give equal products. */
  lemma {:induction false} SameTimes(a: real, b: real, s: real, c: real)
    requires a == b && b * s == c
    ensures a * s == c
  {
  }

  /** `pdf` of values that are `f / s` is the `pdf` of `f` divided by `s`. */
  lemma {:induction false} PdfLinear(x: seq<real>, f: seq<real>, g: seq<real>, s: real, v: real)
    requires |x| > 0 && |f| == |x| && |g| == |x|
    requires forall i :: 0 <= i < |f| ==> g[i] * s == f[i]
    ensures Distributions.Pdf(x, g, v) * s == Distributions.Pdf(x, f, v)
  {
    if x[0] <= v <= x[|x| - 1] {
      InterpRescaled(x, f, g, s, v);
    }
  }

  /** Interpolating values that are `f / s` gives the interpolated `f` divided by `s`. */
  lemma {:induction false} InterpRescaled(x: seq<real>, f: seq<real>, g: seq<real>, s: real, v: real)
    requires |x| > 0 && |f| == |x| && |g| == |x| && x[0] <= v <= x[|x| - 1]
    requires forall i :: 0 <= i < |f| ==> g[i] * s == f[i]
    ensures Interp(x, g, v) * s == Interp(x, f, v)
  {
    var b := GetWeights(x, v);
    Recombine(b.wLb, b.wUb, g[b.lb], g[b.ub], f[b.lb], f[b.ub], s);
  }

  lemma {:induction false} Recombine(wl: real, wu: real, gl: real, gu: real, fl: real, fu: real, s: real)
    requires gl * s == fl && gu * s == fu
    ensures (wl * gl + wu * gu) * s == wl * fl + wu * fu
  {
    assert (wl * gl + wu * gu) * s == wl * (gl * s) + wu * (gu * s);
  }

  /** On a strictly increasing grid of two or more points, `pdf` at a grid point is the
      stored value there divided by the grid width. */
  lemma {:induction false} PdfAtGridPoint(x: seq<real>, f: seq<real>, i: nat)
    requires i < |x| && |x| >= 2 && |f| == |x| && StrictlyIncreasing(x)
    ensures Pdf(x, f, x[i]) * Span(x) == f[i]
  {
    PdfRescaled(x, f, x[i]);
    Distributions.PdfAtGridPoint(x, f, i);
  }

  /** `max(0, lb - 1)`: the lower index `cdf` reads, one left of the bracketing one. */
  function ShiftedLower(lb: nat): (k: nat)
    ensures k <= lb && (lb == 0 ==> k == 0) && (lb > 0 ==> k == lb - 1)
  {
    if lb == 0 then 0 else lb - 1
  }

  /** `cdf(v)` needs the cumulative table only strictly inside the grid. */
  predicate CdfDefined(x: seq<real>, f: seq<real>, v: real)
  {
    |x| > 0 && |f| == |x| && (x[0] < v < x[|x| - 1] ==> Sum(f) != 0.0)
  }

  /** The bracketing weights of `v` applied to `cf` at `max(0, lb - 1)` and `ub`. */
  function ShiftedInterp(x: seq<real>, cf: seq<real>, v: real): (r: real)
    requires |x| > 0 && |cf| == |x| && x[0] <= v <= x[|x| - 1]
    ensures var b := GetWeights(x, v);
      Min(cf[ShiftedLower(b.lb)], cf[b.ub]) <= r <= Max(cf[ShiftedLower(b.lb)], cf[b.ub])
  {
    var b := GetWeights(x, v);
    var lb := ShiftedLower(b.lb);
    ConvexBetween(b.wLb, b.wUb, cf[lb], cf[b.ub]);
    b.wLb * cf[lb] + b.wUb * cf[b.ub]
  }

  /** Reading a table with entries in [0, 1] gives a value in [0, 1]. */
  lemma {:induction false} ShiftedInterpUnit(x: seq<real>, cf: seq<real>, v: real)
    requires |x| > 0 && |cf| == |x| && x[0] <= v <= x[|x| - 1]
    requires forall i :: 0 <= i < |cf| ==> 0.0 <= cf[i] <= 1.0
    ensures 0.0 <= ShiftedInterp(x, cf, v) <= 1.0
  {
    var b := GetWeights(x, v);
    assert 0.0 <= cf[ShiftedLower(b.lb)] <= 1.0;
    assert 0.0 <= cf[b.ub] <= 1.0;
  }

  /** `cdf`: 0 at or left of the grid, 1 at or right of its end, and strictly inside the
      shifted reading of the cumulative table. */
  function Cdf(x: seq<real>, f: seq<real>, v: real): (c: real)
    requires CdfDefined(x, f, v)
    ensures v <= x[0] ==> c == 0.0
    ensures x[0] < v && x[|x| - 1] <= v ==> c == 1.0
    ensures Nonnegative(f) ==> 0.0 <= c <= 1.0
  {
    if v <= x[0] then 0.0
    else if x[|x| - 1] <= v then 1.0
    else
      assert Nonnegative(f) ==> 0.0 <= ShiftedInterp(x, CumTable(f), v) <= 1.0 by {
        if Nonnegative(f) {
          CumTableMonotone(f);
          ShiftedInterpUnit(x, CumTable(f), v);
        }
      }
      ShiftedInterp(x, CumTable(f), v)
  }

  /** The shifted index makes `cdf` drop at a grid point: with four unit values on
      [0, 1, 2, 3] the table is [0.25, 0.5, 0.75, 1], `cdf(1.9)` is 0.7 but `cdf(2)`
      is 0.625. */
  lemma {:induction false} CdfDipsAtGridPoint()
    ensures Sum([1.0, 1.0, 1.0, 1.0]) == 4.0
    ensures Cdf([0.0, 1.0, 2.0, 3.0], [1.0, 1.0, 1.0, 1.0], 1.9) == 0.7
    ensures Cdf([0.0, 1.0, 2.0, 3.0], [1.0, 1.0, 1.0, 1.0], 2.0) == 0.625
  {
    var x, f := [0.0, 1.0, 2.0, 3.0], [1.0, 1.0, 1.0, 1.0];
    UnitTable();
    var b := GetWeights(x, 1.9);
    assert b.lb == 1 by {
      assert x[2] > 1.9;
    }
    assert b.ub == 2 by {
      assert x[1] < 1.9;
    }
    assert b.wUb == 0.9 by {
      assert b.wLb * 1.0 + b.wUb * 2.0 == 1.9;
    }
    var e := GetWeights(x, 2.0);
    assert e.lb == 2 by {
      assert x[3] > 2.0;
    }
    assert e.ub == 2 by {
      assert x[1] < 2.0;
    }
  }

  /** The table of four unit values. */
  lemma {:induction false} UnitTable()
    ensures Sum([1.0, 1.0, 1.0, 1.0]) == 4.0
    ensures CumTable([1.0, 1.0, 1.0, 1.0]) == [0.25, 0.5, 0.75, 1.0]
  {
    var f := [1.0, 1.0, 1.0, 1.0];
    assert f[..1] == [1.0];
    assert f[..2] == [1.0, 1.0];
    assert f[..3] == [1.0, 1.0, 1.0];
    assert f[..4] == f;
    assert [1.0, 1.0, 1.0][..2] == [1.0, 1.0];
    assert [1.0, 1.0][..1] == [1.0];
    assert [1.0][..0] == [];
    assert CumSum(f) == [1.0, 2.0, 3.0, 4.0];
  }

  /** `sf = 1 - cdf`: 1 at or left of the grid, 0 at or right of its end. */
  function Sf(x: seq<real>, f: seq<real>, v: real): (s: real)
    requires CdfDefined(x, f, v)
    ensures v <= x[0] ==> s == 1.0
    ensures x[0] < v && x[|x| - 1] <= v ==> s == 0.0
    ensures Nonnegative(f) ==> 0.0 <= s <= 1.0
  {
    1.0 - Cdf(x, f, v)
  }

  // ------------------------------------------------------------------- ppf

  /** `self.cdf` as `get_ppf` calls it. */
  function CdfOf(x: seq<real>, f: seq<real>): (cdf: real -> real)
    requires |x| > 0 && |f| == |x| && Sum(f) != 0.0
    ensures forall v :: cdf(v) == Cdf(x, f, v)
  {
    v => Cdf(x, f, v)
  }

  lemma {:induction false} CdfSaturates(x: seq<real>, f: seq<real>)
    requires |x| > 0 && |f| == |x| && Sum(f) != 0.0
    ensures Distributions.Saturates(CdfOf(x, f), x)
  {
  }

  /** `ppf(q)`: the walk of halving steps from the midpoint, for every `q` (there is no
      shortcut at 0 or 1).  For a quantile in [0, 1] on a grid of positive width the
      result stays on the grid. */
  function PpfValue(x: seq<real>, f: seq<real>, q: real): (r: real)
    requires |x| > 0 && |f| == |x| && Sum(f) != 0.0
    ensures x[0] < x[|x| - 1] && 0.0 <= q <= 1.0 ==> x[0] <= r <= x[|x| - 1]
  {
    var cdf := CdfOf(x, f);
    assert x[0] < x[|x| - 1] && 0.0 <= q <= 1.0 ==>
        x[0] <= Distributions.Search(cdf, x, q, Distributions.Midpoint(x), 0) <= x[|x| - 1] by {
      if x[0] < x[|x| - 1] && 0.0 <= q <= 1.0 {
        CdfSaturates(x, f);
        assert Distributions.Midpoint(x) == x[0] + Times(1, Distributions.Step(x, 0));
        Distributions.SearchOnGrid(cdf, x, q, Distributions.Midpoint(x), 0, 1);
      }
    }
    Distributions.Search(cdf, x, q, Distributions.Midpoint(x), 0)
  }

  /** `ppf` inverts the old `cdf` up to the tolerance, unless the search used up its steps. */
  lemma {:induction false} PpfInvertsCdf(x: seq<real>, f: seq<real>, q: real)
    requires |x| > 0 && |f| == |x| && Sum(f) != 0.0
    ensures Abs(Cdf(x, f, PpfValue(x, f, q)) - q) < Distributions.Tolerance ||
      Distributions.SearchSteps(CdfOf(x, f), x, q, Distributions.Midpoint(x), 0) == Distributions.MaxIter + 1
  {
    var n := Distributions.SearchSteps(CdfOf(x, f), x, q, Distributions.Midpoint(x), 0);
  }

  // --------------------------------------------------------------- moments

  /** The stored values of a new smoother, ones, have mean 1. */
  lemma {:induction false} OnesHaveUnitMean(num: nat)
    requires num > 0
    ensures Mean(Const(1.0, num)) == 1.0
  {
    SumConst(1.0, num);
  }

  /** `mean() = moment(1)`: with stored values of mean 1, the mean lies on the grid. */
  lemma {:induction false} MeanWithinGrid(x: seq<real>, f: seq<real>)
    requires WellFormed(x, f) && Nonnegative(f) && Mean(f) == 1.0
    ensures x[0] <= Distributions.Moment(x, f, 1, Distributions.Raw) <= x[|x| - 1]
  {
    SortedWithinEnds(x);
    FirstMomentWithin(x, f, x[0], x[|x| - 1]);
  }

  // ----------------------------------------------------------------- class

  /** A smoother object: the grid and the stored values, which the queries above read
      and which `load` and the constructor assign. */
  class Smoother {
    var x: seq<real>
    var fx: seq<real>

    /** `Smoother(lb=0, ub=1, num=50)`: `num` evenly spaced points and ones on them. */
    constructor (lb: real := 0.0, ub: real := 1.0, num: nat := 50)
      ensures x == Linspace(lb, ub, num) && fx == Const(1.0, num)
    {
      x := Linspace(lb, ub, num);
      fx := Const(1.0, num);
    }

    /** `load`: a default smoother whose fields are then replaced verbatim, with no
        renormalisation. */
    static method Load(xs: seq<real>, fs: seq<real>) returns (s: Smoother)
      ensures fresh(s) && s.x == xs && s.fx == fs
    {
      s := new Smoother(0.0, 1.0, Distributions.DefaultGridSize);
      s.x := xs;
      s.fx := fs;
    }

    /** `ppf(q)`: the search run as a loop. */
    method Ppf(q: real) returns (r: real)
      requires |x| > 0 && |fx| == |x| && Sum(fx) != 0.0
      ensures r == PpfValue(x, fx, q)
    {
      r := Distributions.Bisect(CdfOf(x, fx), x, q);
    }

    /** `isf(q) = ppf(1 - q)`. */
    method Isf(q: real) returns (r: real)
      requires |x| > 0 && |fx| == |x| && Sum(fx) != 0.0
      ensures r == PpfValue(x, fx, Distributions.Complement(q))
    {
      r := Ppf(Distributions.Complement(q));
    }

    /** `median() = ppf(0.5)`, on the grid when the grid has positive width. */
    method Median() returns (r: real)
      requires |x| > 0 && |fx| == |x| && Sum(fx) != 0.0
      ensures r == PpfValue(x, fx, 0.5)
      ensures x[0] < x[|x| - 1] ==> x[0] <= r <= x[|x| - 1]
    {
      r := Ppf(0.5);
    }
  }
}
