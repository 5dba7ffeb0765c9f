/**
 * The penalty and objective evaluators of build/lib/smoother/utils.py.  Each one reads a
 * smoother's grid `x` and stored values `f` (and, through `cdf` and `moment`, the
 * queries of the old `Smoother`) and returns one number; none changes the smoother,
 * which is why they are functions of `(x, f)` here.
 *
 * Where numpy would produce NaN (the mean of an empty derivative) or Python would raise
 * (`1e-3 / 0 ** 2`), and where a default weight would be infinite (a grid of width 0),
 * the result is `None`.
 */
module Objectives {
  import opened Wrappers
  import opened Grid
  import Distributions
  import Smoothers

  // ------------------------------------------------------------- differences

  /** `np.diff(s)`: the differences of neighbouring entries; empty for fewer than two. */
  function Diff(s: seq<real>): (r: seq<real>)
    ensures |r| == if |s| == 0 then 0 else |s| - 1
    ensures forall i :: 0 <= i < |r| ==> r[i] == s[i + 1] - s[i]
  {
    if |s| == 0 then [] else seq(|s| - 1, i requires 0 <= i < |s| - 1 => s[i + 1] - s[i])
  }

  /** `np.diff(s, n=d)`: `Diff` applied `d` times. */
  function DiffN(s: seq<real>, d: nat): (r: seq<real>)
    ensures |r| == if |s| <= d then 0 else |s| - d
    decreases d
  {
    if d == 0 then s else DiffN(Diff(s), d - 1)
  }

  /** Every entry equals every other. */
  predicate Flat(s: seq<real>)
  {
    forall i, j :: 0 <= i < |s| && 0 <= j < |s| ==> s[i] == s[j]
  }

  /** Repeated differences of a flat sequence are all 0 once at least one is taken. */
  lemma {:induction false} DiffNFlat(s: seq<real>, d: nat)
    requires Flat(s) && d >= 1
    ensures forall i :: 0 <= i < |DiffN(s, d)| ==> DiffN(s, d)[i] == 0.0
    decreases d
  {
    var t := Diff(s);
    assert Flat(t) by {
      forall i | 0 <= i < |t| ensures t[i] == 0.0 {
        assert s[i + 1] == s[i];
      }
    }
    if d > 1 {
      DiffNFlat(t, d - 1);
    } else {
      assert DiffN(t, 0) == t;
      forall i | 0 <= i < |t| ensures t[i] == 0.0 {
        assert s[i + 1] == s[i];
      }
    }
  }

  /** Neighbouring entries that agree make a flat sequence. */
  lemma {:induction false} NeighboursEqualIsFlat(s: seq<real>)
    requires forall i :: 0 <= i < |s| - 1 ==> s[i + 1] == s[i]
    ensures Flat(s)
  {
    forall i | 0 <= i < |s| ensures s[i] == s[0] {
      NeighboursEqualUpTo(s, i);
    }
  }

  lemma {:induction false} NeighboursEqualUpTo(s: seq<real>, i: nat)
    requires i < |s|
    requires forall k :: 0 <= k < |s| - 1 ==> s[k + 1] == s[k]
    ensures s[i] == s[0]
  {
    if i > 0 {
      NeighboursEqualUpTo(s, i - 1);
    }
  }

  // ---------------------------------------------------- derivative objective

  /** `1e-3 / d ** 2`, the weight used when none is given; `d == 0` divides by zero. */
  function DefaultDerivativeWeight(d: nat): (w: Option<real>)
    ensures w.Some? <==> d > 0
    ensures w.Some? ==> w.value > 0.0 && w.value * Square(d as real) == 0.001
  {
    if d == 0 then None
    else
      SquareSign(d as real);
      DivMul(0.001, Square(d as real));
      Some(0.001 / Square(d as real))
  }

  /** The weight the objective uses: the given one, else the default. */
  function DerivativeWeight(d: nat, weight: Option<real>): (w: Option<real>)
    ensures weight.Some? ==> w == weight
    ensures weight.None? ==> w == DefaultDerivativeWeight(d)
  {
    if weight.Some? then weight else DefaultDerivativeWeight(d)
  }

  /** The squared entries. */
  function Squares(s: seq<real>): (r: seq<real>)
    ensures |r| == |s|
  {
    seq(|s|, i requires 0 <= i < |s| => Square(s[i]))
  }

  /** `np.diff(f, n=d) / delta ** d` with `delta = 1 / len(x)`: the step is one over the
      number of grid points, not the grid spacing. */
  function Derivative(x: seq<real>, f: seq<real>, d: nat): (r: seq<real>)
    requires |x| > 0
    ensures |r| == |DiffN(f, d)|
  {
    Scale(DiffN(f, d), DerivativeFactor(|x|, d))
  }

  /** `1 / delta ** d` with `delta = 1 / n`: what dividing by `delta ** d` multiplies by. */
  function DerivativeFactor(n: nat, d: nat): (c: real)
    requires n > 0
    ensures c > 0.0
  {
    var delta := 1.0 / (n as real);
    PowPositive(delta, d);
    1.0 / Pow(delta, d)
  }

  /** Dividing by `delta ** d` is a nonzero scaling, so a derivative entry is 0 exactly
      when the difference under it is. */
  lemma {:induction false} DerivativeZeroIff(x: seq<real>, f: seq<real>, d: nat, i: nat)
    requires |x| > 0 && i < |DiffN(f, d)|
    ensures Derivative(x, f, d)[i] == 0.0 <==> DiffN(f, d)[i] == 0.0
  {
    ScaleZeroIff(DiffN(f, d), DerivativeFactor(|x|, d), i);
  }

  lemma {:induction false} ScaleZeroIff(s: seq<real>, c: real, i: nat)
    requires c != 0.0 && i < |s|
    ensures Scale(s, c)[i] == 0.0 <==> s[i] == 0.0
  {
    if s[i] * c == 0.0 {
      ZeroProductRight(s[i], c);
    }
  }

  /** The mean of the squared derivative, `(deriv ** 2).mean()`. */
  function MeanSquare(s: seq<real>): (m: real)
    requires |s| > 0
    ensures m >= 0.0
  {
    MeanSquaresNonnegative(s);
    Mean(Squares(s))
  }

  /** `DerivativeObjective(d, weight)(smoother)`: minus the weight times the mean squared
      derivative.  It has a value exactly when a weight is known (given, or `d > 0`)
      and the derivative is nonempty (more points than `d`); the value is never
      positive for a nonnegative weight. */
  function DerivativeObjective(x: seq<real>, f: seq<real>, d: nat, weight: Option<real>): (r: Option<real>)
    requires |x| > 0
    ensures r.Some? <==> (weight.Some? || d > 0) && |f| > d
    ensures r.Some? && (weight.None? || weight.value >= 0.0) ==> r.value <= 0.0
  {
    var w := DerivativeWeight(d, weight);
    if w.None? || |f| <= d then None
    else
      var m := MeanSquare(Derivative(x, f, d));
      NegatedPenalty(w.value, m);
      Some(-w.value * m)
  }

  lemma {:induction false} MeanSquaresNonnegative(s: seq<real>)
    requires |s| > 0
    ensures Mean(Squares(s)) >= 0.0
  {
    var sq := Squares(s);
    forall i | 0 <= i < |s| ensures sq[i] >= 0.0 {
      SquareSign(s[i]);
    }
    SumNonnegative(sq);
  }

  lemma {:induction false} NegatedPenalty(w: real, m: real)
    requires m >= 0.0
    ensures w >= 0.0 ==> -w * m <= 0.0
  {
    if w >= 0.0 {
      MulNonneg(w, m);
    }
  }

  /** The mean of the squares is 0 exactly when every entry is. */
  lemma {:induction false} MeanSquaresZeroIff(s: seq<real>)
    requires |s| > 0
    ensures MeanSquare(s) == 0.0 <==> forall i :: 0 <= i < |s| ==> s[i] == 0.0
  {
    var sq := Squares(s);
    forall i | 0 <= i < |s| ensures sq[i] >= 0.0 && (sq[i] == 0.0 <==> s[i] == 0.0) {
      SquareSign(s[i]);
    }
    if Mean(sq) == 0.0 {
      DivZero(Sum(sq), |sq| as real);
      SumZeroOnlyIfAllZero(sq);
    }
    if forall i :: 0 <= i < |s| ==> s[i] == 0.0 {
      assert sq == Const(0.0, |s|);
      SumConst(0.0, |s|);
    }
  }

  /** The objective's value in terms of the weight and the mean squared derivative. */
  lemma {:induction false} ObjectiveValue(x: seq<real>, f: seq<real>, d: nat, weight: Option<real>)
    requires |x| > 0 && |f| > d && (weight.Some? || d > 0)
    ensures DerivativeObjective(x, f, d, weight) ==
      Some(-DerivativeWeight(d, weight).value * MeanSquare(Derivative(x, f, d)))
  {
  }

  /** A flat density has objective 0 for every derivative order `d >= 1`. */
  lemma {:induction false} FlatIsSmooth(x: seq<real>, f: seq<real>, d: nat, weight: Option<real>)
    requires |x| > 0 && Flat(f) && d >= 1 && |f| > d
    ensures DerivativeObjective(x, f, d, weight) == Some(0.0)
  {
    var deriv := Derivative(x, f, d);
    DiffNFlat(f, d);
    forall i | 0 <= i < |deriv| ensures deriv[i] == 0.0 {
      DerivativeZeroIff(x, f, d, i);
    }
    MeanSquaresZeroIff(deriv);
    ObjectiveValue(x, f, d, weight);
  }

  /** With a positive weight the first-derivative objective is 0 exactly for a flat
      density. */
  lemma {:induction false} FirstDerivativeZeroIffFlat(x: seq<real>, f: seq<real>, w: real)
    requires |x| > 0 && |f| >= 2 && w > 0.0
    ensures DerivativeObjective(x, f, 1, Some(w)) == Some(0.0) <==> Flat(f)
  {
    if Flat(f) {
      FlatIsSmooth(x, f, 1, Some(w));
    }
    if DerivativeObjective(x, f, 1, Some(w)) == Some(0.0) {
      ZeroObjectiveIsFlat(x, f, w);
    }
  }

  lemma {:induction false} ZeroObjectiveIsFlat(x: seq<real>, f: seq<real>, w: real)
    requires |x| > 0 && |f| >= 2 && w > 0.0
    requires DerivativeObjective(x, f, 1, Some(w)) == Some(0.0)
    ensures Flat(f)
  {
    ObjectiveValue(x, f, 1, Some(w));
    ZeroProductLeft(w, MeanSquare(Derivative(x, f, 1)));
    FlatWhenDerivativeZero(x, f);
  }

  /** A first derivative whose mean square is 0 comes from a flat density. */
  lemma {:induction false} FlatWhenDerivativeZero(x: seq<real>, f: seq<real>)
    requires |x| > 0 && |f| >= 2
    requires MeanSquare(Derivative(x, f, 1)) == 0.0
    ensures Flat(f)
  {
    var deriv := Derivative(x, f, 1);
    MeanSquaresZeroIff(deriv);
    assert DiffN(f, 1) == Diff(f);
    forall i | 0 <= i < |f| - 1 ensures f[i + 1] == f[i] {
      DerivativeZeroIff(x, f, 1, i);
    }
    NeighboursEqualIsFlat(f);
  }

  lemma {:induction false} ZeroProductLeft(w: real, m: real)
    requires w > 0.0 && -w * m == 0.0
    ensures m == 0.0
  {
    assert m * -w == 0.0;
    ZeroProductRight(m, -w);
  }

  lemma {:induction false} ZeroProductRight(a: real, c: real)
    requires c != 0.0 && a * c == 0.0
    ensures a == 0.0
  {
    DivCancel(a, c);
  }

  lemma {:induction false} DivZero(a: real, m: real)
    requires m > 0.0 && a / m == 0.0
    ensures a == 0.0
  {
    DivMul(a, m);
  }

  // ------------------------------------------------------------- penalties

  /** `weight * e ** 2` is never negative for a nonnegative weight, and with a positive
      weight it is 0 exactly when `e` is. */
  lemma {:induction false} SquarePenalty(w: real, e: real)
    ensures w >= 0.0 ==> w * Square(e) >= 0.0
    ensures w > 0.0 ==> (w * Square(e) == 0.0 <==> e == 0.0)
  {
    SquareSign(e);
    if w >= 0.0 {
      MulNonneg(w, Square(e));
    }
    if w > 0.0 && e != 0.0 {
      MulPositive(w, Square(e));
    }
  }

  /** `MassConstraint`'s weight when none is given. */
  const DefaultMassWeight: real := 500.0

  /** `MassConstraint(lb, ub, mass, weight)(smoother)`: the weight times the squared gap
      between the mass `cdf(ub) - cdf(lb)` and the target, `cdf` being the smoother's
      (`Smoothers.CdfOf`).  It is never negative for a nonnegative weight and, for a
      positive one, 0 exactly when the mass hits the target. */
  function MassPenalty(cdf: real -> real, lb: real, ub: real, mass: real, weight: Option<real>): (r: real)
    ensures weight.GetOr(DefaultMassWeight) >= 0.0 ==> r >= 0.0
    ensures weight.GetOr(DefaultMassWeight) > 0.0 ==> (r == 0.0 <==> cdf(ub) - cdf(lb) == mass)
  {
    var w := weight.GetOr(DefaultMassWeight);
    var current := cdf(ub) - cdf(lb);
    SquarePenalty(w, current - mass);
    w * Square(current - mass)
  }

  /** `MomentConstraint`'s weight when none is given: `500 / (x[-1] - x[0]) ** 2`, which
      has no finite value on a grid of width 0. */
  function DefaultMomentWeight(x: seq<real>): (w: Option<real>)
    requires |x| > 0
    ensures w.Some? <==> Span(x) != 0.0
    ensures w.Some? ==> w.value > 0.0 && w.value * Square(Span(x)) == 500.0
  {
    if Span(x) == 0.0 then None
    else
      SquareSign(Span(x));
      DivMul(500.0, Square(Span(x)));
      Some(500.0 / Square(Span(x)))
  }

  /** `MomentConstraint(value, degree, type_, norm=False, weight)(smoother)`: the weight
      times the squared gap between the smoother's moment and the target.  It has a
      value unless the default weight is needed on a grid of width 0; it is never
      negative for a nonnegative weight and, for a positive one, 0 exactly when the
      moment hits the target. */
  function MomentPenalty(x: seq<real>, f: seq<real>, value: real, degree: nat,
                         kind: Distributions.MomentKind, weight: Option<real>): (r: Option<real>)
    requires |x| > 0 && |f| == |x|
    ensures r.Some? <==> weight.Some? || Span(x) != 0.0
    ensures r.Some? && (weight.None? || weight.value >= 0.0) ==> r.value >= 0.0
    ensures r.Some? && (weight.None? || weight.value > 0.0) ==>
      (r.value == 0.0 <==> Distributions.Moment(x, f, degree, kind) == value)
  {
    var w := if weight.Some? then weight else DefaultMomentWeight(x);
    if w.None? then None
    else
      var e := Distributions.Moment(x, f, degree, kind) - value;
      SquarePenalty(w.value, e);
      Some(w.value * Square(e))
  }
}
