/**
 * Numeric building blocks shared by both distribution variants: sums and means
 * over `seq<real>` (numpy's `sum`, `mean`, `cumsum`, `linspace`), the
 * bracketing-index search `_get_weights` and the linear interpolation built on it.
 * Reals stand for the source's floats; no rounding is modelled.
 */
module Grid {

  // ---------------------------------------------------------------- sequences

  /** numpy `sum`: the empty sum is 0. */
  function Sum(s: seq<real>): real
  {
    if s == [] then 0.0 else Sum(s[..|s| - 1]) + s[|s| - 1]
  }

  /** numpy `mean`; the mean of nothing is NaN, so the empty sequence is excluded. */
  function Mean(s: seq<real>): real
    requires |s| > 0
  {
    Sum(s) / (|s| as real)
  }

  /** Every entry multiplied by `c` (numpy's broadcast `s * c`). */
  function Scale(s: seq<real>, c: real): (r: seq<real>)
    ensures |r| == |s|
  {
    seq(|s|, i requires 0 <= i < |s| => s[i] * c)
  }

  /** `num` copies of `c` (`np.ones(num) * c`, `[c] * num`). */
  function Const(c: real, num: nat): (r: seq<real>)
    ensures |r| == num && forall i :: 0 <= i < num ==> r[i] == c
  {
    seq(num, i => c)
  }

  /** numpy `cumsum`: entry k is the sum of the first k + 1 entries. */
  function CumSum(s: seq<real>): seq<real>
  {
    seq(|s|, k requires 0 <= k < |s| => Sum(s[..k + 1]))
  }

  /** `b ** k` for a natural exponent. */
  function Pow(b: real, k: nat): real
  {
    if k == 0 then 1.0 else b * Pow(b, k - 1)
  }

  /** numpy `linspace(lb, ub, num)`: `num` evenly spaced points from `lb` to `ub` inclusive. */
  function Linspace(lb: real, ub: real, num: nat): (r: seq<real>)
    ensures |r| == num
    ensures num >= 1 ==> r[0] == lb
    ensures num >= 2 ==> r[num - 1] == ub
    ensures lb <= ub ==> Sorted(r)
    ensures lb < ub ==> StrictlyIncreasing(r)
  {
    if num == 1 then [lb]
    else
      var m := (num - 1) as real;
      var r := seq(num, i requires 0 <= i < num => LinspacePoint(lb, ub, m, i));
      assert num >= 2 ==> r[num - 1] == ub by {
        if num >= 2 {
          LinspacePointLast(lb, ub, m, num - 1);
        }
      }
      assert lb <= ub ==> Sorted(r) by {
        if lb <= ub {
          forall i, j | 0 <= i <= j < num ensures r[i] <= r[j] {
            LinspacePointMonotone(lb, ub, m, i, j);
          }
        }
      }
      assert lb < ub ==> StrictlyIncreasing(r) by {
        if lb < ub {
          forall i, j | 0 <= i < j < num ensures r[i] < r[j] {
            LinspacePointIncreasing(lb, ub, m, i, j);
          }
        }
      }
      r
  }

  /** Point `i` of a linspace whose `m + 1` points run from `lb` to `ub`. */
  function LinspacePoint(lb: real, ub: real, m: real, i: nat): real
    requires m > 0.0
  {
    lb + (i as real) * (ub - lb) / m
  }

  /** Point `m` is `ub`. */
  lemma {:induction false} LinspacePointLast(lb: real, ub: real, m: real, n: nat)
    requires m > 0.0 && (n as real) == m
    ensures LinspacePoint(lb, ub, m, n) == ub
  {
    assert (n as real) * (ub - lb) == (ub - lb) * m;
    DivCancel(ub - lb, m);
  }

  lemma {:induction false} LinspacePointMonotone(lb: real, ub: real, m: real, i: nat, j: nat)
    requires m > 0.0 && lb <= ub && i <= j
    ensures LinspacePoint(lb, ub, m, i) <= LinspacePoint(lb, ub, m, j)
  {
    MulLe(i as real, j as real, ub - lb);
    DivLe((i as real) * (ub - lb), (j as real) * (ub - lb), m);
  }

  lemma {:induction false} LinspacePointIncreasing(lb: real, ub: real, m: real, i: nat, j: nat)
    requires m > 0.0 && lb < ub && i < j
    ensures LinspacePoint(lb, ub, m, i) < LinspacePoint(lb, ub, m, j)
  {
    MulLt(i as real, j as real, ub - lb);
    DivLt((i as real) * (ub - lb), (j as real) * (ub - lb), m);
  }

  predicate Nonnegative(s: seq<real>)
  {
    forall i :: 0 <= i < |s| ==> 0.0 <= s[i]
  }

  predicate Sorted(s: seq<real>)
  {
    forall i, j :: 0 <= i <= j < |s| ==> s[i] <= s[j]
  }

  predicate StrictlyIncreasing(s: seq<real>)
  {
    forall i, j :: 0 <= i < j < |s| ==> s[i] < s[j]
  }

  /** `x[-1] - x[0]`, the width of the grid. */
  function Span(x: seq<real>): real
    requires |x| > 0
  {
    x[|x| - 1] - x[0]
  }

  /** A grid with a density on it that the properties below talk about: at least two
      points, sorted, of positive width, one density value per point. */
  predicate WellFormed(x: seq<real>, f: seq<real>)
  {
    |x| >= 2 && |f| == |x| && Sorted(x) && x[0] < x[|x| - 1]
  }

  function Abs(a: real): real { if a < 0.0 then -a else a }

  /** `2 ** k` on Python integers. */
  function Pow2(k: nat): (r: nat)
    ensures r >= 1
  {
    if k == 0 then 1 else 2 * Pow2(k - 1)
  }

  /** `n * u` as `n` repeated additions of `u`, which keeps proofs about step counts linear. */
  function Times(n: nat, u: real): real
  {
    if n == 0 then 0.0 else u + Times(n - 1, u)
  }

  lemma {:induction false} TimesMonotone(m: nat, n: nat, u: real)
    requires m <= n && u >= 0.0
    ensures Times(m, u) <= Times(n, u)
    decreases n
  {
    if m < n {
      TimesMonotone(m, n - 1, u);
    }
  }

  /** `2 * n` half-steps cover `n` whole steps. */
  lemma {:induction false} TimesHalf(n: nat, u: real)
    ensures Times(2 * n, u / 2.0) == Times(n, u)
  {
    if n > 0 {
      TimesHalf(n - 1, u);
      assert Times(2 * n, u / 2.0) == u / 2.0 + (u / 2.0 + Times(2 * (n - 1), u / 2.0));
    }
  }

  function Min(a: real, b: real): real { if a <= b then a else b }

  function Max(a: real, b: real): real { if a <= b then b else a }

  // ----------------------------------------------------- facts about the sums

  lemma {:induction false} SumNonnegative(s: seq<real>)
    requires Nonnegative(s)
    ensures Sum(s) >= 0.0
  {
    if s != [] {
      SumNonnegative(s[..|s| - 1]);
    }
  }

  /** Pointwise `a <= b` gives `Sum(a) <= Sum(b)`. */
  lemma {:induction false} SumMonotone(a: seq<real>, b: seq<real>)
    requires |a| == |b| && forall i :: 0 <= i < |a| ==> a[i] <= b[i]
    ensures Sum(a) <= Sum(b)
  {
    if a != [] {
      SumMonotone(a[..|a| - 1], b[..|b| - 1]);
    }
  }

  lemma {:induction false} SumScale(s: seq<real>, c: real)
    ensures Sum(Scale(s, c)) == Sum(s) * c
  {
    if s != [] {
      var n := |s|;
      var a, b := Scale(s, c)[..n - 1], Scale(s[..n - 1], c);
      assert a == b by {
        forall i | 0 <= i < n - 1 ensures a[i] == b[i] {
        }
      }
      SumScale(s[..n - 1], c);
    }
  }

  lemma {:induction false} SumConst(c: real, num: nat)
    ensures Sum(Const(c, num)) == (num as real) * c
  {
    if num > 0 {
      assert Const(c, num)[..num - 1] == Const(c, num - 1);
      SumConst(c, num - 1);
    }
  }

  /** A nonnegative sequence sums to 0 only when every entry is 0. */
  lemma {:induction false} SumZeroOnlyIfAllZero(s: seq<real>)
    requires Nonnegative(s) && Sum(s) == 0.0
    ensures forall i :: 0 <= i < |s| ==> s[i] == 0.0
  {
    if s != [] {
      var n := |s|;
      SumNonnegative(s[..n - 1]);
      SumZeroOnlyIfAllZero(s[..n - 1]);
      assert forall i :: 0 <= i < n - 1 ==> s[i] == s[..n - 1][i];
    }
  }

  /** For a nonnegative sequence, a longer prefix never has a smaller sum. */
  lemma {:induction false} SumPrefixMonotone(s: seq<real>, i: nat, j: nat)
    requires Nonnegative(s) && i <= j <= |s|
    ensures Sum(s[..i]) <= Sum(s[..j])
  {
    if i < j {
      SumPrefixMonotone(s, i, j - 1);
      assert s[..j][..j - 1] == s[..j - 1];
    }
  }

  /** Every entry of a nonnegative sequence is at most its sum. */
  lemma {:induction false} EntryAtMostSum(s: seq<real>, k: nat)
    requires Nonnegative(s) && k < |s|
    ensures s[k] <= Sum(s)
  {
    var n := |s|;
    SumNonnegative(s[..n - 1]);
    if k < n - 1 {
      EntryAtMostSum(s[..n - 1], k);
    }
  }

  /** The running sum starts with the first entry. */
  lemma {:induction false} CumSumFirst(s: seq<real>)
    requires |s| > 0
    ensures CumSum(s)[0] == s[0]
  {
    var t := s[..1];
    assert t[..0] == [];
    assert Sum(t) == Sum(t[..0]) + t[0];
  }

  /** Each later entry of the running sum is the one before plus the next entry. */
  lemma {:induction false} CumSumStep(s: seq<real>, k: nat)
    requires 0 < k < |s|
    ensures CumSum(s)[k] == CumSum(s)[k - 1] + s[k]
  {
    assert s[..k + 1][..k] == s[..k];
  }

  /** The running sum ends with the total. */
  lemma {:induction false} CumSumLast(s: seq<real>)
    requires |s| > 0
    ensures CumSum(s)[|s| - 1] == Sum(s)
  {
    assert s[..|s|] == s;
  }

  /** The running sum of a nonnegative sequence is nondecreasing, from 0 up to the total. */
  lemma {:induction false} CumSumSorted(s: seq<real>)
    requires Nonnegative(s)
    ensures Sorted(CumSum(s))
    ensures forall i :: 0 <= i < |s| ==> 0.0 <= CumSum(s)[i] <= Sum(s)
  {
    var a := CumSum(s);
    forall i, j | 0 <= i <= j < |s| ensures a[i] <= a[j] {
      SumPrefixMonotone(s, i + 1, j + 1);
    }
    forall i | 0 <= i < |s| ensures 0.0 <= a[i] <= Sum(s) {
      SumPrefixMonotone(s, 0, i + 1);
      SumPrefixMonotone(s, i + 1, |s|);
      assert s[..0] == [];
      assert s[..|s|] == s;
    }
  }

  /** Scaling by a nonnegative factor keeps a sequence sorted. */
  lemma {:induction false} ScaleSorted(a: seq<real>, c: real)
    requires Sorted(a) && c >= 0.0
    ensures Sorted(Scale(a, c))
  {
    forall i, j | 0 <= i <= j < |a| ensures Scale(a, c)[i] <= Scale(a, c)[j] {
      MulLe(a[i], a[j], c);
    }
  }

  /** Dividing a sorted sequence with entries in [0, t] by `t > 0` gives a sorted
      sequence with entries in [0, 1]. */
  lemma {:induction false} ScaleToUnit(a: seq<real>, t: real, c: real)
    requires Sorted(a) && t > 0.0 && c == 1.0 / t
    requires forall i :: 0 <= i < |a| ==> 0.0 <= a[i] <= t
    ensures Sorted(Scale(a, c))
    ensures forall i :: 0 <= i < |a| ==> 0.0 <= Scale(a, c)[i] <= 1.0
  {
    var r := Scale(a, c);
    ScaleSorted(a, c);
    forall i | 0 <= i < |a| ensures 0.0 <= r[i] <= 1.0 {
      MulLe(0.0, a[i], c);
      MulLe(a[i], t, c);
    }
  }

  // ------------------------------------------------------------------ powers

  lemma {:induction false} PowPositive(b: real, k: nat)
    requires b > 0.0
    ensures Pow(b, k) > 0.0
  {
    if k > 0 {
      PowPositive(b, k - 1);
    }
  }

  lemma {:induction false} PowEvenNonnegative(b: real, k: nat)
    requires k % 2 == 0
    ensures Pow(b, k) >= 0.0
  {
    if k > 0 {
      PowEvenNonnegative(b, k - 2);
      assert Pow(b, k) == b * (b * Pow(b, k - 2));
      SquareTimesNonneg(b, Pow(b, k - 2));
    }
  }

  /** `e ** 2`, written as a power so that a square and its base stay separate terms. */
  function Square(e: real): real
  {
    Pow(e, 2)
  }

  /** A square is never negative, and it is 0 exactly when its base is. */
  lemma {:induction false} SquareSign(e: real)
    ensures Square(e) >= 0.0
    ensures Square(e) == 0.0 <==> e == 0.0
  {
    assert Pow(e, 1) == e;
    if e != 0.0 {
      assert Square(e) > 0.0;
    }
  }

  lemma {:induction false} MulPositive(a: real, b: real)
    requires a > 0.0 && b > 0.0
    ensures a * b > 0.0
  {
    MulLt(0.0, a, b);
  }

  // ------------------------------------------------------ bracketing indices

  /** The last index `i` with `x[i] <= v`, as `np.where(x <= v)[0][-1]` picks it. */
  function LowerIndex(x: seq<real>, v: real): (lb: nat)
    requires |x| > 0 && x[0] <= v
    ensures lb < |x| && x[lb] <= v
    ensures forall j :: lb < j < |x| ==> v < x[j]
  {
    LastAtOrBelow(x, v, |x| - 1)
  }

  /** The last index `i <= k` with `x[i] <= v`. */
  function LastAtOrBelow(x: seq<real>, v: real, k: nat): (lb: nat)
    requires k < |x| && x[0] <= v
    ensures lb <= k && x[lb] <= v
    ensures forall j :: lb < j <= k ==> v < x[j]
  {
    if x[k] <= v then k else LastAtOrBelow(x, v, k - 1)
  }

  /** The first index `i` with `x[i] >= v`, as `np.where(x >= v)[0][0]` picks it. */
  function UpperIndex(x: seq<real>, v: real): (ub: nat)
    requires |x| > 0 && v <= x[|x| - 1]
    ensures ub < |x| && v <= x[ub]
    ensures forall j :: 0 <= j < ub ==> x[j] < v
  {
    FirstAtOrAbove(x, v, 0)
  }

  /** The first index `i >= k` with `x[i] >= v`. */
  function FirstAtOrAbove(x: seq<real>, v: real, k: nat): (ub: nat)
    requires k < |x| && v <= x[|x| - 1]
    ensures k <= ub < |x| && v <= x[ub]
    ensures forall j :: k <= j < ub ==> x[j] < v
    decreases |x| - k
  {
    if v <= x[k] then k else FirstAtOrAbove(x, v, k + 1)
  }

  /** The two indices around `v` and the linear weights on them (`_get_weights`). */
  datatype Bracket = Bracket(lb: nat, wLb: real, ub: nat, wUb: real)

  /** `_get_weights`: `lb` is the last grid index at or below `v`, `ub` the first at or
      above it; the weights are the barycentric coordinates of `v` between the two
      points, and 0.5 / 0.5 when the two points coincide. */
  function GetWeights(x: seq<real>, v: real): (b: Bracket)
    requires |x| > 0 && x[0] <= v <= x[|x| - 1]
    ensures b.lb < |x| && b.ub < |x| && x[b.lb] <= v <= x[b.ub]
    ensures forall j :: b.lb < j < |x| ==> v < x[j]
    ensures forall j :: 0 <= j < b.ub ==> x[j] < v
    ensures b.wLb + b.wUb == 1.0
    ensures 0.0 <= b.wLb <= 1.0 && 0.0 <= b.wUb <= 1.0
    ensures x[b.ub] == x[b.lb] ==> b.wLb == 0.5 && b.wUb == 0.5
    ensures b.wLb * x[b.lb] + b.wUb * x[b.ub] == v
  {
    var lb := LowerIndex(x, v);
    var ub := UpperIndex(x, v);
    var delta := x[ub] - x[lb];
    if delta == 0.0 then Bracket(lb, 0.5, ub, 0.5)
    else
      CellWeights(x[lb], x[ub], v);
      Bracket(lb, 1.0 - (v - x[lb]) / delta, ub, 1.0 - (x[ub] - v) / delta)
  }

  /** The weights of `v` inside a cell `[xl, xu]` of positive width. */
  lemma {:induction false} CellWeights(xl: real, xu: real, v: real)
    requires xl <= v <= xu && xl < xu
    ensures var wl, wu := 1.0 - (v - xl) / (xu - xl), 1.0 - (xu - v) / (xu - xl);
      wl + wu == 1.0 && 0.0 <= wl <= 1.0 && 0.0 <= wu <= 1.0 && wl * xl + wu * xu == v
  {
    var d := xu - xl;
    var t := (v - xl) / d;
    DivMul(v - xl, d);
    CoWeight(xl, xu, v);
    DivLe(0.0, v - xl, d);
    DivLe(v - xl, d, d);
    DivSelf(d);
    assert 1.0 - (xu - v) / d == t;
    calc {
      (1.0 - t) * xl + t * xu;
      xl + t * (xu - xl);
      xl + t * d;
      xl + (v - xl);
    }
  }

  /** `(xu - v) / (xu - xl)` is the complement of `(v - xl) / (xu - xl)`. */
  lemma {:induction false} CoWeight(xl: real, xu: real, v: real)
    requires xl < xu
    ensures (xu - v) / (xu - xl) == 1.0 - (v - xl) / (xu - xl)
  {
    var d := xu - xl;
    assert xu - v == d - (v - xl);
    DivSplit(d, v - xl, d);
    DivSelf(d);
  }

  /** The weighted combination `w_lb * f[lb] + w_ub * f[ub]` that both `pdf` and `cdf`
      evaluate: a convex combination, so it lies between the two neighbouring values. */
  function Interp(x: seq<real>, f: seq<real>, v: real): (r: real)
    requires |x| > 0 && |f| == |x| && x[0] <= v <= x[|x| - 1]
    ensures var b := GetWeights(x, v); Min(f[b.lb], f[b.ub]) <= r <= Max(f[b.lb], f[b.ub])
  {
    var b := GetWeights(x, v);
    ConvexBetween(b.wLb, b.wUb, f[b.lb], f[b.ub]);
    b.wLb * f[b.lb] + b.wUb * f[b.ub]
  }

  /** A convex combination of two values lies between them. */
  lemma {:induction false} ConvexBetween(wa: real, wc: real, a: real, c: real)
    requires 0.0 <= wa && 0.0 <= wc && wa + wc == 1.0
    ensures Min(a, c) <= wa * a + wc * c <= Max(a, c)
  {
    WeightsSplit(wa, wc, a);
    WeightsSplit(wa, wc, c);
    assert wa * a + wc * a == a;
    assert wa * c + wc * c == c;
    if a <= c {
      MulLeLeft(wa, a, c);
      assert wa * a <= wa * c;
      MulLeLeft(wc, a, c);
      assert wc * a <= wc * c;
    } else {
      MulLeLeft(wa, c, a);
      assert wa * c <= wa * a;
      MulLeLeft(wc, c, a);
      assert wc * c <= wc * a;
    }
  }

  lemma {:induction false} WeightsSplit(wa: real, wc: real, a: real)
    requires wa + wc == 1.0
    ensures wa * a + wc * a == a
  {
    assert wa * a + wc * a == (wa + wc) * a;
  }

  // ---------------------------------------------- brackets on a sorted grid

  /** On a sorted grid the bracket is either one cell (`ub == lb + 1`, `v` strictly
      between its ends) or `v` sits on grid points (`ub <= lb`, both equal to `v`). */
  lemma {:induction false} BracketOnSortedGrid(x: seq<real>, v: real)
    requires |x| > 0 && Sorted(x) && x[0] <= v <= x[|x| - 1]
    ensures var b := GetWeights(x, v);
      (x[b.lb] < v ==> b.ub == b.lb + 1 && v < x[b.ub]) &&
      (x[b.lb] == v ==> b.ub <= b.lb && x[b.ub] == v)
  {
    var b := GetWeights(x, v);
    if x[b.lb] < v {
      assert b.lb + 1 < |x| && v < x[b.lb + 1];
      assert !(b.ub <= b.lb);
    }
  }

  /** On a strictly increasing grid, a grid point brackets itself on both sides. */
  lemma {:induction false} WeightsAtGridPoint(x: seq<real>, i: nat)
    requires i < |x| && StrictlyIncreasing(x)
    ensures var b := GetWeights(x, x[i]); b.lb == i && b.ub == i
  {
    var b := GetWeights(x, x[i]);
    assert b.lb <= i;
    assert b.ub >= i;
  }

  /** Interpolating at a point of a strictly increasing grid returns the stored value. */
  lemma {:induction false} InterpAtGridPoint(x: seq<real>, f: seq<real>, i: nat)
    requires i < |x| && |f| == |x| && StrictlyIncreasing(x)
    ensures Interp(x, f, x[i]) == f[i]
  {
    assert x[0] <= x[i] <= x[|x| - 1];
    WeightsAtGridPoint(x, i);
  }

  /** Interpolating a nondecreasing table over a sorted grid gives a nondecreasing function. */
  lemma {:induction false} InterpMonotone(x: seq<real>, g: seq<real>, v1: real, v2: real)
    requires |x| > 0 && |g| == |x| && Sorted(x) && Sorted(g)
    requires x[0] <= v1 <= v2 <= x[|x| - 1]
    ensures Interp(x, g, v1) <= Interp(x, g, v2)
  {
    var b1, b2 := GetWeights(x, v1), GetWeights(x, v2);
    BracketOnSortedGrid(x, v1);
    BracketOnSortedGrid(x, v2);
    if v1 == v2 {
    } else if x[b1.ub] <= v2 {
      // v2 lies at or beyond the right end of v1's bracket.
      var hi1 := if b1.lb <= b1.ub then b1.ub else b1.lb;
      var lo2 := if b2.lb <= b2.ub then b2.lb else b2.ub;
      assert b1.ub <= b2.lb;
      assert b1.lb < b2.ub;
      assert hi1 <= lo2;
      assert Interp(x, g, v1) <= g[hi1];
      assert g[lo2] <= Interp(x, g, v2);
    } else {
      // v1 and v2 lie in the same open cell.
      assert b2.lb == b1.lb && b2.ub == b1.ub;
      SameCellMonotone(x, g, v1, v2);
    }
  }

  lemma {:induction false} SameCellMonotone(x: seq<real>, g: seq<real>, v1: real, v2: real)
    requires |x| > 0 && |g| == |x| && Sorted(g)
    requires x[0] <= v1 < v2 <= x[|x| - 1]
    requires GetWeights(x, v1).lb == GetWeights(x, v2).lb
    requires GetWeights(x, v1).ub == GetWeights(x, v2).ub
    requires var b := GetWeights(x, v1); b.lb < b.ub && x[b.lb] < x[b.ub]
    ensures Interp(x, g, v1) <= Interp(x, g, v2)
  {
    var b1, b2 := GetWeights(x, v1), GetWeights(x, v2);
    assert g[b1.lb] <= g[b1.ub];
    LerpMonotone(x[b1.lb], x[b1.ub], g[b1.lb], g[b1.ub], b1.wLb, b1.wUb, b2.wLb, b2.wUb, v1, v2);
  }

  /** Inside one cell of positive width, the point further right puts more weight on the
      right end, so its interpolated value is no smaller when the right value is the larger. */
  lemma {:induction false} LerpMonotone(xl: real, xu: real, gl: real, gu: real,
                                         wl1: real, wu1: real, wl2: real, wu2: real, v1: real, v2: real)
    requires xl < xu && v1 <= v2 && gl <= gu
    requires wl1 + wu1 == 1.0 && wl2 + wu2 == 1.0
    requires wl1 * xl + wu1 * xu == v1 && wl2 * xl + wu2 * xu == v2
    ensures wl1 * gl + wu1 * gu <= wl2 * gl + wu2 * gu
  {
    assert v1 == xl + wu1 * (xu - xl);
    assert v2 == xl + wu2 * (xu - xl);
    if wu2 < wu1 {
      MulLt(wu2, wu1, xu - xl);
      assert false;
    }
    MulLe(wu1, wu2, gu - gl);
    assert wl1 * gl + wu1 * gu == gl + wu1 * (gu - gl);
    assert wl2 * gl + wu2 * gu == gl + wu2 * (gu - gl);
  }

  // ----------------------------------------------------------------- moments

  /** The products `(x[i] - c) ** degree * f[i]` whose mean is a moment. */
  function PowerProducts(x: seq<real>, f: seq<real>, c: real, degree: nat): (r: seq<real>)
    requires |f| == |x|
    ensures |r| == |x|
  {
    seq(|x|, i requires 0 <= i < |x| => Pow(x[i] - c, degree) * f[i])
  }

  /** `((x - c) ** degree * f).mean()`: the moment about `c` as both classes compute it. */
  function WeightedPowerMean(x: seq<real>, f: seq<real>, c: real, degree: nat): (r: real)
    requires |x| > 0 && |f| == |x|
    ensures Nonnegative(f) && degree % 2 == 0 ==> r >= 0.0
  {
    var p := PowerProducts(x, f, c, degree);
    assert Nonnegative(f) && degree % 2 == 0 ==> Sum(p) >= 0.0 by {
      if Nonnegative(f) && degree % 2 == 0 {
        forall i | 0 <= i < |x| ensures p[i] >= 0.0 {
          PowEvenNonnegative(x[i] - c, degree);
        }
        SumNonnegative(p);
      }
    }
    Mean(p)
  }

  /** For a nonnegative density on a grid inside [a, b] the first raw moment lies
      between `a * mean(f)` and `b * mean(f)`. */
  lemma {:induction false} FirstMomentWithin(x: seq<real>, f: seq<real>, a: real, b: real)
    requires |x| > 0 && |f| == |x| && Nonnegative(f)
    requires forall i :: 0 <= i < |x| ==> a <= x[i] <= b
    ensures a * Mean(f) <= WeightedPowerMean(x, f, 0.0, 1) <= b * Mean(f)
  {
    var p := PowerProducts(x, f, 0.0, 1);
    FirstSumsWithin(x, f, a, b);
    ScaledMeanBounds(Sum(f), a, b, Sum(p), |f| as real, Mean(f), Mean(p));
  }

  /** A sorted grid lies between its end points. */
  lemma {:induction false} SortedWithinEnds(x: seq<real>)
    requires |x| > 0 && Sorted(x)
    ensures forall i :: 0 <= i < |x| ==> x[0] <= x[i] <= x[|x| - 1]
  {
  }

  /** `s * a <= t <= s * b` divided through by a positive count `m`. */
  lemma {:induction false} ScaledMeanBounds(s: real, a: real, b: real, t: real, m: real, ms: real, mt: real)
    requires s * a <= t <= s * b
    requires m > 0.0 && ms == s / m && mt == t / m
    ensures a * ms <= mt <= b * ms
  {
    DivLe(s * a, t, m);
    DivLe(t, s * b, m);
    DivAssoc(s, a, m);
    DivAssoc(s, b, m);
  }

  /** With every grid point in [a, b], the sum of `x * f` lies between `a * sum(f)` and
      `b * sum(f)`. */
  lemma {:induction false} FirstSumsWithin(x: seq<real>, f: seq<real>, a: real, b: real)
    requires |f| == |x| && Nonnegative(f) && forall i :: 0 <= i < |x| ==> a <= x[i] <= b
    ensures Sum(f) * a <= Sum(PowerProducts(x, f, 0.0, 1)) <= Sum(f) * b
  {
    FirstProductsWithin(x, f, a, b);
    SumScale(f, a);
    SumScale(f, b);
  }

  lemma {:induction false} FirstProductsWithin(x: seq<real>, f: seq<real>, a: real, b: real)
    requires |f| == |x| && Nonnegative(f) && forall i :: 0 <= i < |x| ==> a <= x[i] <= b
    ensures Sum(Scale(f, a)) <= Sum(PowerProducts(x, f, 0.0, 1)) <= Sum(Scale(f, b))
  {
    var p := PowerProducts(x, f, 0.0, 1);
    var lo, hi := Scale(f, a), Scale(f, b);
    forall i | 0 <= i < |x|
      ensures lo[i] <= p[i] <= hi[i]
    {
      FirstProductBetween(x, f, a, b, i);
    }
    SumMonotone(lo, p);
    SumMonotone(p, hi);
  }

  lemma {:induction false} FirstProductBetween(x: seq<real>, f: seq<real>, a: real, b: real, i: nat)
    requires |f| == |x| && i < |x| && a <= x[i] <= b && 0.0 <= f[i]
    ensures Scale(f, a)[i] <= PowerProducts(x, f, 0.0, 1)[i] <= Scale(f, b)[i]
  {
    FirstPowerProduct(x, f, i);
    MulLe(a, x[i], f[i]);
    MulLe(x[i], b, f[i]);
  }

  lemma {:induction false} FirstPowerProduct(x: seq<real>, f: seq<real>, i: nat)
    requires |f| == |x| && i < |x|
    ensures PowerProducts(x, f, 0.0, 1)[i] == x[i] * f[i]
  {
    assert Pow(x[i] - 0.0, 1) == (x[i] - 0.0) * Pow(x[i] - 0.0, 0);
  }

  // -------------------------------------------------------------- arithmetic

  lemma {:induction false} MulNonneg(a: real, b: real)
    requires a >= 0.0 && b >= 0.0
    ensures a * b >= 0.0
  {
  }

  lemma {:induction false} SquareTimesNonneg(b: real, p: real)
    requires p >= 0.0
    ensures b * (b * p) >= 0.0
  {
    assert b * (b * p) == (b * b) * p;
    MulNonneg(b * b, p);
  }

  lemma {:induction false} DivSelf(d: real)
    requires d != 0.0
    ensures d / d == 1.0
  {
  }

  lemma {:induction false} MulLeLeft(w: real, a: real, c: real)
    requires a <= c && w >= 0.0
    ensures w * a <= w * c
  {
    MulNonneg(w, c - a);
    assert w * (c - a) == w * c - w * a;
  }

  lemma {:induction false} MulLe(a: real, b: real, c: real)
    requires a <= b && c >= 0.0
    ensures a * c <= b * c
  {
    MulNonneg(b - a, c);
  }

  lemma {:induction false} MulLt(a: real, b: real, c: real)
    requires a < b && c > 0.0
    ensures a * c < b * c
  {
  }

  lemma {:induction false} DivCancel(a: real, d: real)
    requires d != 0.0
    ensures a * d / d == a
  {
  }

  lemma {:induction false} DivMul(a: real, d: real)
    requires d != 0.0
    ensures (a / d) * d == a
  {
  }

  lemma {:induction false} DivSplit(a: real, b: real, d: real)
    requires d != 0.0
    ensures (a - b) / d == a / d - b / d
  {
  }

  lemma {:induction false} DivAssoc(a: real, b: real, d: real)
    requires d != 0.0
    ensures a * b / d == b * (a / d)
  {
  }

  lemma {:induction false} DivLe(a: real, b: real, d: real)
    requires a <= b && d > 0.0
    ensures a / d <= b / d
  {
  }

  lemma {:induction false} DivLt(a: real, b: real, d: real)
    requires a < b && d > 0.0
    ensures a / d < b / d
  {
  }
}
