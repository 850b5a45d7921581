/** The trust-region bisection optimiser: a box `[low, high]` is built
    around the current point, every coordinate of the box is halved per
    inner step (the half chosen by the gradient's sign, or by the position
    relative to the previous point when the objective got worse), the point
    is re-centred at the box's midpoint, and after the inner loop the best of
    the two box corners and the best point seen becomes the next outer
    iterate. Points are sequences of reals; the objective `f` and its
    gradient `df` are parameters. */
module Bisection {
  import opened Results

  type Point = seq<real>

  /** A real extended with the `np.inf` that `fy` and `fx_best` start at. */
  datatype Extended = Finite(v: real) | PlusInfinity

  /** `a <= e`, as Python compares a float with `np.inf`. */
  predicate AtMost(a: real, e: Extended) {
    e.PlusInfinity? || a <= e.v
  }

  /** `a < e`, as Python compares a float with `np.inf`. */
  predicate Below(a: real, e: Extended) {
    e.PlusInfinity? || a < e.v
  }

  function Abs(a: real): (r: real)
    ensures r >= 0.0 && (r == a || r == -a)
  {
    if a < 0.0 then -a else a
  }

  // ---------------------------------------------------------------------
  // The distance `d(x, y, norm)`
  // ---------------------------------------------------------------------

  /** The sum of a sequence of reals. */
  function Sum(s: seq<real>): real
  {
    if |s| == 0 then 0.0 else s[0] + Sum(s[1..])
  }

  /** The squared coordinate differences of two points. */
  function SquaredDiffs(x: Point, y: Point): (s: seq<real>)
    requires |x| == |y|
    ensures |s| == |x|
    ensures forall i :: 0 <= i < |s| ==> s[i] >= 0.0
  {
    seq(|x|, i requires 0 <= i < |x| => Sq(x[i] - y[i]))
  }

  /** `d(x, y, norm=2)` squared: the sum of squared coordinate differences.
      Comparing it with `Sq(eps)` is comparing `d(x, y)` with `eps`. */
  function SqDist(x: Point, y: Point): (r: real)
    requires |x| == |y|
    ensures r >= 0.0
  {
    SumNonneg(SquaredDiffs(x, y));
    Sum(SquaredDiffs(x, y))
  }

  lemma {:induction false} SumNonneg(s: seq<real>)
    requires forall i :: 0 <= i < |s| ==> s[i] >= 0.0
    ensures Sum(s) >= 0.0
  {
    if |s| > 0 {
      SumNonneg(s[1..]);
    }
  }

  /** The squared distance is zero exactly between equal points. */
  lemma SqDistZero(x: Point, y: Point)
    requires |x| == |y|
    ensures SqDist(x, y) == 0.0 <==> x == y
  {
    var s := SquaredDiffs(x, y);
    if x == y {
      forall i | 0 <= i < |s|
        ensures s[i] == 0.0
      {
        assert x[i] - y[i] == 0.0;
      }
      SumConstant(s, 0.0);
    } else {
      var i :| 0 <= i < |x| && x[i] != y[i];
      SqPositive(Abs(x[i] - y[i]));
      AbsSquare(x[i] - y[i], Abs(x[i] - y[i]));
      SumAtLeast(s, i);
    }
  }

  /** A sum of non-negative terms is at least each of its terms. */
  lemma {:induction false} SumAtLeast(s: seq<real>, i: nat)
    requires i < |s| && forall j :: 0 <= j < |s| ==> s[j] >= 0.0
    ensures Sum(s) >= s[i]
  {
    SumNonneg(s[1..]);
    if i > 0 {
      SumAtLeast(s[1..], i - 1);
    }
  }

  /** A sum of `n` equal terms `c` is `n * c`. */
  lemma {:induction false} SumConstant(s: seq<real>, c: real)
    requires forall i :: 0 <= i < |s| ==> s[i] == c
    ensures Sum(s) == |s| as real * c
  {
    if |s| > 0 {
      SumConstant(s[1..], c);
    }
  }

  /** The square of a real, never negative. */
  function Sq(d: real): (r: real)
    ensures r >= 0.0
  {
    Square(d);
    d * d
  }

  /** The square of a real is never negative, and positive away from zero. */
  lemma Square(d: real)
    ensures d * d >= 0.0
    ensures d != 0.0 ==> d * d > 0.0
  {
    if d > 0.0 {
      assert d * d > 0.0 * d;
    } else if d < 0.0 {
      assert (-d) * (-d) > 0.0;
    }
  }

  /** `d(x, y, norm=1)`: the sum of absolute coordinate differences. */
  function L1Dist(x: Point, y: Point): (r: real)
    requires |x| == |y|
    ensures r >= 0.0
    ensures r == 0.0 <==> x == y
    ensures forall i :: 0 <= i < |x| ==> Abs(x[i] - y[i]) <= r
    decreases |x|
  {
    if |x| == 0 then 0.0
    else
      var rest := L1Dist(x[1..], y[1..]);
      assert x == [x[0]] + x[1..] && y == [y[0]] + y[1..];
      assert forall i :: 1 <= i < |x| ==> x[i] - y[i] == x[1..][i - 1] - y[1..][i - 1];
      Abs(x[0] - y[0]) + rest
  }

  /** `d(x, y, norm='inf')`: the largest absolute coordinate difference,
      returned with a coordinate that attains it. `np.max` of an empty array
      raises, hence the non-empty requirement. */
  function LInfDistAt(x: Point, y: Point): (r: (real, nat))
    requires |x| == |y| && |x| >= 1
    ensures r.1 < |x| && r.0 == Abs(x[r.1] - y[r.1])
    ensures forall i :: 0 <= i < |x| ==> Abs(x[i] - y[i]) <= r.0
    decreases |x|
  {
    if |x| == 1 then (Abs(x[0] - y[0]), 0)
    else
      var n := |x| - 1;
      var rest := LInfDistAt(x[..n], y[..n]);
      assert forall i :: 0 <= i < n ==> x[i] - y[i] == x[..n][i] - y[..n][i];
      if Abs(x[n] - y[n]) > rest.0 then (Abs(x[n] - y[n]), n) else rest
  }

  function LInfDist(x: Point, y: Point): real
    requires |x| == |y| && |x| >= 1
  {
    LInfDistAt(x, y).0
  }

  /** The greatest coordinate difference never exceeds the sum of them all,
      and the two agree exactly when the points coincide. */
  lemma NormsCompare(x: Point, y: Point)
    requires |x| == |y| && |x| >= 1
    ensures 0.0 <= LInfDist(x, y) <= L1Dist(x, y)
    ensures LInfDist(x, y) == 0.0 <==> x == y
  {
    var (m, i) := LInfDistAt(x, y);
    if m == 0.0 {
      assert forall j :: 0 <= j < |x| ==> x[j] == y[j];
    }
  }

  /** When every coordinate differs by the same `c`, the squared distance
      is `n * c * c`; with `c` half the box width this is what the inner
      loop's exit test reads. */
  lemma SqDistUniform(x: Point, y: Point, c: real)
    requires |x| == |y|
    requires forall i :: 0 <= i < |x| ==> Abs(x[i] - y[i]) == c
    ensures SqDist(x, y) == |x| as real * Sq(c)
  {
    var s := SquaredDiffs(x, y);
    forall i | 0 <= i < |s|
      ensures s[i] == Sq(c)
    {
      AbsSquare(x[i] - y[i], c);
    }
    SumConstant(s, Sq(c));
  }

  /** Coordinates at distance `c` from each other have squared difference `c * c`. */
  lemma AbsSquare(d: real, c: real)
    requires Abs(d) == c
    ensures Sq(d) == Sq(c)
  {
    assert d == c || d == -c;
  }

  // ---------------------------------------------------------------------
  // The box and one inner step
  // ---------------------------------------------------------------------

  /** `(x_high + x_low) / 2.`, coordinate by coordinate. */
  function Midpoint(low: Point, high: Point): (m: Point)
    requires |low| == |high|
    ensures |m| == |low|
    ensures forall i :: 0 <= i < |m| ==> m[i] - low[i] == high[i] - m[i]
  {
    seq(|low|, i requires 0 <= i < |low| => (high[i] + low[i]) / 2.0)
  }

  /** Every coordinate's lower bound is strictly below its upper bound:
      `np.all(x_high - x_low > 0)`. */
  predicate ProperBox(low: Point, high: Point)
    requires |low| == |high|
  {
    forall i :: 0 <= i < |low| ==> low[i] < high[i]
  }

  /** Whether coordinate `i` moves its upper bound down to `x[i]` (true)
      or its lower bound up to `x[i]` (false). On a non-worsening step
      (`gradient`) the sign of the derivative decides; a zero derivative
      raises the lower bound. Otherwise the position relative to the
      previous point `y` decides. */
  predicate LowersHigh(gradient: bool, x: Point, y: Point, dfx: Point, i: nat)
    requires i < |x| && i < |y| && i < |dfx|
  {
    if gradient then dfx[i] > 0.0 else x[i] > y[i]
  }

  ghost predicate StepShapes(low: Point, high: Point, x: Point, y: Point, dfx: Point) {
    |low| == |high| == |x| == |y| == |dfx|
  }

  /** The lower bounds after one narrowing pass. */
  function NarrowedLow(low: Point, x: Point, y: Point, dfx: Point, gradient: bool): (r: Point)
    requires |low| == |x| == |y| == |dfx|
    ensures |r| == |low|
  {
    seq(|low|, i requires 0 <= i < |low| => if LowersHigh(gradient, x, y, dfx, i) then low[i] else x[i])
  }

  /** The upper bounds after one narrowing pass. */
  function NarrowedHigh(high: Point, x: Point, y: Point, dfx: Point, gradient: bool): (r: Point)
    requires |high| == |x| == |y| == |dfx|
    ensures |r| == |high|
  {
    seq(|high|, i requires 0 <= i < |high| => if LowersHigh(gradient, x, y, dfx, i) then x[i] else high[i])
  }

  /** One narrowing pass, lines 120-133: each coordinate of the box is cut
      at `x[i]`, keeping the half the branch selects, in place. */
  method Narrow(low: array<real>, high: array<real>, x: Point, y: Point, dfx: Point, gradient: bool)
    requires low != high
    requires low.Length == high.Length == |x| == |y| == |dfx|
    modifies low, high
    ensures low[..] == NarrowedLow(old(low[..]), x, y, dfx, gradient)
    ensures high[..] == NarrowedHigh(old(high[..]), x, y, dfx, gradient)
  {
    for i := 0 to |x|
      invariant forall j :: 0 <= j < i ==> low[j] == NarrowedLow(old(low[..]), x, y, dfx, gradient)[j]
      invariant forall j :: 0 <= j < i ==> high[j] == NarrowedHigh(old(high[..]), x, y, dfx, gradient)[j]
      invariant forall j :: i <= j < |x| ==> low[j] == old(low[j]) && high[j] == old(high[j])
    {
      if LowersHigh(gradient, x, y, dfx, i) {
        high[i] := x[i];
      } else {
        low[i] := x[i];
      }
    }
  }

  /** What one inner step does to a proper box whose midpoint is `x`: in
      every coordinate exactly one bound moves, to `x[i]`, so the new box is
      proper, nested in the old one and exactly half as wide; `x` lies on a
      face of the new box and is half the new width away from the new
      midpoint in every coordinate. */
  lemma NarrowHalves(low: Point, high: Point, x: Point, y: Point, dfx: Point, gradient: bool)
    requires StepShapes(low, high, x, y, dfx)
    requires ProperBox(low, high) && x == Midpoint(low, high)
    ensures var low', high' := NarrowedLow(low, x, y, dfx, gradient), NarrowedHigh(high, x, y, dfx, gradient);
      && ProperBox(low', high')
      && (forall i :: 0 <= i < |x| ==> high'[i] - low'[i] == (high[i] - low[i]) / 2.0)
      && (forall i :: 0 <= i < |x| ==> low[i] <= low'[i] && high'[i] <= high[i])
      && (forall i :: 0 <= i < |x| ==>
            if LowersHigh(gradient, x, y, dfx, i)
            then low'[i] == low[i] && high'[i] == x[i] && x[i] < high[i]
            else low'[i] == x[i] && high'[i] == high[i] && low[i] < x[i])
      && (forall i :: 0 <= i < |x| ==>
            Abs(Midpoint(low', high')[i] - x[i]) == (high'[i] - low'[i]) / 2.0)
  {
  }

  // ---------------------------------------------------------------------
  // Termination of the inner loop
  // ---------------------------------------------------------------------

  function Pow2(k: nat): (r: real)
    ensures r >= 1.0
  {
    if k == 0 then 1.0 else 2.0 * Pow2(k - 1)
  }

  lemma {:induction false} Pow2AboveCount(k: nat)
    ensures Pow2(k) >= (k + 1) as real
  {
    if k > 0 {
      Pow2AboveCount(k - 1);
    }
  }

  /** An upper bound on the number of inner steps for a box of half-width
      `r` in `n` dimensions and tolerance `eps`. */
  function StepBound(n: nat, r: real, eps: real): (b: int)
    requires eps > 0.0
    ensures b >= 1
  {
    SqPositive(eps);
    var q := (n as real * Sq(r) / Sq(eps)).Floor + 1;
    if q >= 1 then q else 1
  }

  /** The box width after `k` inner steps from a trust range `r`: `2 r`
      halved `k` times. */
  function Width(r: real, k: nat): real
  {
    if k == 0 then 2.0 * r else Width(r, k - 1) / 2.0
  }

  lemma {:induction false} WidthSign(r: real, k: nat)
    ensures Width(r, k) > 0.0 <==> r > 0.0
  {
    if k > 0 {
      WidthSign(r, k - 1);
    }
  }

  lemma {:induction false} WidthTimesPow2(r: real, k: nat)
    ensures Width(r, k) * Pow2(k) == 2.0 * r
  {
    if k > 0 {
      WidthTimesPow2(r, k - 1);
      assert Width(r, k) * Pow2(k) == (Width(r, k - 1) / 2.0) * (2.0 * Pow2(k - 1));
    }
  }

  /** After `k` halvings of a box of width `2 r` the squared distance between
      consecutive points, `n (w / 2)^2`, exceeds `eps^2` only while `k` is
      below `StepBound(n, r, eps)`: the inner loop cannot run forever. */
  lemma InnerStepsBounded(n: nat, r: real, eps: real, w: real, k: nat)
    requires r > 0.0 && eps > 0.0 && w > 0.0
    requires w * Pow2(k) == 2.0 * r
    requires n as real * Sq(w / 2.0) > Sq(eps)
    ensures k < StepBound(n, r, eps)
  {
    var p := Pow2(k);
    var h := w / 2.0;
    assert h * p == r;
    SqMul(h, p);
    SqAbove(p);
    SqPositive(eps);
    assert n as real * Sq(r) == (n as real * Sq(h)) * Sq(p);
    RatioAbove(n as real * Sq(h), Sq(p), Sq(eps), p, n as real * Sq(r));
    Pow2AboveCount(k);
  }

  /** The inner loop's test read at step `k`: with every coordinate of `x`
      and `y` half the current width apart, `d(x, y) > eps` leaves `k` below
      the step bound. */
  lemma StepsLeft(x: Point, y: Point, r: real, eps: real, k: nat)
    requires |x| == |y| && r > 0.0 && eps > 0.0
    requires forall i :: 0 <= i < |x| ==> Abs(x[i] - y[i]) == Width(r, k) / 2.0
    requires SqDist(x, y) > Sq(eps)
    ensures k < StepBound(|x|, r, eps)
  {
    SqDistUniform(x, y, Width(r, k) / 2.0);
    WidthSign(r, k);
    WidthTimesPow2(r, k);
    InnerStepsBounded(|x|, r, eps, Width(r, k), k);
  }

  lemma SqPositive(d: real)
    requires d > 0.0
    ensures Sq(d) > 0.0
  {
    assert Sq(d) / d == d;
  }

  lemma SqMul(a: real, b: real)
    ensures Sq(a * b) == Sq(a) * Sq(b)
  {
  }

  lemma SqAbove(p: real)
    requires p >= 1.0
    ensures Sq(p) >= p
  {
    assert p * p >= 1.0 * p;
  }

  /** `m = a s` with `a > e > 0` and `s >= p >= 1` gives `m / e > p`. */
  lemma RatioAbove(a: real, s: real, e: real, p: real, m: real)
    requires m == a * s && a > e && s >= p >= 1.0 && e > 0.0
    ensures m / e > p
  {
    assert a * s > e * s;
    assert e * s >= e * p;
  }

  // ---------------------------------------------------------------------
  // One outer iteration and the whole run
  // ---------------------------------------------------------------------

  /** The assertion on line 113 can fail. */
  datatype BisectionError =
    | DegenerateBox   // `np.all(x_high - x_low > 0)` was false at an inner step
    | OutOfCycles     // the outer convergence test still asked for more cycles after `maxCycles`

  /** What one outer iteration leaves behind: the final box, the best inner
      point and its value, and the next outer iterate. */
  datatype OuterStep = OuterStep(low: Point, high: Point, best: Point, fBest: real, next: Point)

  /** The index of the first smallest value, as `np.argmin` returns it. */
  function FirstArgMin(vals: seq<real>): (r: nat)
    requires |vals| >= 1
    ensures r < |vals|
    ensures forall s :: 0 <= s < |vals| ==> vals[r] <= vals[s]
    ensures forall s :: 0 <= s < r ==> vals[s] > vals[r]
  {
    if |vals| == 1 then 0
    else
      var n := |vals| - 1;
      var t := FirstArgMin(vals[..n]);
      assert forall s :: 0 <= s < n ==> vals[..n][s] == vals[s];
      if vals[n] < vals[t] then n else t
  }

  /** `p` lies in the trust region `x0 ± r`. */
  ghost predicate Within(x0: Point, r: real, p: Point) {
    |p| == |x0| && forall i :: 0 <= i < |x0| ==> x0[i] - r <= p[i] <= x0[i] + r
  }

  /** The box after `k` inner steps: every coordinate is `Width(r, k)`
      wide, the box lies inside the trust region and `x` is its midpoint. */
  ghost predicate BoxInv(x0: Point, r: real, low: Point, high: Point, k: nat, x: Point) {
    && |low| == |high| == |x0|
    && (forall i :: 0 <= i < |x0| ==> high[i] - low[i] == Width(r, k))
    && (forall i :: 0 <= i < |x0| ==> x0[i] - r <= low[i] && high[i] <= x0[i] + r)
    && x == Midpoint(low, high)
  }

  /** The running best after the points `visited` (the first being `x0`):
      `xBest` is the earliest of least value, `fxBest` its value, and every
      visited point lies in the trust region. */
  ghost predicate BestInv(f: Point -> real, x0: Point, r: real, xBest: Point, fxBest: Extended,
                          visited: seq<Point>, bestAt: nat) {
    && (forall t :: 0 <= t < |visited| ==> Within(x0, r, visited[t]))
    && (|visited| == 0 ==> fxBest.PlusInfinity?)
    && (|visited| > 0 ==>
          && visited[0] == x0 && fxBest == Finite(f(xBest))
          && bestAt < |visited| && visited[bestAt] == xBest
          && (forall t :: 0 <= t < |visited| ==> f(xBest) <= f(visited[t]))
          && (forall t :: 0 <= t < bestAt ==> f(visited[t]) > f(xBest)))
  }

  /** The box `x0 ± r` the outer iteration starts from. */
  lemma InitialBox(x0: Point, r: real, low: Point, high: Point)
    requires |low| == |high| == |x0|
    requires forall i :: 0 <= i < |x0| ==> low[i] == x0[i] - r && high[i] == x0[i] + r
    ensures BoxInv(x0, r, low, high, 0, x0)
  {
    assert x0 == Midpoint(low, high);
  }

  /** With at least one coordinate the box is proper exactly when the trust
      range is positive. */
  lemma BoxProper(x0: Point, r: real, low: Point, high: Point, k: nat, x: Point)
    requires |x0| >= 1 && BoxInv(x0, r, low, high, k, x)
    ensures ProperBox(low, high) <==> r > 0.0
  {
    WidthSign(r, k);
    assert high[0] - low[0] == Width(r, k);
  }

  /** One inner step keeps the box invariant with one more step; the new
      midpoint is half the new width from the old one in every coordinate,
      and the old midpoint lies in the trust region. */
  lemma BoxStep(x0: Point, r: real, low: Point, high: Point, k: nat, x: Point,
                y: Point, dfx: Point, gradient: bool)
    requires BoxInv(x0, r, low, high, k, x) && r > 0.0
    requires |y| == |dfx| == |x0|
    ensures var low', high' := NarrowedLow(low, x, y, dfx, gradient), NarrowedHigh(high, x, y, dfx, gradient);
      && BoxInv(x0, r, low', high', k + 1, Midpoint(low', high'))
      && (forall i :: 0 <= i < |x0| ==> Abs(Midpoint(low', high')[i] - x[i]) == Width(r, k + 1) / 2.0)
    ensures Within(x0, r, x)
  {
    WidthSign(r, k);
    assert ProperBox(low, high);
    NarrowHalves(low, high, x, y, dfx, gradient);
  }

  /** Lines 134-136: evaluating one more point `x` updates the running best
      only on a strict improvement. */
  lemma BestStep(f: Point -> real, x0: Point, r: real, xBest: Point, fxBest: Extended,
                 visited: seq<Point>, bestAt: nat, x: Point)
    requires BestInv(f, x0, r, xBest, fxBest, visited, bestAt)
    requires Within(x0, r, x) && (|visited| == 0 ==> x == x0)
    ensures var better := Below(f(x), fxBest);
      BestInv(f, x0, r, if better then x else xBest, if better then Finite(f(x)) else fxBest,
              visited + [x], if better then |visited| else bestAt)
  {
  }

  /** Lines 141-145: the next iterate, the first of the two final corners
      and the best inner point with the least value, is no worse than the
      best inner point, which is no worse than the start, and it lies in the
      trust region. */
  lemma NextChoice(f: Point -> real, x0: Point, r: real, low: Point, high: Point, k: nat, x: Point,
                   xBest: Point, fxBest: Extended, visited: seq<Point>, bestAt: nat)
    requires |x0| >= 1 && r > 0.0
    requires BoxInv(x0, r, low, high, k, x) && BestInv(f, x0, r, xBest, fxBest, visited, bestAt)
    requires |visited| > 0
    ensures ProperBox(low, high)
    ensures var a := FirstArgMin([f(low), f(high), fxBest.v]);
      var next := [low, high, xBest][a];
      f(next) <= fxBest.v <= f(x0) && Within(x0, r, next)
  {
    BoxProper(x0, r, low, high, k, x);
    var a := FirstArgMin([f(low), f(high), fxBest.v]);
    assert f(xBest) <= f(visited[0]);
    assert Within(x0, r, visited[bestAt]);
    if a == 0 {
      assert Within(x0, r, low);
    } else if a == 1 {
      assert Within(x0, r, high);
    }
  }

  /** Lines 115-141, one inner step: evaluate `f` and `df` at the midpoint
      `x`, cut the box at `x` in every coordinate (the half chosen by the
      gradient when `f(x) <= fy`, by the position relative to `y`
      otherwise), record `x` as the new best on a strict improvement, and
      return the new midpoint. */
  method InnerStep(f: Point -> real, df: Point -> Point, x0: Point, r: real,
                   low: array<real>, high: array<real>, x: Point, y: Point, fy: Extended,
                   xBest: Point, fxBest: Extended, ghost visited: seq<Point>, ghost bestAt: nat)
    returns (x': Point, fx: real, xBest': Point, fxBest': Extended, ghost visited': seq<Point>, ghost bestAt': nat)
    requires low != high && r > 0.0 && |y| == |x0|
    requires forall p: Point :: |df(p)| == |p|
    requires BoxInv(x0, r, low[..], high[..], |visited|, x)
    requires BestInv(f, x0, r, xBest, fxBest, visited, bestAt) && (|visited| == 0 ==> x == x0)
    modifies low, high
    ensures fx == f(x) && visited' == visited + [x] && x' == Midpoint(low[..], high[..])
    ensures low[..] == NarrowedLow(old(low[..]), x, y, df(x), AtMost(fx, fy))
    ensures high[..] == NarrowedHigh(old(high[..]), x, y, df(x), AtMost(fx, fy))
    ensures if Below(fx, fxBest) then xBest' == x && fxBest' == Finite(fx) && bestAt' == |visited|
            else xBest' == xBest && fxBest' == fxBest && bestAt' == bestAt
    ensures BoxInv(x0, r, low[..], high[..], |visited'|, x')
    ensures forall i :: 0 <= i < |x0| ==> Abs(x'[i] - x[i]) == Width(r, |visited'|) / 2.0
    ensures BestInv(f, x0, r, xBest', fxBest', visited', bestAt')
  {
    fx := f(x);
    var dfx := df(x);
    var gradient := AtMost(fx, fy);
    ghost var k := |visited|;
    ghost var lo, hi := low[..], high[..];
    BoxStep(x0, r, lo, hi, k, x, y, dfx, gradient);
    BestStep(f, x0, r, xBest, fxBest, visited, bestAt, x);
    Narrow(low, high, x, y, dfx, gradient);
    xBest', fxBest', bestAt' := xBest, fxBest, bestAt;
    if Below(fx, fxBest) {
      xBest', fxBest', bestAt' := x, Finite(fx), k;
    }
    visited' := visited + [x];
    x' := Midpoint(low[..], high[..]);
  }

  /** The box `x0 ± r` cut at `x0` by the sign of the derivative `d`: the
      upper bound moves to `x0[i]` where `d[i] > 0`, the lower bound
      otherwise. */
  ghost predicate FirstCut(x0: Point, r: real, d: Point, low: Point, high: Point) {
    && |low| == |high| == |x0| == |d|
    && forall i :: 0 <= i < |x0| ==>
         if d[i] > 0.0 then low[i] == x0[i] - r && high[i] == x0[i]
         else low[i] == x0[i] && high[i] == x0[i] + r
  }

  /** The first inner step of an outer iteration runs with `fy = np.inf`,
      so `fx <= fy` holds and the gradient branch cuts the initial box. */
  lemma FirstStepGradient(x0: Point, r: real, d: Point, lo: Point, hi: Point, y: Point,
                          low: Point, high: Point)
    requires BoxInv(x0, r, lo, hi, 0, x0) && |y| == |d| == |x0|
    requires low == NarrowedLow(lo, x0, y, d, true) && high == NarrowedHigh(hi, x0, y, d, true)
    ensures FirstCut(x0, r, d, low, high)
  {
    forall i | 0 <= i < |x0|
      ensures lo[i] == x0[i] - r && hi[i] == x0[i] + r
    {
      assert hi[i] - lo[i] == 2.0 * r;
    }
  }

  /** `InnerStep` inside the inner loop, which also records the box the
      first step leaves behind. */
  method Advance(f: Point -> real, df: Point -> Point, x0: Point, r: real,
                 low: array<real>, high: array<real>, x: Point, y: Point, fy: Extended,
                 xBest: Point, fxBest: Extended, ghost visited: seq<Point>, ghost bestAt: nat,
                 ghost firstLow: Point, ghost firstHigh: Point)
    returns (x': Point, fx: real, xBest': Point, fxBest': Extended, ghost visited': seq<Point>, ghost bestAt': nat,
             ghost firstLow': Point, ghost firstHigh': Point)
    requires low != high && r > 0.0 && |y| == |x0|
    requires forall p: Point :: |df(p)| == |p|
    requires BoxInv(x0, r, low[..], high[..], |visited|, x)
    requires BestInv(f, x0, r, xBest, fxBest, visited, bestAt) && (|visited| == 0 ==> x == x0)
    requires fy.PlusInfinity? <==> |visited| == 0
    requires |visited| > 0 ==> FirstCut(x0, r, df(x0), firstLow, firstHigh)
    modifies low, high
    ensures fx == f(x) && visited' == visited + [x]
    ensures BoxInv(x0, r, low[..], high[..], |visited'|, x')
    ensures forall i :: 0 <= i < |x0| ==> Abs(x'[i] - x[i]) == Width(r, |visited'|) / 2.0
    ensures BestInv(f, x0, r, xBest', fxBest', visited', bestAt')
    ensures FirstCut(x0, r, df(x0), firstLow', firstHigh')
  {
    ghost var lo, hi := low[..], high[..];
    x', fx, xBest', fxBest', visited', bestAt' := InnerStep(f, df, x0, r, low, high, x, y, fy, xBest, fxBest, visited, bestAt);
    firstLow', firstHigh' := firstLow, firstHigh;
    if |visited| == 0 {
      FirstStepGradient(x0, r, df(x0), lo, hi, y, low[..], high[..]);
      firstLow', firstHigh' := low[..], high[..];
    }
  }

  /** What a successful outer iteration from `x0` with trust range `r`
      guarantees about its result `o`, the points `visited` by the inner
      loop and the box `firstLow`/`firstHigh` its first step left behind. */
  ghost predicate OuterResult(f: Point -> real, df: Point -> Point, x0: Point, r: real, eps: real,
                              o: OuterStep, visited: seq<Point>, bestAt: nat,
                              firstLow: Point, firstHigh: Point)
    requires eps > 0.0
  {
    && |o.low| == |o.high| == |o.best| == |o.next| == |x0|
    // the final box is proper and inside the initial trust region
    && ProperBox(o.low, o.high)
    && (forall i :: 0 <= i < |x0| ==> x0[i] - r <= o.low[i] && o.high[i] <= x0[i] + r)
    // x_best is the first evaluated point of least value, and fx_best its value
    && |visited| >= 1 && visited[0] == x0
    && bestAt < |visited| && visited[bestAt] == o.best && o.fBest == f(o.best)
    && (forall t :: 0 <= t < |visited| ==> f(o.best) <= f(visited[t]))
    && (forall t :: 0 <= t < bestAt ==> f(visited[t]) > f(o.best))
    // the next iterate is the first of the three candidates of least value
    && var a := FirstArgMin([f(o.low), f(o.high), o.fBest]);
    && o.next == [o.low, o.high, o.best][a]
    && f(o.next) <= o.fBest <= f(x0)
    && Within(x0, r, o.next)
    // the inner loop stopped because its last two points are within `eps`
    && |visited[|visited| - 1]| == |x0|
    && SqDist(Midpoint(o.low, o.high), visited[|visited| - 1]) <= Sq(eps)
    // `fy` starts at `np.inf`, so the first inner step cut the box `x0 ± r`
    // by the sign of the gradient at `x0`
    && FirstCut(x0, r, df(x0), firstLow, firstHigh)
  }

  /** The state the inner loop exits in gives an `OuterResult`. */
  lemma Conclude(f: Point -> real, df: Point -> Point, x0: Point, r: real, eps: real,
                 low: Point, high: Point, k: nat, x: Point, y: Point, xBest: Point, fxBest: Extended,
                 visited: seq<Point>, bestAt: nat, firstLow: Point, firstHigh: Point, o: OuterStep)
    requires |x0| >= 1 && eps > 0.0 && k > 0 && r > 0.0
    requires BoxInv(x0, r, low, high, k, x) && BestInv(f, x0, r, xBest, fxBest, visited, bestAt)
    requires |visited| == k && y == visited[k - 1] && |y| == |x0| && !(SqDist(x, y) > Sq(eps))
    requires FirstCut(x0, r, df(x0), firstLow, firstHigh)
    requires o.low == low && o.high == high && o.best == xBest && o.fBest == fxBest.v
    requires o.next == [low, high, xBest][FirstArgMin([f(low), f(high), fxBest.v])]
    ensures OuterResult(f, df, x0, r, eps, o, visited, bestAt, firstLow, firstHigh)
  {
    NextChoice(f, x0, r, low, high, k, x, xBest, fxBest, visited, bestAt);
  }

  /** Lines 104-146: build the box `x ± trust_range`, run the inner
      bisection loop until consecutive points are within `eps`, then move
      to the first of `[x_low, x_high, x_best]` with the least value. The
      ghost `visited` lists the points evaluated by the inner loop, in
      order, `bestAt` the position of `x_best` among them, and
      `firstLow`/`firstHigh` the box after the first inner step. */
  method OuterIteration(f: Point -> real, df: Point -> Point, x0: Point, r: real, eps: real)
    returns (res: Result<OuterStep, BisectionError>, ghost visited: seq<Point>, ghost bestAt: nat,
             ghost firstLow: Point, ghost firstHigh: Point)
    requires |x0| >= 1 && eps > 0.0
    requires forall p: Point :: |df(p)| == |p|
    ensures res.Failure? <==> r <= 0.0
    ensures res.Failure? ==> res.error == DegenerateBox
    ensures res.Success? ==> OuterResult(f, df, x0, r, eps, res.value, visited, bestAt, firstLow, firstHigh)
  {
    var n := |x0|;
    var low := new real[n](i requires 0 <= i < n => x0[i] - r);
    var high := new real[n](i requires 0 <= i < n => x0[i] + r);
    var x := x0;
    // y starts as the vector of np.inf: at infinite distance from x, so the
    // first step always runs; its entries are only read once fy is finite
    var y := x0;
    var fy := PlusInfinity;
    var fxBest := PlusInfinity;
    var xBest := x0;
    visited, bestAt := [], 0;
    firstLow, firstHigh := [], [];
    ghost var k: nat := 0;
    ghost var bound: int := if r > 0.0 then StepBound(n, r, eps) else 1;
    ghost var lo, hi := low[..], high[..];
    InitialBox(x0, r, lo, hi);
    while fy.PlusInfinity? || SqDist(x, y) > Sq(eps)
      invariant low.Length == high.Length == n && |y| == n
      invariant lo == low[..] && hi == high[..]
      invariant BoxInv(x0, r, lo, hi, k, x)
      invariant BestInv(f, x0, r, xBest, fxBest, visited, bestAt)
      invariant |visited| == k && (k == 0 ==> x == x0)
      invariant fy.PlusInfinity? <==> k == 0
      invariant k > 0 ==> r > 0.0 && forall i :: 0 <= i < n ==> Abs(x[i] - y[i]) == Width(r, k) / 2.0
      invariant 0 <= k <= bound
      invariant k > 0 ==> y == visited[k - 1]
      invariant k > 0 ==> FirstCut(x0, r, df(x0), firstLow, firstHigh)
      decreases bound - k
    {
      BoxProper(x0, r, lo, hi, k, x);
      if !ProperBox(low[..], high[..]) {
        return Failure(DegenerateBox), visited, bestAt, firstLow, firstHigh;
      }
      if k > 0 {
        StepsLeft(x, y, r, eps, k);
      }
      var x', fx;
      x', fx, xBest, fxBest, visited, bestAt, firstLow, firstHigh :=
        Advance(f, df, x0, r, low, high, x, y, fy, xBest, fxBest, visited, bestAt, firstLow, firstHigh);
      lo, hi := low[..], high[..];
      y := x;
      fy := Finite(fx);
      x := x';
      k := k + 1;
    }
    var finalLow, finalHigh := low[..], high[..];
    BoxProper(x0, r, lo, hi, k, x);
    var a := FirstArgMin([f(finalLow), f(finalHigh), fxBest.v]);
    var next := [finalLow, finalHigh, xBest][a];
    var o := OuterStep(finalLow, finalHigh, xBest, fxBest.v, next);
    Conclude(f, df, x0, r, eps, finalLow, finalHigh, k, x, y, xBest, fxBest, visited, bestAt, firstLow, firstHigh, o);
    res := Success(o);
  }

  /** `MultiDimensionalBisection(x, trust_range, epsilon)`, lines 97-153.
      The outer test `max|x / x_prev - 1| > epsilon` is the parameter
      `unsettled(x, x_prev)`; the jittered radius of line 147 is
      `radius(m, x, x_prev)` for cycle `m`; `maxCycles` bounds the number of
      outer cycles. `prev` is the last `x_prev`. Every outer cycle moves to a point no worse than the
      one it started from, so the result is no worse than the start. */
  method MultiDimensionalBisection(f: Point -> real, df: Point -> Point, x: Point, trustRange: real,
                                   eps: real, unsettled: (Point, Point) -> bool,
                                   radius: (nat, Point, Point) -> real, maxCycles: nat)
    returns (res: Result<Point, BisectionError>, prev: Point)
    requires |x| >= 1 && eps > 0.0
    requires forall p: Point :: |df(p)| == |p|
    ensures res.Success? ==> |res.value| == |x| && f(res.value) <= f(x)
    // a result has passed the outer test against the iterate before it
    ensures res.Success? ==> !unsettled(res.value, prev)
    // `prev` is the initial `10*x` or an earlier iterate, between the result and the start
    ensures res.Success? ==> |prev| == |x| && (prev == Scaled(10.0, x) || f(res.value) <= f(prev) <= f(x))
    ensures trustRange <= 0.0 && unsettled(x, Scaled(10.0, x)) && maxCycles > 0 ==>
              res == Failure(DegenerateBox)
    ensures !unsettled(x, Scaled(10.0, x)) ==> res == Success(x)
  {
    var cur := x;
    prev := Scaled(10.0, x);
    var range := trustRange;
    var m: nat := 0;
    while unsettled(cur, prev)
      invariant m <= maxCycles
      invariant |cur| == |x| && f(cur) <= f(x)
      invariant |prev| == |x| && (prev == Scaled(10.0, x) || f(cur) <= f(prev) <= f(x))
      invariant m == 0 ==> cur == x && prev == Scaled(10.0, x) && range == trustRange
      invariant m > 0 ==> trustRange > 0.0 && unsettled(x, Scaled(10.0, x))
      decreases maxCycles - m
    {
      if m == maxCycles {
        return Failure(OutOfCycles), prev;
      }
      m := m + 1;
      var step, _, _, _, _ := OuterIteration(f, df, cur, range, eps);
      if step.Failure? {
        return Failure(step.error), prev;
      }
      prev := cur;
      cur := step.value.next;
      range := radius(m, cur, prev);
    }
    return Success(cur), prev;
  }

  /** `10*x`, the initial `x_prev`. */
  function Scaled(c: real, x: Point): Point
  {
    seq(|x|, i requires 0 <= i < |x| => c * x[i])
  }

  // ---------------------------------------------------------------------
  // The restart loop, lines 155-164
  // ---------------------------------------------------------------------

  /** The loop stops once `f(x_best) <= 1e-3`. */
  const Target: real := 0.001

  /** Line 162: a restart's result replaces the best only when strictly better. */
  function KeepBetter(f: Point -> real, best: Point, candidate: Point): (r: Point)
    ensures r == best || r == candidate
    ensures f(r) <= f(best) && f(r) <= f(candidate)
    ensures r != best ==> f(r) < f(best)
  {
    if f(candidate) < f(best) then candidate else best
  }

  /** The best point after the restarts whose results are `results`. */
  function BestOf(f: Point -> real, start: Point, results: seq<Point>): (b: Point)
    ensures f(b) <= f(start)
  {
    if results == [] then start
    else KeepBetter(f, BestOf(f, start, results[..|results| - 1]), results[|results| - 1])
  }

  /** The best point is never worse than the start or any restart's result,
      and it is either the start or one of those results. */
  lemma {:induction false} BestOfIsMinimum(f: Point -> real, start: Point, results: seq<Point>)
    ensures var b := BestOf(f, start, results);
      && f(b) <= f(start)
      && (forall t :: 0 <= t < |results| ==> f(b) <= f(results[t]))
      && (b == start || b in results)
      && (b != start ==> f(b) < f(start))
  {
    if results != [] {
      var n := |results| - 1;
      var init := results[..n];
      BestOfIsMinimum(f, start, init);
      assert forall t :: 0 <= t < n ==> init[t] == results[t];
    }
  }

  /** Because replacement needs a strict improvement, the best point is the
      start or else the earliest restart result that reaches its value. */
  lemma {:induction false} BestOfIsFirst(f: Point -> real, start: Point, results: seq<Point>)
    ensures var b := BestOf(f, start, results);
      forall t :: 0 <= t < |results| && f(results[t]) == f(b) ==>
        b == start || exists u :: 0 <= u <= t && b == results[u]
  {
    if results != [] {
      var n := |results| - 1;
      var init := results[..n];
      assert results == init + [results[n]];
      BestOfIsFirst(f, start, init);
      BestOfIsMinimum(f, start, init);
      FirstAfterOneMore(f, start, init, results[n], BestOf(f, start, init), BestOf(f, start, results));
    }
  }

  /** The step of `BestOfIsFirst`: one more result `next` after `init`. */
  lemma FirstAfterOneMore(f: Point -> real, start: Point, init: seq<Point>, next: Point, b0: Point, b: Point)
    requires b0 == BestOf(f, start, init) && b == KeepBetter(f, b0, next)
    requires forall t :: 0 <= t < |init| && f(init[t]) == f(b0) ==>
               b0 == start || exists u :: 0 <= u <= t && b0 == init[u]
    requires forall t :: 0 <= t < |init| ==> f(b0) <= f(init[t])
    requires b0 == start || b0 in init
    ensures forall t :: 0 <= t < |init| + 1 && f((init + [next])[t]) == f(b) ==>
              b == start || exists u :: 0 <= u <= t && b == (init + [next])[u]
  {
    var results := init + [next];
    var n := |init|;
    forall t | 0 <= t < |results| && f(results[t]) == f(b)
      ensures b == start || exists u :: 0 <= u <= t && b == results[u]
    {
      if b == b0 {
        if t < n {
          assert results[t] == init[t];
          if b0 != start {
            var u :| 0 <= u <= t && b0 == init[u];
            assert b == results[u];
          }
        } else if b0 != start {
          var u :| 0 <= u < n && b0 == init[u];
          assert b == results[u];
        }
      } else {
        assert b == next && f(b) < f(b0);
        assert t == n;
      }
    }
  }

  /** Adding one more restart never makes the best worse, and changes it only
      on a strict improvement. */
  lemma RestartMonotone(f: Point -> real, start: Point, results: seq<Point>, next: Point)
    ensures f(BestOf(f, start, results + [next])) <= f(BestOf(f, start, results))
    ensures BestOf(f, start, results + [next]) != BestOf(f, start, results) ==>
              f(BestOf(f, start, results + [next])) < f(BestOf(f, start, results))
  {
    assert (results + [next])[..|results|] == results;
  }

  /** The `while f(x_best) > 1e-3` loop, over the results the restarts
      returned (each is `MultiDimensionalBisection` from a random start).
      It stops at the first best value at or below `Target`, or when the
      results run out. */
  method Restarts(f: Point -> real, start: Point, results: seq<Point>) returns (best: Point, used: nat)
    ensures used <= |results| && best == BestOf(f, start, results[..used])
    ensures used < |results| ==> f(best) <= Target
    ensures forall u :: 0 <= u < used ==> f(BestOf(f, start, results[..u])) > Target
  {
    best, used := start, 0;
    while used < |results| && f(best) > Target
      invariant used <= |results| && best == BestOf(f, start, results[..used])
      invariant forall u :: 0 <= u < used ==> f(BestOf(f, start, results[..u])) > Target
    {
      assert results[..used + 1][..used] == results[..used];
      best := KeepBetter(f, best, results[used]);
      used := used + 1;
    }
  }
}
