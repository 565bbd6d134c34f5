/** Cubic-bezier easing over exact reals. */
module Bezier {

  const SOLVE_EPSILON: real := 0.000001

  const STAGGER_EPSILON: real := 0.0001

  function Abs(x: real): real {
    if x < 0.0 then -x else x
  }

  function Clamp(x: real): real {
    if x < 0.0 then 0.0 else if x > 1.0 then 1.0 else x
  }

  predicate Unit(x: real) {
    0.0 <= x <= 1.0
  }

  /** The curve with end points 0 and 1 and handles `p1` and `p2`. */
  function Sample(t: real, p1: real, p2: real): real {
    var u := 1.0 - t;
    3.0 * u * u * t * p1 + 3.0 * u * t * t * p2 + t * t * t
  }

  function Derivative(t: real, p1: real, p2: real): real {
    var u := 1.0 - t;
    3.0 * u * u * p1 + 6.0 * u * t * (p2 - p1) + 3.0 * t * t * (1.0 - p2)
  }

  // ---- how the curve rises ----

  /** The mean slope between `a` and `b` for handles at the corners of the unit square. */
  function Slope00(a: real, b: real): real {
    a * a + a * b + b * b
  }

  function Slope10(a: real, b: real): real {
    3.0 - 6.0 * (a + b) + 4.0 * Slope00(a, b)
  }

  function Slope01(a: real, b: real): real {
    3.0 * (a + b) - 2.0 * Slope00(a, b)
  }

  function Slope11(a: real, b: real): real {
    Slope00(1.0 - a, 1.0 - b)
  }

  lemma SquareIn(a: real)
    requires Unit(a)
    ensures 0.0 <= a * a <= a
  {
  }

  lemma ProductIn(a: real, b: real)
    requires Unit(a) && Unit(b)
    ensures 0.0 <= a * b <= a && a * b <= b
  {
  }

  lemma SquareNonNegative(a: real)
    ensures 0.0 <= a * a
  {
  }

  lemma Slope00Bounds(a: real, b: real)
    requires Unit(a) && Unit(b)
    ensures 0.0 <= Slope00(a, b) <= 3.0 && Slope00(a, b) <= 1.5 * (a + b)
  {
    SquareIn(a);
    SquareIn(b);
    ProductIn(a, b);
    SumBounds(a, b, a * a, a * b, b * b);
  }

  lemma SumBounds(a: real, b: real, aa: real, ab: real, bb: real)
    requires Unit(a) && Unit(b) && 0.0 <= aa <= a && 0.0 <= bb <= b && 0.0 <= ab <= a && ab <= b
    ensures 0.0 <= aa + ab + bb <= 3.0 && aa + ab + bb <= 1.5 * (a + b)
  {
  }

  lemma SquareOfSum(a: real, b: real)
    ensures (a + b) * (a + b) == a * a + 2.0 * (a * b) + b * b
    ensures (a - b) * (a - b) == a * a - 2.0 * (a * b) + b * b
  {
  }

  lemma Slope10Bounds(a: real, b: real)
    requires Unit(a) && Unit(b)
    ensures 0.0 <= Slope10(a, b) <= 3.0
  {
    Slope00Bounds(a, b);
    var s := a + b;
    SquareOfSum(a, b);
    SquareOfSum(1.0, s);
    SquareNonNegative(1.0 - s);
    SquareNonNegative(a - b);
  }

  lemma Slope01Bounds(a: real, b: real)
    requires Unit(a) && Unit(b)
    ensures 0.0 <= Slope01(a, b) <= 3.0
  {
    Slope00Bounds(a, b);
    SquareOfSum(a, b);
    SquareOfSum(1.0, a + b);
    SquareNonNegative(1.0 - (a + b));
    SquareNonNegative(a - b);
  }

  /** The slope between two points, for any handles. */
  function Slope(a: real, b: real, p1: real, p2: real): real {
    Slope00(a, b) + p1 * (Slope10(a, b) - Slope00(a, b)) + p2 * (Slope01(a, b) - Slope00(a, b))
  }

  lemma CubeDifference(a: real, b: real)
    ensures b * b * b - a * a * a == (b - a) * Slope00(a, b)
  {
  }

  lemma FirstWeight(t: real)
    ensures 3.0 * (1.0 - t) * (1.0 - t) * t == 3.0 * t - 6.0 * (t * t) + 3.0 * (t * t * t)
  {
  }

  lemma SecondWeight(t: real)
    ensures 3.0 * (1.0 - t) * t * t == 3.0 * (t * t) - 3.0 * (t * t * t)
  {
  }

  lemma SampleExpanded(t: real, p1: real, p2: real)
    ensures Sample(t, p1, p2)
            == (3.0 * t - 6.0 * (t * t) + 3.0 * (t * t * t)) * p1 + (3.0 * (t * t) - 3.0 * (t * t * t)) * p2 + t * t * t
  {
    FirstWeight(t);
    SecondWeight(t);
  }

  lemma WeightDifferences(a: real, b: real)
    ensures (3.0 * b - 6.0 * (b * b) + 3.0 * (b * b * b)) - (3.0 * a - 6.0 * (a * a) + 3.0 * (a * a * a))
            == (b - a) * (Slope10(a, b) - Slope00(a, b))
    ensures (3.0 * (b * b) - 3.0 * (b * b * b)) - (3.0 * (a * a) - 3.0 * (a * a * a))
            == (b - a) * (Slope01(a, b) - Slope00(a, b))
  {
    CubeDifference(a, b);
    assert b * b - a * a == (b - a) * (a + b);
    assert (b - a) * (Slope10(a, b) - Slope00(a, b))
        == 3.0 * (b - a) - 6.0 * ((b - a) * (a + b)) + 3.0 * ((b - a) * Slope00(a, b));
    assert (b - a) * (Slope01(a, b) - Slope00(a, b)) == 3.0 * ((b - a) * (a + b)) - 3.0 * ((b - a) * Slope00(a, b));
  }

  /** Between two points the curve rises by their distance times the slope. */
  lemma SampleRise(a: real, b: real, p1: real, p2: real)
    ensures Sample(b, p1, p2) - Sample(a, p1, p2) == (b - a) * Slope(a, b, p1, p2)
  {
    SampleExpanded(a, p1, p2);
    SampleExpanded(b, p1, p2);
    WeightDifferences(a, b);
    CubeDifference(a, b);
    Distribute(b - a, Slope00(a, b), Slope10(a, b) - Slope00(a, b), Slope01(a, b) - Slope00(a, b), p1, p2);
    Spread(3.0 * b - 6.0 * (b * b) + 3.0 * (b * b * b), 3.0 * a - 6.0 * (a * a) + 3.0 * (a * a * a), p1);
    Spread(3.0 * (b * b) - 3.0 * (b * b * b), 3.0 * (a * a) - 3.0 * (a * a * a), p2);
  }

  lemma Spread(x: real, y: real, p: real)
    ensures x * p - y * p == (x - y) * p
  {
  }

  lemma Distribute(d: real, s: real, m: real, n: real, p: real, q: real)
    ensures d * (s + p * m + q * n) == d * s + (d * m) * p + (d * n) * q
  {
  }

  lemma Average(p: real, x: real, y: real)
    requires Unit(p) && 0.0 <= x <= 3.0 && 0.0 <= y <= 3.0
    ensures 0.0 <= x + p * (y - x) <= 3.0
  {
    var mean := x + p * (y - x);
    assert mean == (1.0 - p) * x + p * y;
    var left, right := (1.0 - p) * x, p * y;
    Scale(1.0 - p, x, left);
    Scale(p, y, right);
    MeanBounds(p, left, right, mean);
  }

  lemma MeanBounds(p: real, left: real, right: real, mean: real)
    requires 0.0 <= left <= 3.0 * (1.0 - p) && 0.0 <= right <= 3.0 * p && mean == left + right
    ensures 0.0 <= mean <= 3.0
  {
  }

  lemma Scale(p: real, x: real, r: real)
    requires 0.0 <= p && 0.0 <= x <= 3.0 && r == p * x
    ensures 0.0 <= r <= 3.0 * p
  {
  }

  lemma Slope11Is(a: real, b: real)
    ensures Slope11(a, b) == Slope10(a, b) + Slope01(a, b) - Slope00(a, b)
  {
  }

  /** For handles in the unit interval the slope is between 0 and 3. */
  lemma SlopeBounds(a: real, b: real, p1: real, p2: real)
    requires Unit(a) && Unit(b) && Unit(p1) && Unit(p2)
    ensures 0.0 <= Slope(a, b, p1, p2) <= 3.0
  {
    hide Slope00, Slope10, Slope01, Slope11;
    CornerBounds(a, b);
    Slope11Is(a, b);
    var low := Slope00(a, b) + p1 * (Slope10(a, b) - Slope00(a, b));
    var high := Slope01(a, b) + p1 * (Slope11(a, b) - Slope01(a, b));
    Average(p1, Slope00(a, b), Slope10(a, b));
    Average(p1, Slope01(a, b), Slope11(a, b));
    Average(p2, low, high);
    assert Slope11(a, b) - Slope01(a, b) == Slope10(a, b) - Slope00(a, b);
    assert high - low == Slope01(a, b) - Slope00(a, b);
  }

  lemma CornerBounds(a: real, b: real)
    requires Unit(a) && Unit(b)
    ensures 0.0 <= Slope00(a, b) <= 3.0 && 0.0 <= Slope10(a, b) <= 3.0
    ensures 0.0 <= Slope01(a, b) <= 3.0 && 0.0 <= Slope11(a, b) <= 3.0
  {
    hide Slope00, Slope10, Slope01;
    Slope00Bounds(a, b);
    Slope10Bounds(a, b);
    Slope01Bounds(a, b);
    Slope00Bounds(1.0 - a, 1.0 - b);
  }

  /** The curve never falls, and never rises more than three times as fast as its parameter. */
  lemma SampleRises(a: real, b: real, p1: real, p2: real)
    requires Unit(a) && Unit(b) && a <= b && Unit(p1) && Unit(p2)
    ensures 0.0 <= Sample(b, p1, p2) - Sample(a, p1, p2) <= 3.0 * (b - a)
  {
    hide Sample, Slope;
    SampleRise(a, b, p1, p2);
    SlopeBounds(a, b, p1, p2);
    Scale(b - a, Slope(a, b, p1, p2), Sample(b, p1, p2) - Sample(a, p1, p2));
  }

  /** The derivative is the slope where both points meet. */
  lemma DerivativeIsSlope(t: real, p1: real, p2: real)
    ensures Derivative(t, p1, p2) == Slope(t, t, p1, p2)
  {
  }

  // ---- bisection ----

  /** `2` to the power `-k`. */
  function Half(k: nat): (r: real)
    ensures 0.0 < r <= 1.0
  {
    if k == 0 then 1.0 else Half(k - 1) / 2.0
  }

  lemma HalfTwenty()
    ensures Half(20) == 1.0 / 1048576.0
    ensures Half(23) == 1.0 / 8388608.0
  {
    assert Half(4) == 1.0 / 16.0;
    assert Half(8) == 1.0 / 256.0;
    assert Half(12) == 1.0 / 4096.0;
    assert Half(16) == 1.0 / 65536.0;
    assert Half(20) == 1.0 / 1048576.0;
  }

  /** The bracket the bisection keeps around the wanted progress. */
  ghost predicate Brackets(lo: real, hi: real, p1: real, p2: real, progress: real, width: real) {
    && 0.0 <= lo <= hi <= 1.0 && hi - lo <= width
    && Sample(lo, p1, p2) <= progress <= Sample(hi, p1, p2)
  }

  lemma WholeBrackets(p1: real, p2: real, progress: real)
    requires Unit(progress)
    ensures Brackets(0.0, 1.0, p1, p2, progress, 1.0)
  {
  }

  lemma EndsAreExact(p1: real, p2: real)
    ensures Sample(0.0, p1, p2) == 0.0 && Sample(1.0, p1, p2) == 1.0
  {
  }

  /** A point of the bracket is as close as the bracket is narrow. */
  lemma BracketClose(lo: real, hi: real, t: real, p1: real, p2: real, progress: real, width: real)
    requires Brackets(lo, hi, p1, p2, progress, width) && lo <= t <= hi && Unit(p1) && Unit(p2)
    ensures Abs(Sample(t, p1, p2) - progress) <= 3.0 * width
  {
    hide Sample;
    SampleRises(lo, t, p1, p2);
    SampleRises(t, hi, p1, p2);
  }

  /** `solve_cubic_bezier_t`: some Newton steps, then bisection. Callers have checked the handles and `progress`. */
  method SolveCubicBezierT(progress: real, x1: real, x2: real) returns (t: real)
    requires Unit(progress) && Unit(x1) && Unit(x2)
    ensures Unit(t) && Abs(Sample(t, x1, x2) - progress) <= 3.0 / 1048576.0
  {
    hide Sample, Derivative, Half;
    HalfTwenty();
    t := progress;
    for i := 0 to 8
      invariant Unit(t)
    {
      var x := Sample(t, x1, x2) - progress;
      if Abs(x) <= SOLVE_EPSILON {
        return Clamp(t);
      }
      var derivative := Derivative(t, x1, x2);
      if Abs(derivative) < SOLVE_EPSILON {
        break;
      }
      var next := t - x / derivative;
      if !(0.0 <= next <= 1.0) {
        break;
      }
      t := next;
    }

    var lo, hi := 0.0, 1.0;
    WholeBrackets(x1, x2, progress);
    HalfUnfold(0);
    for i := 0 to 20
      invariant Brackets(lo, hi, x1, x2, progress, Half(i))
      invariant i > 0 ==> lo <= t <= hi
      invariant Unit(t)
    {
      HalfUnfold(i);
      t := (lo + hi) * 0.5;
      var x := Sample(t, x1, x2);
      if Abs(x - progress) <= SOLVE_EPSILON {
        return t;
      }
      if x < progress {
        lo := t;
      } else {
        hi := t;
      }
    }
    BracketClose(lo, hi, t, x1, x2, progress, Half(20));
  }

  lemma HalfUnfold(k: nat)
    ensures Half(0) == 1.0 && Half(k + 1) == Half(k) / 2.0
  {
  }

  /** `cubic_bezier_progress` */
  method CubicBezierProgress(progress: real, x1: real, y1: real, x2: real, y2: real) returns (r: real)
    requires Unit(x1) && Unit(x2)
    ensures Unit(r)
    ensures progress <= 0.0 ==> r == 0.0
    ensures progress >= 1.0 ==> r == 1.0
    ensures 0.0 < progress < 1.0 ==>
              exists t ::
                Unit(t) && Abs(Sample(t, x1, x2) - progress) <= 3.0 / 1048576.0 && r == Clamp(Sample(t, y1, y2))
  {
    if progress <= 0.0 {
      return 0.0;
    }
    if progress >= 1.0 {
      return 1.0;
    }
    var t := SolveCubicBezierT(progress, x1, x2);
    r := Clamp(Sample(t, y1, y2));
  }

  /** `cubic_bezier_at`: bisection from the progress itself. Handles outside the unit interval are accepted. */
  method CubicBezierAt(x1: real, y1: real, x2: real, y2: real, p: real) returns (r: real, ghost t: real)
    requires Unit(p)
    ensures Unit(t) && r == Sample(t, y1, y2)
    ensures Unit(x1) && Unit(x2) ==> Abs(Sample(t, x1, x2) - p) < STAGGER_EPSILON
    ensures (p == 0.0 ==> r == 0.0) && (p == 1.0 ==> r == 1.0)
  {
    hide Sample, Half;
    HalfTwenty();
    WholeBrackets(x1, x2, p);
    EndsAreExact(x1, x2);
    EndsAreExact(y1, y2);
    HalfUnfold(0);
    var lo, hi, s := 0.0, 1.0, p;
    for i := 0 to 24
      invariant Brackets(lo, hi, x1, x2, p, if i == 0 then 1.0 else Half(i - 1))
      invariant (i == 0 && s == p) || 0.0 < p < 1.0
      invariant lo <= s <= hi && (i > 0 ==> s == (lo + hi) / 2.0)
    {
      if i > 0 { HalfUnfold(i - 1); }
      var x := Sample(s, x1, x2);
      if Abs(x - p) < STAGGER_EPSILON {
        return Sample(s, y1, y2), s;
      }
      if x < p {
        lo := s;
      } else {
        hi := s;
      }
      s := (lo + hi) / 2.0;
    }
    if Unit(x1) && Unit(x2) { BracketClose(lo, hi, s, x1, x2, p, Half(23)); }
    return Sample(s, y1, y2), s;
  }
}
