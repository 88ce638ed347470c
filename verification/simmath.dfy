/**
 * Numeric helpers of the simulation (systems/math.go), plus the Go
 * conversions the rest of the model needs written out: int() of a float
 * truncates toward zero, and % on integers keeps the sign of the dividend.
 * Floats are modelled as reals.
 */
module SimMath {

  /** math.Pi as a real literal. */
  const Pi: real := 3.141592653589793
  const TwoPi: real := 2.0 * Pi

  function Abs(x: real): (r: real)
    ensures r >= 0.0
    ensures r == x || r == -x
  {
    if x < 0.0 then -x else x
  }

  function Min(a: real, b: real): (r: real)
    ensures r <= a && r <= b
    ensures r == a || r == b
  {
    if a < b then a else b
  }

  function Max(a: real, b: real): (r: real)
    ensures r >= a && r >= b
    ensures r == a || r == b
  {
    if a > b then a else b
  }

  /** clampFloat: the input when it is in range, otherwise the nearer bound. */
  function ClampFloat(v: real, lo: real, hi: real): (r: real)
    ensures v < lo ==> r == lo
    ensures lo <= v <= hi ==> r == v
    ensures lo <= v && hi < v ==> r == hi
    ensures lo <= hi ==> lo <= r <= hi
  {
    if v < lo then lo else if v > hi then hi else v
  }

  /** clamp01: clampFloat over [0, 1]. */
  function Clamp01(v: real): (r: real)
    ensures 0.0 <= r <= 1.0
    ensures 0.0 <= v <= 1.0 ==> r == v
    ensures v < 0.0 ==> r == 0.0
    ensures v > 1.0 ==> r == 1.0
  {
    if v < 0.0 then 0.0 else if v > 1.0 then 1.0 else v
  }

  lemma Clamp01IsClampFloat(v: real)
    ensures Clamp01(v) == ClampFloat(v, 0.0, 1.0)
  {
  }

  /** Go's int(x) for a float: truncation toward zero. */
  function Trunc(x: real): (r: int)
    ensures x >= 0.0 ==> r as real <= x < r as real + 1.0
    ensures x < 0.0 ==> r as real - 1.0 < x <= r as real
    ensures Abs(r as real) <= Abs(x)
  {
    if x >= 0.0 then x.Floor else -((-x).Floor)
  }

  /** Truncation is monotone on non-negative reals and exact on whole numbers. */
  lemma TruncMonotone(x: real, y: real)
    requires 0.0 <= x <= y
    ensures 0 <= Trunc(x) <= Trunc(y)
  {
    var a := Trunc(x);
    var b := Trunc(y);
    assert a as real <= x <= y < b as real + 1.0;
  }

  lemma TruncOfWhole(k: int)
    ensures Trunc(k as real) == k
  {
  }

  function IntAbs(m: int): (r: int)
    ensures r >= 0
    ensures r == m || r == -m
  {
    if m < 0 then -m else m
  }

  /** Go's integer a % m: the remainder of truncated division, signed like a. */
  function GoRem(a: int, m: int): (r: int)
    requires m != 0
    ensures a >= 0 ==> 0 <= r < IntAbs(m)
    ensures a < 0 ==> -IntAbs(m) < r <= 0
    ensures 0 <= a < IntAbs(m) ==> r == a
  {
    var am := IntAbs(m);
    EuclidRem(a, am);
    EuclidRem(-a, am);
    if a >= 0 then a % am else -((-a) % am)
  }

  /** Dafny's % by a positive modulus lies in [0, n) and leaves [0, n) alone. */
  lemma EuclidRem(a: int, n: int)
    requires n > 0
    ensures 0 <= a % n < n
    ensures 0 <= a < n ==> a % n == a
  {
  }

  lemma DivMul(t: real, y: real)
    requires y != 0.0
    ensures y * (t / y) == t
  {
  }

  lemma MulDivCancel(a: real, y: real)
    requires y != 0.0
    ensures (a * y) / y == a
  {
    var q := (a * y) / y;
    DivMul(a * y, y);
    assert y * (q - a) == 0.0;
  }

  lemma MulMonotone(y: real, a: real, b: real)
    requires y >= 0.0 && a <= b
    ensures y * a <= y * b
  {
  }

  /** A product of non-negative factors grows with each factor. */
  lemma ProductMonotone(a1: real, a2: real, b1: real, b2: real)
    requires 0.0 <= a1 <= a2 && 0.0 <= b1 <= b2
    ensures 0.0 <= a1 * b1 <= a2 * b2
  {
    MulMonotone(a1, 0.0, b1);
    MulMonotone(a1, b1, b2);
    MulMonotone(b2, a1, a2);
  }

  lemma MulStrict(y: real, a: real, b: real)
    requires y > 0.0 && a < b
    ensures y * a < y * b
  {
  }

  lemma SquareNonNegative(x: real)
    ensures x * x >= 0.0
  {
    if x < 0.0 {
      MulStrict(-x, 0.0, -x);
    } else {
      MulMonotone(x, 0.0, x);
    }
  }

  lemma DivNonNegative(a: real, b: real)
    requires a >= 0.0 && b > 0.0
    ensures a / b >= 0.0
  {
  }

  lemma ZeroProduct(z: real, x: real)
    requires z != 0.0 && z * x == 0.0
    ensures x == 0.0
  {
    assert x == (z * x) / z;
  }

  lemma DivSign(a: real, m: real)
    requires m != 0.0
    ensures a >= 0.0 && m > 0.0 ==> a / m >= 0.0
    ensures a >= 0.0 && m < 0.0 ==> a / m <= 0.0
    ensures a <= 0.0 && m < 0.0 ==> a / m >= 0.0
  {
  }

  /** Dividing a non-negative number twice by the same divisor keeps it non-negative. */
  lemma DivTwiceNonNegative(v: real, m: real)
    requires v >= 0.0 && m != 0.0
    ensures (v / m) / m >= 0.0
  {
    DivSign(v, m);
    DivSign(v / m, m);
  }

  lemma SquareQuotientCore(s: real, m: real, q: real, w: real)
    requires m != 0.0 && q * m == s && (w * m) * m == s * s
    ensures q * q == w
  {
    assert ((q * q - w) * m) * m == (q * m) * (q * m) - (w * m) * m;
    ZeroProduct(m, (q * q - w) * m);
    ZeroProduct(m, q * q - w);
  }

  /** If s is a square root of x, then (s / m)^2 is x divided twice by m. */
  lemma SquareOfQuotient(s: real, x: real, m: real)
    requires m != 0.0 && s * s == x
    ensures (s / m) * (s / m) == (x / m) / m
  {
    var w := (x / m) / m;
    assert w * m == x / m;
    assert (w * m) * m == x;
    SquareQuotientCore(s, m, s / m, w);
  }

  /** A total between n * lo and n * hi has its average between lo and hi. */
  lemma AverageBetween(total: real, n: real, lo: real, hi: real)
    requires n > 0.0 && lo * n <= total <= hi * n
    ensures lo <= total / n <= hi
  {
    DivMul(total, n);
    if total / n < lo {
      MulStrict(n, total / n, lo);
    }
    if total / n > hi {
      MulStrict(n, hi, total / n);
    }
  }

  /** The square of a number; squared distances are compared instead of distances. */
  function Sq(a: real): (r: real)
    ensures r >= 0.0
  {
    SquareNonNegative(a);
    a * a
  }

  /**
   * The shortest signed offset from `from` to `to` along a wrapping axis of
   * the given length: at most one length is added or taken away.
   */
  function TorusDelta(from: real, to: real, size: real): (r: real)
    ensures r == to - from || r == to - from - size || r == to - from + size
    ensures (0.0 <= from < size && 0.0 <= to < size) ==> -size / 2.0 <= r <= size / 2.0
    ensures -size / 2.0 <= to - from <= size / 2.0 ==> r == to - from
  {
    var d := to - from;
    if d > size / 2.0 then d - size
    else if d < -size / 2.0 then d + size
    else d
  }

  /** Going back is the same offset reversed, on either side of the half-way point. */
  lemma TorusDeltaAntisymmetric(a: real, b: real, size: real)
    requires size >= 0.0
    ensures TorusDelta(b, a, size) == -TorusDelta(a, b, size)
  {
    var d := b - a;
    assert a - b == -d;
    if d > size / 2.0 {
      assert -d < -size / 2.0;
    } else if d < -size / 2.0 {
      assert -d > size / 2.0;
    }
  }

  /** Dividing by a positive number keeps the order. */
  lemma DivMonotone(a: real, b: real, y: real)
    requires y > 0.0 && a <= b
    ensures a / y <= b / y
  {
    assert (b - a) / y >= 0.0;
    assert (b - a) / y == b / y - a / y;
  }

  lemma DivBelowOne(t: real, y: real)
    requires y > 0.0 && t < y
    ensures t / y < 1.0
  {
  }

  lemma FloorLower(t: real, y: real, k: real)
    requires y > 0.0 && k <= t / y
    ensures y * k <= t
  {
    MulMonotone(y, k, t / y);
  }

  lemma FloorUpper(t: real, y: real, k: real)
    requires y > 0.0 && t / y < k + 1.0
    ensures t < y * k + y
  {
    MulStrict(y, t / y, k + 1.0);
  }

  lemma FloorRemCore(t: real, y: real, k: real)
    requires y > 0.0 && k <= t / y < k + 1.0
    ensures 0.0 <= t - y * k < y
  {
    FloorLower(t, y, k);
    FloorUpper(t, y, k);
  }

  lemma FloorOfSmall(t: real, y: real)
    requires y > 0.0 && 0.0 <= t < y
    ensures (t / y).Floor == 0
  {
    DivBelowOne(t, y);
    DivSign(t, y);
  }

  /** The remainder of t by a positive y, taken over the whole turns that fit. */
  function FloorRem(t: real, y: real): (r: real)
    requires t >= 0.0 && y > 0.0
    ensures 0.0 <= r < y
    ensures t < y ==> r == t
  {
    FloorRemCore(t, y, (t / y).Floor as real);
    if t < y then FloorOfSmall(t, y); t
    else t - y * (t / y).Floor as real
  }

  /** math.Mod(x, y): x - y * trunc(x / y), signed like x. */
  function FMod(x: real, y: real): (r: real)
    requires y != 0.0
    ensures x >= 0.0 ==> 0.0 <= r < Abs(y)
    ensures -Abs(y) < x < 0.0 ==> r == x
    ensures x < 0.0 ==> -Abs(y) < r <= 0.0
    ensures 0.0 <= x < Abs(y) ==> r == x
  {
    if x >= 0.0 then FloorRem(x, Abs(y)) else -FloorRem(-x, Abs(y))
  }

  /** k whole turns, as an angle. */
  function Turns(k: int): (r: real)
    ensures k >= 0 <==> r >= 0.0
  {
    k as real * TwoPi
  }

  /** One more turn is 2π more. */
  lemma TurnsStep(k: int)
    ensures Turns(k + 1) == Turns(k) + TwoPi
    ensures Turns(k - 1) == Turns(k) - TwoPi
  {
  }

  /** A whole turn more moves the turn count up by exactly one. */
  lemma TurnShift(a: real)
    ensures ((a + TwoPi) / TwoPi).Floor == (a / TwoPi).Floor + 1
    ensures ((a - TwoPi) / TwoPi).Floor == (a / TwoPi).Floor - 1
  {
    assert (a + TwoPi) / TwoPi == a / TwoPi + 1.0;
    assert (a - TwoPi) / TwoPi == a / TwoPi - 1.0;
  }

  /** The first loop of normalizeAngle: take whole turns off while above π. */
  function WrapDown(a: real): (r: real)
    ensures r <= Pi
    ensures a > -Pi ==> r > -Pi
    ensures a <= Pi ==> r == a
    decreases (a / TwoPi).Floor
  {
    if a > Pi then WrapDown(a - TwoPi) else a
  }

  /** The second loop of normalizeAngle: add whole turns while below -π. */
  function WrapUp(a: real): (r: real)
    ensures r >= -Pi
    ensures a <= Pi ==> r <= Pi
    ensures a >= -Pi ==> r == a
    decreases -(a / TwoPi).Floor
  {
    if a < -Pi then WrapUp(a + TwoPi) else a
  }

  /** normalizeAngle as a function: both loops in turn. */
  function AngleWrap(a: real): (r: real)
    ensures -Pi <= r <= Pi
    ensures -Pi <= a <= Pi ==> r == a
  {
    WrapUp(WrapDown(a))
  }

  /** A whole turn more wraps to the same angle, except that -π comes back as π. */
  lemma AngleWrapPeriodic(a: real)
    ensures AngleWrap(a + TwoPi) == AngleWrap(a) || (AngleWrap(a) == -Pi && AngleWrap(a + TwoPi) == Pi)
    ensures Abs(AngleWrap(a + TwoPi)) == Abs(AngleWrap(a))
  {
    if a > -Pi {
      assert a + TwoPi - TwoPi == a;
      assert WrapDown(a + TwoPi) == WrapDown(a);
    } else if a < -Pi {
      assert WrapDown(a) == a;
      assert WrapUp(a) == WrapUp(a + TwoPi);
    }
  }

  /**
   * normalizeAngle: subtract 2π while above π, then add 2π while below -π.
   * The result is within [-π, π] and differs from the input by a whole
   * number of turns.
   */
  method NormalizeAngle(angle: real) returns (r: real, ghost turns: int)
    ensures -Pi <= r <= Pi
    ensures r == angle + Turns(turns)
    ensures -Pi <= angle <= Pi ==> r == angle
    ensures r == AngleWrap(angle)
  {
    r := angle;
    turns := 0;
    while r > Pi
      invariant r == angle + Turns(turns)
      invariant WrapDown(r) == WrapDown(angle)
      decreases (r / TwoPi).Floor
    {
      TurnShift(r);
      TurnsStep(turns);
      r := r - TwoPi;
      turns := turns - 1;
    }
    while r < -Pi
      invariant r == angle + Turns(turns)
      invariant WrapUp(r) == AngleWrap(angle)
      decreases -(r / TwoPi).Floor
    {
      TurnShift(r);
      TurnsStep(turns);
      r := r + TwoPi;
      turns := turns + 1;
    }
  }

  /**
   * normalizeHeading: add 2π while negative, then subtract 2π while at or
   * above 2π. The result is within [0, 2π).
   */
  method NormalizeHeading(h: real) returns (r: real, ghost turns: int)
    ensures 0.0 <= r < TwoPi
    ensures r == h + Turns(turns)
    ensures 0.0 <= h < TwoPi ==> r == h
  {
    r := h;
    turns := 0;
    while r < 0.0
      invariant r == h + Turns(turns)
      invariant h >= 0.0 ==> r == h
      decreases -(r / TwoPi).Floor
    {
      TurnShift(r);
      TurnsStep(turns);
      r := r + TwoPi;
      turns := turns + 1;
    }
    while r >= TwoPi
      invariant r == h + Turns(turns)
      invariant 0.0 <= h < TwoPi ==> r == h
      invariant r >= 0.0
      decreases (r / TwoPi).Floor
    {
      TurnShift(r);
      TurnsStep(turns);
      r := r - TwoPi;
      turns := turns - 1;
    }
  }

  /** Sum of a sequence of reals, folded from the front. */
  function Sum(s: seq<real>): real
  {
    if |s| == 0 then 0.0 else s[0] + Sum(s[1..])
  }

  lemma {:induction false} SumAppend(a: seq<real>, b: seq<real>)
    ensures Sum(a + b) == Sum(a) + Sum(b)
  {
    if |a| == 0 {
      assert a + b == b;
    } else {
      assert (a + b)[1..] == a[1..] + b;
      SumAppend(a[1..], b);
    }
  }

  lemma SumSnoc(s: seq<real>, x: real)
    ensures Sum(s + [x]) == Sum(s) + x
  {
    SumAppend(s, [x]);
    assert Sum([x]) == x + Sum([]);
  }

  /** Replacing one element changes the sum by exactly the difference. */
  lemma {:induction false} SumUpdate(s: seq<real>, i: int, v: real)
    requires 0 <= i < |s|
    ensures Sum(s[i := v]) == Sum(s) - s[i] + v
  {
    if i == 0 {
      assert s[i := v][1..] == s[1..];
    } else {
      assert s[i := v][1..] == s[1..][i - 1 := v];
      SumUpdate(s[1..], i - 1, v);
    }
  }

  lemma {:induction false} SumBounds(s: seq<real>, lo: real, hi: real)
    requires forall i :: 0 <= i < |s| ==> lo <= s[i] <= hi
    ensures lo * |s| as real <= Sum(s) <= hi * |s| as real
  {
    if |s| > 0 {
      SumBounds(s[1..], lo, hi);
    }
  }

  lemma {:induction false} SumNonNegative(s: seq<real>)
    requires forall i :: 0 <= i < |s| ==> s[i] >= 0.0
    ensures Sum(s) >= 0.0
  {
    if |s| > 0 {
      SumNonNegative(s[1..]);
    }
  }

  /** The smallest value of a non-empty series (pandas min). */
  function MinOf(s: seq<real>): (r: real)
    requires |s| > 0
    ensures forall i :: 0 <= i < |s| ==> r <= s[i]
    ensures exists i :: 0 <= i < |s| && r == s[i]
  {
    if |s| == 1 then s[0]
    else
      var m := MinOf(s[..|s| - 1]);
      assert forall i :: 0 <= i < |s| - 1 ==> s[..|s| - 1][i] == s[i];
      Min(m, s[|s| - 1])
  }

  /** The largest value of a non-empty series (pandas max). */
  function MaxOf(s: seq<real>): (r: real)
    requires |s| > 0
    ensures forall i :: 0 <= i < |s| ==> s[i] <= r
    ensures exists i :: 0 <= i < |s| && r == s[i]
  {
    if |s| == 1 then s[0]
    else
      var m := MaxOf(s[..|s| - 1]);
      assert forall i :: 0 <= i < |s| - 1 ==> s[..|s| - 1][i] == s[i];
      Max(m, s[|s| - 1])
  }

  /** The average of a non-empty series lies between any bounds of its values. */
  lemma AverageWithin(s: seq<real>, lo: real, hi: real)
    requires |s| > 0 && forall i :: 0 <= i < |s| ==> lo <= s[i] <= hi
    ensures lo <= Sum(s) / |s| as real <= hi
  {
    SumBounds(s, lo, hi);
    AverageBetween(Sum(s), |s| as real, lo, hi);
  }

  /** The arithmetic mean of a non-empty series. */
  function Mean(s: seq<real>): (r: real)
    requires |s| > 0
    ensures MinOf(s) <= r <= MaxOf(s)
  {
    AverageWithin(s, MinOf(s), MaxOf(s));
    Sum(s) / |s| as real
  }

  /** The sum of squared deviations from the mean. */
  function SqDev(s: seq<real>, m: real): (r: real)
    ensures r >= 0.0
  {
    if |s| == 0 then 0.0
    else
      SquareNonNegative(s[0] - m);
      (s[0] - m) * (s[0] - m) + SqDev(s[1..], m)
  }

  /** The population variance of a non-empty series: mean squared deviation. */
  function PopVariance(values: seq<real>): (v: real)
    requires |values| > 0
    ensures v >= 0.0
  {
    DivNonNegative(SqDev(values, Mean(values)), |values| as real);
    SqDev(values, Mean(values)) / |values| as real
  }

  // Integer multiplication and Euclidean remainder

  lemma MulAtLeast(k: int, n: int)
    requires k >= 1 && n > 0
    ensures k * n >= n
    decreases k
  {
    if k > 1 {
      MulAtLeast(k - 1, n);
      assert k * n == (k - 1) * n + n;
    }
  }

  lemma MulSmallIsZero(k: int, n: int)
    requires n > 0 && -n < k * n < n
    ensures k == 0
  {
    if k >= 1 {
      MulAtLeast(k, n);
    } else if k <= -1 {
      MulAtLeast(-k, n);
    }
  }

  /** The remainder is the r of any decomposition a == q * n + r with 0 <= r < n. */
  lemma ModUnique(a: int, n: int, q: int, r: int)
    requires n > 0 && 0 <= r < n && a == q * n + r
    ensures a % n == r && a / n == q
  {
    var q0 := a / n;
    var r0 := a % n;
    assert a == q0 * n + r0;
    assert (q - q0) * n == r0 - r;
    MulSmallIsZero(q - q0, n);
  }

  /** Advancing a counter modulo n: the step from n - 1 wraps to 0. */
  lemma ModSucc(a: int, n: int)
    requires a >= 0 && n > 0
    ensures (a % n + 1) % n == (a + 1) % n
    ensures (a + 1) % n == 0 <==> a % n == n - 1
  {
    var q := a / n;
    var r := a % n;
    assert a == q * n + r;
    if r + 1 < n {
      ModUnique(a + 1, n, q, r + 1);
      ModUnique(r + 1, n, 0, r + 1);
    } else {
      ModUnique(a + 1, n, q + 1, 0);
      ModUnique(r + 1, n, 1, 0);
    }
  }

  /** Fewer than n consecutive integers have distinct remainders. */
  lemma ModDistinct(i: int, j: int, n: int)
    requires 0 <= i < j < i + n && n > 0
    ensures i % n != j % n
  {
    var qi := i / n;
    var qj := j / n;
    assert i == qi * n + i % n;
    assert j == qj * n + j % n;
    if i % n == j % n {
      assert (qj - qi) * n == j - i;
      MulSmallIsZero(qj - qi, n);
    }
  }

  /**
   * A ring buffer h holding the tail of log (entry j in slot j mod |h|)
   * still holds it after the next entry is written at slot |log| mod |h|.
   */
  lemma RingSlots<T>(h: seq<T>, log: seq<T>, x: T)
    requires |h| > 0
    requires forall j :: 0 <= j < |log| && |log| - |h| <= j ==> h[j % |h|] == log[j]
    ensures forall j :: 0 <= j < |log| + 1 && |log| + 1 - |h| <= j ==>
      h[|log| % |h| := x][j % |h|] == (log + [x])[j]
  {
    var size := |h|;
    var h2 := h[|log| % size := x];
    forall j | 0 <= j < |log| + 1 && |log| + 1 - size <= j
      ensures h2[j % size] == (log + [x])[j]
    {
      if j < |log| {
        ModDistinct(j, |log|, size);
      }
    }
  }

  lemma MulLe(a: int, b: int, n: int)
    requires a <= b && n >= 0
    ensures a * n <= b * n
  {
    assert b * n - a * n == (b - a) * n;
  }

  /** Go's integer a / n for a positive divisor: truncation toward zero. */
  function GoDiv(a: int, n: int): (r: int)
    requires n > 0
    ensures a >= 0 ==> r * n <= a < (r + 1) * n
    ensures a < 0 ==> (r - 1) * n < a <= r * n
  {
    if a >= 0 then a / n else -((-a) / n)
  }

  /** A total between n * lo and n * hi has its truncated average between lo and hi. */
  lemma GoDivBetween(total: int, n: int, lo: int, hi: int)
    requires n > 0 && lo * n <= total <= hi * n
    ensures lo <= GoDiv(total, n) <= hi
  {
    var q := GoDiv(total, n);
    if q < lo {
      MulLe(q + 1, lo, n);
    }
    if q > hi {
      MulLe(hi + 1, q, n);
    }
  }
}
