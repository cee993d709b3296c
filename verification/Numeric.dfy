/** Arithmetic shared by the models: Python's clamp idiom, half-to-even rounding, and
    floats that may fail `math.isfinite`. */
module Numeric {

  datatype Option<+T> = None | Some(value: T)

  /** A float of which the program asks only whether it is finite. */
  datatype Float = Finite(value: real) | NonFinite

  const NANOS := 1_000_000_000
  const EPSILON := 0.000001

  function Abs(x: real): real {
    if x < 0.0 then -x else x
  }

  predicate Near(x: real, y: real, tolerance: real) {
    y - tolerance <= x <= y + tolerance
  }

  function Min(x: real, y: real): real {
    if x <= y then x else y
  }

  function Max(x: real, y: real): real {
    if x >= y then x else y
  }

  function MaxInt(x: int, y: int): int {
    if x >= y then x else y
  }

  function Clamp(value: real, low: real, high: real): real {
    Max(low, Min(high, value))
  }

  function ClampInt(value: int, low: int, high: int): int {
    if value > high then high else if value < low then low else value
  }

  /** Python's `round`: to the nearest integer, ties to the even one. */
  function Round(x: real): int {
    var f := x.Floor;
    var rest := x - f as real;
    if rest < 0.5 || (rest == 0.5 && f % 2 == 0) then f else f + 1
  }

  lemma RoundNearest(x: real)
    ensures Round(x) as real - 0.5 <= x <= Round(x) as real + 0.5
  {
  }

  lemma RoundExact(n: int)
    ensures Round(n as real) == n
  {
  }

  lemma RoundMonotone(x: real, y: real)
    requires x <= y
    ensures Round(x) <= Round(y)
  {
  }

  /** Ties to even makes rounding odd; rounding half up would break it at every tie. */
  lemma RoundOdd(x: real)
    ensures Round(-x) == -Round(x)
  {
    var f := x.Floor;
    if x == f as real {
      assert (-x).Floor == -f;
    } else {
      assert (-x).Floor == -f - 1;
    }
  }

  lemma MulNonneg(x: real, y: real)
    requires 0.0 <= x && 0.0 <= y
    ensures 0.0 <= x * y
  {
  }

  lemma MulMonotone(x: real, y: real, k: real)
    requires x <= y && 0.0 <= k
    ensures x * k <= y * k
  {
    MulNonneg(y - x, k);
  }

  lemma FractionInUnit(x: real, y: real)
    requires 0.0 < x <= y
    ensures 0.0 < x / y <= 1.0 && x / y * y == x
  {
    var q := x / y;
    assert q * y == x;
    if q > 1.0 {
      MulMonotone(0.0, q - 1.0, y);
      assert (q - 1.0) * y > 0.0;
    }
  }

  lemma MulDifference(x: real, y: real, k: real)
    ensures (x - y) * k == x * k - y * k
  {
  }

  lemma MulStrict(x: real, y: real, k: real)
    requires x < y && 0.0 < k
    ensures x * k < y * k
  {
    assert (y - x) * k > 0.0;
  }

  lemma MulCancel(x: real, y: real, k: real)
    requires x * k <= y * k && 0.0 < k
    ensures x <= y
  {
    if y < x {
      MulStrict(y, x, k);
    }
  }

  /** How many whole steps fit. */
  function WholeSteps(span: real, step: real): int
    requires 0.0 < step
  {
    (span / step).Floor
  }

  lemma StepsFit(n: int, step: real, span: real)
    requires 0.0 < step && n as real * step <= span
    ensures n <= WholeSteps(span, step)
  {
    var q := span / step;
    assert q * step == span;
    MulCancel(n as real, q, step);
  }

  lemma QuotientTimes(x: real, y: real)
    requires y != 0.0
    ensures x / y * y == x
  {
  }

  lemma QuotientUnique(x: real, y: real, q: real)
    requires y != 0.0 && y * q == x
    ensures x / y == q
  {
  }
}
