/** JavaScript number operations used by the stripe renderer, over exact reals.
    Finite JavaScript numbers are modelled as `real`; the operations that can
    leave the finite numbers (division and remainder by zero) return a `Num`. */
module JsNumber {

  /** `Math.PI`. */
  const Pi: real := 3.141592653589793

  lemma PiPositive()
    ensures Pi > 0.0 && Pi / 4.0 > 0.0
  {
  }

  /** `Math.trunc`: the integer part of `x`, rounding toward zero. */
  function Trunc(x: real): (t: int)
    ensures x >= 0.0 ==> t as real <= x < t as real + 1.0
    ensures x <= 0.0 ==> t as real - 1.0 < x <= t as real
  {
    if x >= 0.0 then x.Floor else -((-x).Floor)
  }

  /** The `%` operator of JavaScript on finite numbers with a non-zero divisor:
      the remainder of a division truncated toward zero, so the result takes
      the sign of the dividend (unlike Dafny's Euclidean `%`). */
  function Rem(x: real, y: real): (r: real)
    requires y != 0.0
    ensures y > 0.0 ==> -y < r < y
    ensures y > 0.0 && x >= 0.0 ==> r >= 0.0
    ensures y > 0.0 && x <= 0.0 ==> r <= 0.0
  {
    TruncatedRemainderBounds(x, y);
    x - y * (Trunc(x / y) as real)
  }

  /** A JavaScript number that is either finite or one of NaN, Infinity, -Infinity. */
  datatype Num = Finite(value: real) | NonFinite

  /** `x / y`: division by zero gives NaN or an infinity. */
  function Quotient(x: real, y: real): (q: Num)
    ensures q.Finite? <==> y != 0.0
    ensures q.Finite? ==> q.value * y == x
  {
    if y == 0.0 then NonFinite else Finite(x / y)
  }

  /** `x % y`: a zero divisor gives NaN. */
  function Remainder(x: real, y: real): (r: Num)
    ensures r.Finite? <==> y != 0.0
  {
    if y == 0.0 then NonFinite else Finite(Rem(x, y))
  }

  /** `n * y`. */
  function Times(n: Num, y: real): (r: Num)
    ensures r.Finite? <==> n.Finite?
  {
    match n
    case Finite(v) => Finite(v * y)
    case NonFinite => NonFinite
  }

  /** Unary `-n`. */
  function Negate(n: Num): (r: Num)
    ensures r.Finite? <==> n.Finite?
    ensures r.Finite? ==> r.value + n.value == 0.0
  {
    match n
    case Finite(v) => Finite(-v)
    case NonFinite => NonFinite
  }

  /** `Math.abs(n)`. */
  function Abs(n: Num): (r: Num)
    ensures r.Finite? <==> n.Finite?
    ensures r.Finite? ==> r.value >= 0.0 && (r.value == n.value || r.value == -n.value)
  {
    match n
    case Finite(v) => Finite(if v < 0.0 then -v else v)
    case NonFinite => NonFinite
  }

  /** Multiplying by a positive number keeps the sign. */
  lemma MulPositive(a: real, y: real)
    requires y > 0.0
    ensures a < 0.0 <==> a * y < 0.0
    ensures a > 0.0 <==> a * y > 0.0
  {
    if a < 0.0 {
      assert a * y < 0.0 * y;
    } else if a > 0.0 {
      assert a * y > 0.0 * y;
    }
  }

  /** Dividing by a positive number keeps the sign and the order relative to ±1. */
  lemma DivPositive(x: real, y: real)
    requires y > 0.0
    ensures x >= 0.0 <==> x / y >= 0.0
    ensures x <= 0.0 <==> x / y <= 0.0
    ensures x < y <==> x / y < 1.0
    ensures -y < x <==> -1.0 < x / y
  {
    var q := x / y;
    assert q * y == x;
    MulPositive(q, y);
    var below := q - 1.0;
    assert below * y == x - y;
    MulPositive(below, y);
    var above := q + 1.0;
    assert above * y == x + y;
    MulPositive(above, y);
  }

  /** The bounds and sign of the truncated remainder, stated on its formula. */
  lemma TruncatedRemainderBounds(x: real, y: real)
    requires y != 0.0
    ensures var r := x - y * (Trunc(x / y) as real);
            y > 0.0 ==> -y < r < y && (x >= 0.0 ==> r >= 0.0) && (x <= 0.0 ==> r <= 0.0)
  {
    if y > 0.0 {
      var q := x / y;
      var d := q - Trunc(q) as real;
      assert x - y * (Trunc(q) as real) == y * d;
      DivPositive(x, y);
      DivPositive(y * d, y);
      assert (y * d) / y == d;
    }
  }

  /** A value already strictly between `-y` and `y` is its own remainder, so
      taking the remainder twice changes nothing. */
  lemma RemOfSmall(x: real, y: real)
    requires y > 0.0 && -y < x < y
    ensures Rem(x, y) == x
  {
    DivPositive(x, y);
    assert Trunc(x / y) == 0;
  }

  /** Removing a whole multiple `c` of the divisor does not change the
      remainder as long as the dividend keeps its sign. */
  lemma RemShift(x: real, y: real, c: int)
    requires y > 0.0
    requires (x >= 0.0 && x - (c as real) * y >= 0.0) || (x <= 0.0 && x - (c as real) * y <= 0.0)
    ensures Rem(x - (c as real) * y, y) == Rem(x, y)
  {
    var x' := x - (c as real) * y;
    QuotientShift(x, y, c);
    DivPositive(x, y);
    DivPositive(x', y);
    TruncShift(x / y, c);
    var t := Trunc(x / y);
    assert Trunc(x' / y) == t - c;
    ShiftedProduct(x, y, t, c);
  }

  /** Subtracting `c` divisors from the dividend subtracts `c` from the quotient. */
  lemma QuotientShift(x: real, y: real, c: int)
    requires y > 0.0
    ensures (x - (c as real) * y) / y == x / y - c as real
  {
    var q := x / y;
    assert x - (c as real) * y == (q - c as real) * y;
    DivOfProduct(q - c as real, y);
  }

  /** The arithmetic identity that closes `RemShift`. */
  lemma ShiftedProduct(x: real, y: real, t: int, c: int)
    ensures (x - (c as real) * y) - y * ((t - c) as real) == x - y * (t as real)
  {
  }

  /** Division undoes multiplication. */
  lemma DivOfProduct(a: real, y: real)
    requires y != 0.0
    ensures (a * y) / y == a
  {
  }

  /** Subtracting a whole number that keeps the sign shifts the truncation by that number. */
  lemma TruncShift(q: real, c: int)
    requires (q >= 0.0 && q - c as real >= 0.0) || (q <= 0.0 && q - c as real <= 0.0)
    ensures Trunc(q - c as real) == Trunc(q) - c
  {
    if q >= 0.0 && q - c as real >= 0.0 {
      assert (q - c as real).Floor == q.Floor - c;
    } else {
      assert (-(q - c as real)).Floor == (-q).Floor + c;
    }
  }

  /** Scaling dividend and divisor by the same positive factor scales the remainder. */
  lemma RemScale(x: real, y: real, k: real)
    requires y != 0.0 && k > 0.0
    ensures Rem(x * k, y * k) == Rem(x, y) * k
  {
    QuotientScale(x, y, k);
    ScaledProduct(x, y, k, Trunc(x / y) as real);
  }

  /** Scaling dividend and divisor alike leaves the quotient alone. */
  lemma QuotientScale(x: real, y: real, k: real)
    requires y != 0.0 && k > 0.0
    ensures (x * k) / (y * k) == x / y
  {
    var q := x / y;
    assert x * k == q * (y * k);
    DivOfProduct(q, y * k);
  }

  /** The arithmetic identity that closes `RemScale`. */
  lemma ScaledProduct(x: real, y: real, k: real, t: real)
    ensures x * k - (y * k) * t == (x - y * t) * k
  {
  }
}
