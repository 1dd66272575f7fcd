/**
 * The 16-bit fixed-point arctangent. Angles are in units of 1/65536 turn. The subset types of the results make
 * the verifier prove that no intermediate value leaves 16 bits and that no divisor is zero.
 */
module Atan2 {
  import opened Words

  type Int16 = i: int | -0x8000 <= i < 0x8000

  const ONE := 0x8000

  /** `0.273 / pi` and `0.25 + 0.273 / pi` in Q15, rounded to nearest. */
  const BEND: Int16 := 2847
  const SLOPE: Int16 := 11039

  function Abs(i: int): nat {
    if i < 0 then -i else i
  }

  /** Negative absolute value: defined for the most negative integer too. */
  function Nabs(i: Int16): Int16 {
    if i < 0 then i else -i
  }

  /** C division: the quotient is truncated towards zero. */
  function TruncDiv(n: int, d: int): int
    requires d != 0
  {
    if (n < 0) == (d < 0) then Abs(n) / Abs(d) else -(Abs(n) / Abs(d))
  }

  /** Q15 multiplication, rounding to nearest and halves down; the shift is arithmetic. */
  function MulQ15(j: int, k: int): int {
    var product := j * k;
    (product + if product % ONE == 0x4000 then 0 else 0x4000) / ONE
  }

  lemma DivUnique(a: nat, d: nat, q: nat)
    requires d > 0 && q * d <= a < (q + 1) * d
    ensures a / d == q
  {
    var r := a / d;
    assert a == r * d + a % d;
    assert r > q ==> r * d >= (q + 1) * d;
    assert r < q ==> (r + 1) * d <= q * d;
    assert (r + 1) * d == r * d + d;
  }

  lemma DivBelow(a: nat, d: nat, q: nat)
    requires d > 0 && a < q * d
    ensures a / d < q
  {
  }

  lemma DivNonNegative(a: nat, d: nat)
    requires d > 0
    ensures a / d >= 0
  {
  }

  lemma RatioRange(n: Int16, d: Int16)
    requires Abs(n) < Abs(d) || (n + d == 0 && d != 0)
    ensures var t := TruncDiv(n * ONE, d);
            && (n + d == 0 && d != 0 ==> t == -ONE)
            && (Abs(n) < Abs(d) ==> Abs(t) < ONE)
            && ((n < 0) == (d < 0) ==> t >= 0)
            && ((n < 0) != (d < 0) ==> t <= 0)
  {
    assert Abs(n * ONE) == Abs(n) * ONE;
    if Abs(n) < Abs(d) {
      DivBelow(Abs(n) * ONE, Abs(d), ONE);
    } else {
      DivUnique(Abs(n) * ONE, Abs(d), ONE);
    }
    hide Abs;
    DivNonNegative(Abs(n) * ONE, Abs(d));
  }

  /** The quotient of the smaller by the larger coordinate. */
  function Ratio(n: Int16, d: Int16): (t: Int16)
    requires Abs(n) < Abs(d) || (n + d == 0 && d != 0)
    ensures n + d == 0 && d != 0 ==> t == -ONE
    ensures Abs(n) < Abs(d) ==> Abs(t) < ONE
    ensures (n < 0) == (d < 0) ==> t >= 0
    ensures (n < 0) != (d < 0) ==> t <= 0
  {
    RatioRange(n, d);
    TruncDiv(n * ONE, d)
  }

  lemma MulRounds(j: int, k: int)
    ensures -0x4000 <= 0x8000 * MulQ15(j, k) - j * k < 0x4000
  {
  }

  /** The correction term: minus the bend times |t|, to the nearest unit. */
  lemma CorrectionRange(t: Int16)
    ensures var c := MulQ15(BEND, Nabs(t));
            && -BEND <= c <= 0
            && -0x4000 <= ONE * c + BEND * Abs(t) <= 0x4000
  {
  }

  /** The product stays below 8192.5, since the polynomial increases up to |t| = 1. */
  lemma ProductBound(a: nat, c: int)
    requires a <= ONE && -BEND <= c && ONE * c + BEND * a <= 0x4000
    ensures (SLOPE + c) * a < 8192 * ONE + 0x4000
  {
    if a < ONE {
      var k := SLOPE * ONE + 0x4000;
      assert ONE * (SLOPE + c) <= k - BEND * a;
      assert ONE * ((SLOPE + c) * a) == (ONE * (SLOPE + c)) * a <= (k - BEND * a) * a;
      assert (k - BEND * ONE) * ONE - (k - BEND * a) * a == (ONE - a) * (k - BEND * (ONE + a));
      assert k - BEND * (ONE + a) > 0;
      assert (ONE - a) * (k - BEND * (ONE + a)) > 0;
    }
  }

  lemma MulRange(j: int, k: int)
    ensures 0 <= j * k < 8192 * ONE + 0x4000 ==> 0 <= MulQ15(j, k) <= 8192
    ensures -(8192 * ONE + 0x4000) < j * k <= 0 ==> -8192 <= MulQ15(j, k) <= 0
  {
  }

  lemma SignedProduct(s: nat, t: Int16)
    ensures t >= 0 ==> s * t == s * Abs(t) >= 0
    ensures t <= 0 ==> s * t == -(s * Abs(t)) <= 0
  {
  }

  lemma UnrotatedRange(t: Int16)
    ensures var slope := SLOPE + MulQ15(BEND, Nabs(t));
            && 8192 <= slope <= SLOPE
            && (t >= 0 ==> 0 <= MulQ15(slope, t) <= 8192)
            && (t <= 0 ==> -8192 <= MulQ15(slope, t) <= 0)
  {
    hide MulQ15;
    CorrectionRange(t);
    var c := MulQ15(BEND, Nabs(t));
    ProductBound(Abs(t), c);
    SignedProduct(SLOPE + c, t);
    MulRange(SLOPE + c, t);
  }

  /** The angle within the octant, before it is rotated into place. */
  function Unrotated(t: Int16): (u: Int16)
    ensures t >= 0 ==> 0 <= u <= 8192
    ensures t <= 0 ==> -8192 <= u <= 0
  {
    UnrotatedRange(t);
    var correction: Int16 := MulQ15(BEND, Nabs(t));
    var slope: Int16 := SLOPE + correction;
    MulQ15(slope, t)
  }

  /** The angle before it is reduced to 16 bits. */
  function SignedAngle(y: Int16, x: Int16): int {
    if x == y then
      if y > 0 then 8192 else if y < 0 then 40960 else 0
    else if Nabs(x) < Nabs(y) then
      var u := Unrotated(Ratio(y, x));
      if x > 0 then u else 32768 + u
    else
      var u := Unrotated(Ratio(x, y));
      if y > 0 then 16384 - u else 49152 - u
  }

  function Atan2(y: Int16, x: Int16): Word {
    SignedAngle(y, x) % 0x1_0000
  }

  /** The octant of (x, y), counted from 0 anticlockwise from the positive x-axis, boundaries in either. */
  ghost predicate InOctant(y: int, x: int, octant: nat) {
    match octant
    case 0 => 0 <= y <= x
    case 1 => 0 <= x <= y
    case 2 => 0 <= -x <= y
    case 3 => 0 <= y <= -x
    case 4 => 0 <= -y <= -x
    case 5 => 0 <= -x <= -y
    case 6 => 0 <= x <= -y
    case 7 => 0 <= -y <= x
    case _ => false
  }

  /** The eighth of a turn on the side of the nearest axis that the sign of the ratio tells. */
  predicate InRange(y: int, x: int, a: int) {
    if Abs(y) < Abs(x) then
      var base := if x > 0 then 0 else 32768;
      if (y < 0) == (x < 0) then base <= a <= base + 8192 else base - 8192 <= a <= base
    else
      var base := if y > 0 then 16384 else 49152;
      if (x < 0) == (y < 0) then base - 8192 <= a <= base else base <= a <= base + 8192
  }

  lemma SignedAngleRange(y: Int16, x: Int16)
    requires x != y
    ensures InRange(y, x, SignedAngle(y, x))
  {
  }

  lemma RangeInOctant(y: int, x: int, octant: nat, a: int)
    requires InOctant(y, x, octant) && InRange(y, x, a) && x != 0 && y != 0 && Abs(x) != Abs(y)
    ensures 8192 * octant <= a % 0x1_0000 <= 8192 * (octant + 1) || (octant == 7 && a % 0x1_0000 == 0)
  {
  }

  /** A zero coordinate gives exactly the axis. */
  lemma AxisAngle(y: Int16, x: Int16)
    requires (x == 0) != (y == 0)
    ensures Atan2(y, x) == if y == 0 then (if x > 0 then 0 else 32768) else if y > 0 then 16384 else 49152
  {
  }

  /** The zero vector has angle zero; nothing is divided for it. */
  lemma ZeroVector()
    ensures Atan2(0, 0) == 0
  {
  }

  /** The diagonals are exact. */
  lemma DiagonalAngle(y: Int16, x: Int16)
    requires Abs(x) == Abs(y) != 0
    ensures Atan2(y, x) == if y > 0 then (if x > 0 then 8192 else 24576) else if x > 0 then 57344 else 40960
  {
  }

  /** The angle of a vector lies in each octant the vector lies in; a full turn is angle 0. */
  lemma AngleInOctant(y: Int16, x: Int16, octant: nat)
    requires InOctant(y, x, octant) && !(x == 0 && y == 0)
    ensures 8192 * octant <= Atan2(y, x) <= 8192 * (octant + 1) || (octant == 7 && Atan2(y, x) == 0)
  {
    if (x == 0) != (y == 0) {
      hide Atan2;
      AxisAngle(y, x);
    } else if Abs(x) == Abs(y) {
      hide Atan2;
      DiagonalAngle(y, x);
    } else {
      hide SignedAngle, InOctant, InRange;
      SignedAngleRange(y, x);
      RangeInOctant(y, x, octant, SignedAngle(y, x));
    }
  }

  // ---------- scaling ----------

  lemma Distribute(k: nat, q: nat, d: nat, r: nat)
    ensures k * (q * d + r) == q * (k * d) + k * r
    ensures (q + 1) * (k * d) == q * (k * d) + k * d
  {
  }

  lemma DivBySum(a: nat, d: nat, q: nat, r: nat)
    requires r < d && a == q * d + r && (q + 1) * d == q * d + d
    ensures a / d == q
  {
    DivUnique(a, d, q);
  }

  lemma DivScales(a: nat, d: nat, k: nat)
    requires d > 0 && k > 0
    ensures k * d > 0 && (k * a) / (k * d) == a / d
  {
    var q, r := a / d, a % d;
    QuotientAndRest(a, d);
    Distribute(k, q, d, r);
    ScaledOrder(k, r, d);
    ScaledOrder(k, 0, d);
    ScaledOrder(k, -1, r);
    DivBySum(k * a, k * d, q, k * r);
  }

  lemma QuotientAndRest(a: nat, d: nat)
    requires d > 0
    ensures a / d >= 0 && 0 <= a % d < d && a == a / d * d + a % d
  {
    DivNonNegative(a, d);
  }

  lemma ScaledSign(k: nat, a: int)
    requires k > 0
    ensures k * a < 0 <==> a < 0
    ensures k * a == 0 <==> a == 0
    ensures Abs(k * a) == k * Abs(a)
  {
  }

  lemma ScaledOrder(k: nat, a: int, b: int)
    requires k > 0
    ensures k * a < k * b <==> a < b
  {
  }

  lemma ScaledOnes(k: nat, n: int)
    requires k > 0
    ensures Abs(k * n) == k * Abs(n) && Abs(k * n * ONE) == k * (Abs(n) * ONE) && Abs(n * ONE) == Abs(n) * ONE
  {
    ScaledSign(k, n);
  }

  lemma RatioScales(n: Int16, d: Int16, k: nat)
    requires k > 0 && -0x8000 <= k * n < 0x8000 && -0x8000 <= k * d < 0x8000
    requires Abs(n) < Abs(d) || (n + d == 0 && d != 0)
    ensures Abs(k * n) < Abs(k * d) || (k * n + k * d == 0 && k * d != 0)
    ensures Ratio(k * n, k * d) == Ratio(n, d)
  {
    hide Abs;
    AbsZero(n, d);
    ScaledSign(k, n);
    ScaledSign(k, d);
    ScaledOrder(k, Abs(n), Abs(d));
    ScaledOnes(k, n);
    ScaledOnes(k, d);
    DivScales(Abs(n) * ONE, Abs(d), k);
    SumOfScaled(k, n, d);
  }

  lemma AbsZero(n: int, d: int)
    ensures (Abs(d) == 0 <==> d == 0) && (n + d == 0 ==> Abs(n) == Abs(d))
  {
  }

  lemma SumOfScaled(k: nat, n: int, d: int)
    ensures n + d == 0 ==> k * n + k * d == 0
  {
    assert k * (n + d) == k * n + k * d;
  }

  /** The angle depends on the direction only: scaling the vector up changes nothing. */
  lemma AngleOfScaledVector(y: Int16, x: Int16, k: nat)
    requires k > 0 && -0x8000 <= k * y < 0x8000 && -0x8000 <= k * x < 0x8000
    ensures Atan2(k * y, k * x) == Atan2(y, x)
  {
    ScaledSign(k, y);
    ScaledSign(k, x);
    ScaledOrder(k, y, x);
    ScaledOrder(k, x, y);
    ScaledOrder(k, Abs(y), Abs(x));
    ScaledOrder(k, Abs(x), Abs(y));
    if x != y {
      if Abs(y) < Abs(x) {
        RatioScales(y, x, k);
      } else {
        RatioScales(x, y, k);
      }
      hide Ratio, Unrotated;
    }
  }

  // ---------- accuracy ----------

  function AbsReal(r: real): real {
    if r < 0.0 then -r else r
  }

  /** The polynomial the program approximates, on the exact ratio. */
  function Polynomial(t: real): real {
    t * (11039.0 - 2847.0 * AbsReal(t))
  }

  function Quotient(n: int, d: int): real
    requires d != 0
  {
    (n as real) / (d as real)
  }

  /** The base of the octant plus or minus the polynomial of the smaller by the larger coordinate. */
  function IdealAngle(y: Int16, x: Int16): real
    requires !(x == 0 && y == 0)
  {
    if Abs(y) < Abs(x) then
      (if x > 0 then 0.0 else 32768.0) + Polynomial(Quotient(y, x))
    else
      (if y > 0 then 16384.0 else 49152.0) - Polynomial(Quotient(x, y))
  }

  function RealProduct(j: int, k: int): real {
    (j as real) * (k as real) / 32768.0
  }

  /** A Q15 product is within half a unit of the real one. */
  lemma MulError(j: int, k: int)
    ensures AbsReal((MulQ15(j, k) as real) - RealProduct(j, k)) <= 0.5
  {
  }

  lemma RealRatio(n: Int16, d: Int16)
    requires d != 0
    ensures (n as real) / (d as real) == if (n < 0) == (d < 0) then (Abs(n) as real) / (Abs(d) as real)
                                         else -((Abs(n) as real) / (Abs(d) as real))
  {
  }

  lemma NatRatioError(n: nat, d: nat)
    requires n <= d && d > 0
    ensures var s, t := (n as real) / (d as real), ((n * ONE / d) as real) / 32768.0;
            0.0 <= t <= s <= 1.0 && s - t <= 1.0 / 32768.0
  {
  }

  lemma RatioByParts(n: Int16, d: Int16)
    requires Abs(n) < Abs(d) || (n + d == 0 && d != 0)
    ensures Ratio(n, d) == if (n < 0) == (d < 0) then Abs(n) * ONE / Abs(d) else -(Abs(n) * ONE / Abs(d))
  {
  }

  /** The integer ratio falls short of the exact one by less than one unit, on the same side of zero. */
  lemma RatioError(n: Int16, d: Int16)
    requires Abs(n) < Abs(d) || (n + d == 0 && d != 0)
    ensures var s, t := (n as real) / (d as real), (Ratio(n, d) as real) / 32768.0;
            || (0.0 <= t <= s <= 1.0 && s - t <= 1.0 / 32768.0)
            || (-1.0 <= s <= t <= 0.0 && t - s <= 1.0 / 32768.0)
  {
    RatioByParts(n, d);
    RealRatio(n, d);
    NatRatioError(Abs(n), Abs(d));
    hide Ratio;
    var a := Abs(n) * ONE / Abs(d);
    assert ((-a) as real) / 32768.0 == -((a as real) / 32768.0);
  }

  lemma ProductSign(a: real, b: real)
    requires a >= 0.0 && b >= 0.0
    ensures a * b >= 0.0
  {
  }

  lemma PolynomialStep(t: real, s: real)
    requires 0.0 <= t <= s <= 1.0
    ensures 0.0 <= Polynomial(s) - Polynomial(t) <= 11039.0 * (s - t)
  {
    assert Polynomial(s) - Polynomial(t) == (s - t) * (11039.0 - 2847.0 * (s + t));
    var f := 11039.0 - 2847.0 * (s + t);
    assert 0.0 <= f <= 11039.0;
    ProductSign(s - t, f);
    ProductSign(s - t, 11039.0 - f);
    assert (s - t) * (11039.0 - f) == 11039.0 * (s - t) - (s - t) * f;
  }

  lemma PolynomialOdd(t: real)
    ensures Polynomial(-t) == -Polynomial(t)
  {
  }

  lemma PolynomialError(t: real, s: real)
    requires (0.0 <= t <= s <= 1.0 && s - t <= 1.0 / 32768.0) || (-1.0 <= s <= t <= 0.0 && t - s <= 1.0 / 32768.0)
    ensures AbsReal(Polynomial(t) - Polynomial(s)) <= 0.5
  {
    if t >= 0.0 && s >= t {
      PolynomialStep(t, s);
    } else {
      PolynomialStep(-t, -s);
      PolynomialOdd(t);
      PolynomialOdd(s);
    }
  }

  lemma ProductError(c: real, t: real, e: real)
    requires AbsReal(c) <= 0.5 && AbsReal(t) <= 1.0 && e == t * c
    ensures AbsReal(e) <= 0.5
  {
    assert AbsReal(t * c) == AbsReal(t) * AbsReal(c);
    assert AbsReal(t) * AbsReal(c) <= 1.0 * AbsReal(c);
  }

  /** The correction is within half a unit of the bend times |r|. */
  lemma CorrectionError(t: Int16)
    ensures var r := (t as real) / 32768.0;
            AbsReal((MulQ15(BEND, Nabs(t)) as real) + 2847.0 * AbsReal(r)) <= 0.5
  {
  }

  lemma SlopeTimesRatio(c: int, t: Int16)
    requires AbsReal((c as real) + 2847.0 * AbsReal((t as real) / 32768.0)) <= 0.5
    ensures AbsReal(RealProduct(SLOPE + c, t) - Polynomial((t as real) / 32768.0)) <= 0.5
  {
    var r := (t as real) / 32768.0;
    var e := (c as real) + 2847.0 * AbsReal(r);
    assert ((SLOPE + c) as real) == 11039.0 + (c as real);
    assert ((SLOPE + c) as real) * (t as real) / 32768.0 == (11039.0 + (c as real)) * r;
    assert (11039.0 + (c as real)) * r - Polynomial(r) == r * e;
    ProductError(e, r, r * e);
  }

  lemma Triangle(a: real, b: real, c: real)
    requires AbsReal(a - b) <= 0.5 && AbsReal(b - c) <= 0.5
    ensures AbsReal(a - c) <= 1.0
  {
  }

  lemma UnrotatedIs(t: Int16)
    ensures Unrotated(t) == MulQ15(SLOPE + MulQ15(BEND, Nabs(t)), t)
  {
  }

  /** The two roundings together cost at most one unit. */
  lemma UnrotatedError(t: Int16)
    ensures AbsReal((Unrotated(t) as real) - Polynomial((t as real) / 32768.0)) <= 1.0
  {
    hide MulQ15, Polynomial, Unrotated, AbsReal, RealProduct;
    var c := MulQ15(BEND, Nabs(t));
    UnrotatedIs(t);
    CorrectionError(t);
    MulError(SLOPE + c, t);
    SlopeTimesRatio(c, t);
    Triangle(Unrotated(t) as real, RealProduct(SLOPE + c, t), Polynomial((t as real) / 32768.0));
  }

  lemma NabsOrder(x: Int16, y: Int16)
    ensures Nabs(x) < Nabs(y) <==> Abs(y) < Abs(x)
  {
  }

  lemma RatioAngleError(n: Int16, d: Int16)
    requires Abs(n) < Abs(d) || (n + d == 0 && d != 0)
    ensures AbsReal((Unrotated(Ratio(n, d)) as real) - Polynomial(Quotient(n, d))) <= 1.5
  {
    hide Ratio, Unrotated, Polynomial;
    RatioError(n, d);
    PolynomialError((Ratio(n, d) as real) / 32768.0, (n as real) / (d as real));
    UnrotatedError(Ratio(n, d));
  }

  lemma DiagonalAccurate(x: Int16)
    requires x != 0
    ensures IdealAngle(x, x) == SignedAngle(x, x) as real
  {
  }

  lemma FlatAccurate(y: Int16, x: Int16)
    requires Abs(y) < Abs(x)
    ensures AbsReal((SignedAngle(y, x) as real) - IdealAngle(y, x)) <= 1.5
  {
    hide Ratio, Unrotated, Polynomial, Quotient;
    NabsOrder(x, y);
    RatioAngleError(y, x);
    var u: int := Unrotated(Ratio(y, x));
    assert SignedAngle(y, x) == if x > 0 then u else 32768 + u;
  }

  lemma SteepAccurate(y: Int16, x: Int16)
    requires Abs(x) <= Abs(y) && x != y
    ensures AbsReal((SignedAngle(y, x) as real) - IdealAngle(y, x)) <= 1.5
  {
    hide Ratio, Unrotated, Polynomial, Quotient;
    NabsOrder(x, y);
    RatioAngleError(x, y);
    var u: int := Unrotated(Ratio(x, y));
    assert SignedAngle(y, x) == if y > 0 then 16384 - u else 49152 - u;
  }

  /**
   * For every non-zero vector the angle, before it is reduced modulo a turn, is within one and a half units of
   * the octant's base plus or minus the polynomial of the exact ratio.
   */
  lemma AngleAccurate(y: Int16, x: Int16)
    requires !(x == 0 && y == 0)
    ensures AbsReal((SignedAngle(y, x) as real) - IdealAngle(y, x)) <= 1.5
    ensures Atan2(y, x) == SignedAngle(y, x) % 0x1_0000
  {
    hide SignedAngle, IdealAngle;
    if x == y {
      DiagonalAccurate(x);
    } else if Abs(y) < Abs(x) {
      FlatAccurate(y, x);
    } else {
      SteepAccurate(y, x);
    }
  }
}
