/** Floats as text: what an output stream prints of one, six significant digits, and what is read back from that. A
    decimal is counted in units of 10^-50, fine enough for six digits of every single-precision number. */
module FloatText {
  import opened Powers
  import opened Floats

  const UNITS: nat := Pow10(50)

  /** The distance of the decimals of six digits around `m`. */
  function DecimalSpacing(m: nat): (q: nat)
    ensures q > 0
  {
    if m < 1_000_000 then 1 else 10 * DecimalSpacing(m / 10)
  }

  /** The decimal of six digits nearest to `n / one`; of two equally near, the one with an even last digit. */
  function Digits(n: nat, one: nat): nat
    requires one > 0
  {
    DecimalSpacing(n / one) * Round(n, one * DecimalSpacing(n / one))
  }

  /** The decimal an output stream prints of a float. */
  function SixDigits(x: nat): nat {
    Digits(UNITS * x, ONE)
  }

  /** The float that is read from a decimal. */
  function ReadFloat(d: nat): (x: int)
    ensures x >= 0 && Representable(x)
  {
    NearestRepresentable(ONE * d, UNITS);
    Nearest(ONE * d, UNITS)
  }

  /** A float stored as text and read back. */
  function Reread(x: nat): (y: int)
    ensures y >= 0 && Representable(y)
  {
    ReadFloat(SixDigits(x))
  }

  // ---------------------------------------------------------------------------------------------
  // Spacing of decimals
  // ---------------------------------------------------------------------------------------------

  lemma {:induction false} DecimalBounds(m: nat)
    ensures m < 1_000_000 * DecimalSpacing(m)
    ensures DecimalSpacing(m) > 1 ==> m >= 100_000 * DecimalSpacing(m)
  {
    if m >= 1_000_000 {
      DecimalBounds(m / 10);
    }
  }

  lemma {:induction false} DecimalIsPower(m: nat) returns (i: nat)
    ensures DecimalSpacing(m) == Pow10(i)
  {
    i := 0;
    if m >= 1_000_000 {
      i := DecimalIsPower(m / 10);
      i := i + 1;
    }
  }

  lemma {:induction false} DecimalSpacingIs(m: nat, i: nat)
    requires m < 1_000_000 * Pow10(i)
    requires i > 0 ==> m >= 100_000 * Pow10(i)
    ensures DecimalSpacing(m) == Pow10(i)
  {
    if i > 0 {
      DecimalSpacingIs(m / 10, i - 1);
    }
  }

  lemma {:induction false} Pow10Grows(i: nat, j: nat)
    requires i > j
    ensures Pow10(i) >= 10 * Pow10(j)
  {
    if i > j + 1 {
      Pow10Grows(i - 1, j);
    }
  }

  // ---------------------------------------------------------------------------------------------
  // Six digits survive
  // ---------------------------------------------------------------------------------------------

  /** Rounding finds the multiple that is near enough. */
  lemma RoundClose(p: nat, w: nat, k: nat)
    requires w > 0 && 2 * Distance(p, w * k) < w
    ensures Round(p, w) == k
  {
    RoundDistance(p, w);
    var j := Round(p, w);
    RoundBounds(p, w);
    if j > k {
      AtLeast(w, k + 1, j);
      OneMore(w, k);
      assert false;
    }
    if j < k {
      AtLeast(w, j + 1, k);
      OneMore(w, j);
      assert false;
    }
  }

  lemma OneMore(w: nat, k: nat)
    ensures w * (k + 1) == w * k + w
  {
  }

  /** The relative error of reading a decimal of normal size. */
  lemma NearestError(p: nat, d: nat)
    requires d > 0 && p / d >= SIGNIFICANDS / 2
    ensures SIGNIFICANDS * Distance(d * Nearest(p, d), p) <= p
  {
    var q := Spacing(p / d);
    SpacingBounds(p / d);
    LongEnough(p, d, q);
    RoundWithinHalf(p, d * q);
    Regroup(d, q, Round(p, d * q));
  }

  lemma LongEnough(p: nat, d: nat, q: nat)
    requires d > 0 && p / d >= SIGNIFICANDS / 2 * q
    ensures p >= SIGNIFICANDS / 2 * (d * q)
  {
    AtMostQuotient(p, d, SIGNIFICANDS / 2 * q);
    Swap(d, SIGNIFICANDS / 2, q);
  }

  lemma RoundWithinHalf(p: nat, w: nat)
    requires w > 0 && p >= SIGNIFICANDS / 2 * w
    ensures SIGNIFICANDS * Distance(w * Round(p, w), p) <= p
  {
    RoundBounds(p, w);
  }

  /** `n` is next to the decimal `value`, so near that no other decimal of six digits is nearer. */
  lemma DigitsKept(n: nat, one: nat, value: nat, d: nat, j: nat)
    requires one > 0 && d < 1_000_000 && value == d * Pow10(j)
    requires SIGNIFICANDS * Distance(n, one * value) <= one * value
    ensures Digits(n, one) == value
  {
    var q := DecimalSpacing(n / one);
    var k := SpacingDivides(n, one, value, d, j);
    CloseEnough(n, one, q, value);
    Regroup(one, q, k);
    RoundClose(n, one * q, k);
  }

  lemma SpacingDivides(n: nat, one: nat, value: nat, d: nat, j: nat) returns (k: nat)
    requires one > 0 && d < 1_000_000 && value == d * Pow10(j)
    requires SIGNIFICANDS * Distance(n, one * value) <= one * value
    ensures value == DecimalSpacing(n / one) * k
  {
    var i := DecimalIsPower(n / one);
    if i > j {
      DecimalBounds(n / one);
      Pow10Grows(i, j);
      NotSoLong(n, one, value, d, Pow10(j));
      assert false;
    }
    Pow10Sum(i, j - i);
    k := d * Pow10(j - i);
    Swap(Pow10(i), d, Pow10(j - i));
  }

  lemma Swap(a: nat, b: nat, c: nat)
    ensures a * (b * c) == b * (a * c)
  {
  }

  /** A number next to a decimal of six digits does not have more. */
  lemma NotSoLong(n: nat, one: nat, value: nat, d: nat, p: nat)
    requires one > 0 && p > 0 && d < 1_000_000 && value == d * p
    requires SIGNIFICANDS * Distance(n, one * value) <= one * value
    ensures n / one < 1_000_000 * p
  {
    Swap(one, d, p);
    AtLeast(one * p, d, 999_999);
    Exceeds(n, one * value, one * p);
    Swap(one, 1_000_000, p);
    AtMostQuotient(n, one, 1_000_000 * p);
  }

  lemma Exceeds(n: nat, w: nat, v: nat)
    requires SIGNIFICANDS * Distance(n, w) <= w <= 999_999 * v && v > 0
    ensures n < 1_000_000 * v
  {
  }

  lemma CloseEnough(n: nat, one: nat, q: nat, d: nat)
    requires one > 0 && q == DecimalSpacing(n / one)
    requires SIGNIFICANDS * Distance(n, one * d) <= one * d
    ensures 2 * Distance(n, one * d) < one * q
  {
    DecimalBounds(n / one);
    AtMostQuotient(n, one, 1_000_000 * q);
    Swap(one, 1_000_000, q);
    Near(n, one * d, one * q);
  }

  lemma Near(n: nat, p: nat, w: nat)
    requires SIGNIFICANDS * Distance(n, p) <= p && n < 1_000_000 * w
    ensures 2 * Distance(n, p) < w
  {
  }

  lemma Survives(value: nat, d: nat, j: nat, one: nat, units: nat, x: nat)
    requires one > 0 && units > 0 && d < 1_000_000 && value == d * Pow10(j)
    requires one * value / units >= SIGNIFICANDS / 2 && x == Nearest(one * value, units)
    ensures Digits(units * x, one) == value
  {
    NearestError(one * value, units);
    DigitsKept(units * x, one, value, d, j);
  }

  /** A decimal of at most six digits, of the size of a normal number, is printed as it was read, and so survives. */
  lemma SixDigitsSurvive(value: nat, d: nat, j: nat)
    requires d < 1_000_000 && value == d * Pow10(j) && ONE * value / UNITS >= SIGNIFICANDS / 2
    ensures SixDigits(ReadFloat(value)) == value
    ensures Reread(ReadFloat(value)) == ReadFloat(value)
  {
    Survives(value, d, j, ONE, UNITS, ReadFloat(value));
  }

  // ---------------------------------------------------------------------------------------------
  // How far a stored figure moves
  // ---------------------------------------------------------------------------------------------

  lemma DecimalAtMost(m: nat, i: nat)
    requires m < 1_000_000 * Pow10(i)
    ensures DecimalSpacing(m) <= Pow10(i)
  {
    var j := DecimalIsPower(m);
    if j > i {
      DecimalBounds(m);
      Pow10Grows(j, i);
      assert false;
    }
    if j < i {
      Pow10Grows(i, j);
    }
  }

  lemma Wider(one: nat, q: nat, w: nat, d: nat)
    requires q <= w && d <= one * q
    ensures d <= one * w
  {
    AtLeast(one, q, w);
  }

  lemma MultipleNear(n: nat, one: nat, q: nat)
    requires one > 0 && q > 0
    ensures 2 * Distance(one * (q * Round(n, one * q)), n) <= one * q
  {
    RoundBounds(n, one * q);
    Regroup(one, q, Round(n, one * q));
  }

  lemma DigitsNear(n: nat, one: nat, q: nat, w: nat)
    requires one > 0 && 0 < q <= w
    ensures 2 * Distance(one * (q * Round(n, one * q)), n) <= one * w
  {
    MultipleNear(n, one, q);
    Wider(one, q, w, 2 * Distance(one * (q * Round(n, one * q)), n));
  }

  lemma DigitsWithin(n: nat, one: nat, m: nat, i: nat)
    requires one > 0 && m == n / one && m < 1_000_000 * Pow10(i)
    ensures 2 * Distance(one * Digits(n, one), n) <= one * Pow10(i)
  {
    DecimalAtMost(m, i);
    DigitsOf(n, one, DecimalSpacing(m), Pow10(i));
  }

  lemma DigitsOf(n: nat, one: nat, q: nat, w: nat)
    requires one > 0 && q == DecimalSpacing(n / one) && q <= w
    ensures 2 * Distance(one * Digits(n, one), n) <= one * w
  {
    DigitsNear(n, one, q, w);
  }

  /** Printing moves a figure below 10^6/t by at most half of its digit of weight 1/t. */
  lemma PrintedNear(x: nat, n: nat, one: nat, units: nat, t: nat, i: nat)
    requires one > 0 && t * x < 1_000_000 * one && units == t * Pow10(i) && n == units * x
    ensures 2 * t * Distance(one * Digits(n, one), n) <= units * one
  {
    FewDigits(x, n, one, Pow10(i), t);
    DigitsWithin(n, one, n / one, i);
    Times(one, Pow10(i), t, Distance(one * Digits(n, one), n), units);
  }

  lemma Times(one: nat, h: nat, t: nat, d: nat, units: nat)
    requires units == t * h && 2 * d <= one * h
    ensures 2 * t * d <= units * one
  {
    AtLeast(t, 2 * d, one * h);
    Swap(t, one, h);
    assert t * (2 * d) == 2 * t * d && one * (t * h) == units * one;
  }

  lemma FewDigits(x: nat, n: nat, one: nat, h: nat, t: nat)
    requires one > 0 && t * x < 1_000_000 * one && h > 0 && n == t * h * x
    ensures n / one < 1_000_000 * h
  {
    AtLeast(h, t * x + 1, 1_000_000 * one);
    OneMore(h, t * x);
    assert h * (t * x) == n;
    Swap(one, 1_000_000, h);
    assert h * (1_000_000 * one) == 1_000_000 * (one * h);
    AtMostQuotient(n, one, 1_000_000 * h);
  }

  /** Reading moves it by much less. */
  lemma ReadNear(p: nat, units: nat, one: nat, c: nat)
    requires units > 0 && one >= SIGNIFICANDS && c > 0 && p <= c * (units * one)
    ensures SIGNIFICANDS * Distance(units * Nearest(p, units), p) <= c * (units * one)
  {
    var q := Spacing(p / units);
    RoundBounds(p, units * q);
    Regroup(units, q, Round(p, units * q));
    SpacingBounds(p / units);
    if q == 1 {
      AtLeast(units, SIGNIFICANDS, one);
      AtLeast(units * one, 1, c);
      assert units * one * c == c * (units * one);
    } else {
      LongEnough(p, units, q);
    }
  }

  lemma OneIsLong()
    ensures ONE >= SIGNIFICANDS
  {
    OneIs();
    AtLeast(SIGNIFICANDS, 1, Pow2(125));
  }

  lemma UnitsAre()
    ensures UNITS == 10 * Pow10(49) == 100 * Pow10(48)
  {
    assert Pow10(49) == 10 * Pow10(48);
  }

  lemma DistanceScales(u: nat, y: nat, x: nat)
    ensures Distance(u * y, u * x) == u * Distance(y, x)
  {
    if y >= x {
      AtLeast(u, x, y);
      assert u * (y - x) == u * y - u * x;
    } else {
      AtLeast(u, y, x);
      assert u * (x - y) == u * x - u * y;
    }
  }

  /** How far figures move that are stored, in ten-thousandths: below 10000 with two decimals printed, and up to 40000
      with one. `t` is the weight of the last digit, `c` a bound of the figure printed. */
  predicate Moves(t: nat, c: nat, f: nat) {
    (t == 100 && c == 10001 && f == 60) || (t == 10 && c == 40001 && f == 524)
  }

  lemma SumOfMoves(p: nat, a: nat, b: nat, v: nat, t: nat, c: nat, f: nat)
    requires Moves(t, c, f)
    requires 2 * t * Distance(p, a) <= v && SIGNIFICANDS * Distance(b, p) <= c * v
    ensures 10000 * Distance(b, a) <= f * v
  {
  }

  lemma MovesAddUp(u: nat, one: nat, p: nat, x: nat, y: nat, t: nat, c: nat, f: nat)
    requires u > 0 && Moves(t, c, f)
    requires 2 * t * Distance(p, u * x) <= u * one
    requires SIGNIFICANDS * Distance(u * y, p) <= c * (u * one)
    ensures 10000 * Distance(y, x) <= f * one
  {
    SumOfMoves(p, u * x, u * y, u * one, t, c, f);
    DistanceScales(u, y, x);
    Swap(u, 10000, Distance(y, x));
    Swap(u, f, one);
    Cancel(u, 10000 * Distance(y, x), f * one);
  }

  lemma Cancel(u: nat, a: nat, b: nat)
    requires u > 0 && u * a <= u * b
    ensures a <= b
  {
    if a > b {
      AtLeast(u, b + 1, a);
      OneMore(u, b);
    }
  }

  /** A figure below 10000 is stored to within six thousandths, and one up to 40000 to within 0.0524. */
  lemma RereadNear(x: nat)
    ensures x < 10000 * ONE ==> 10000 * Distance(Reread(x), x) <= 60 * ONE
    ensures x <= 40000 * ONE ==> 10000 * Distance(Reread(x), x) <= 524 * ONE
  {
    UnitsAre();
    OneIsLong();
    var value := SixDigits(x);
    if x < 10000 * ONE {
      RereadNearBy(x, UNITS * x, ONE, UNITS, value, 100, 48, 10001, 60);
    }
    if x <= 40000 * ONE {
      RereadNearBy(x, UNITS * x, ONE, UNITS, value, 10, 49, 40001, 524);
    }
  }

  lemma RereadNearBy(x: nat, n: nat, one: nat, units: nat, value: nat, t: nat, i: nat, c: nat, f: nat)
    requires one >= SIGNIFICANDS && units == t * Pow10(i) && n == units * x && Moves(t, c, f)
    requires t * x < 1_000_000 * one && x <= (c - 1) * one
    requires value == Digits(n, one)
    ensures 10000 * Distance(Nearest(one * value, units), x) <= f * one
  {
    var p := one * value;
    PrintedNear(x, n, one, units, t, i);
    StaysBelow(x, n, one, units, p, t, c);
    ReadNear(p, units, one, c);
    MovesAddUp(units, one, p, x, Nearest(p, units), t, c, f);
  }

  lemma StaysBelow(x: nat, n: nat, one: nat, units: nat, p: nat, t: nat, c: nat)
    requires one > 0 && units > 0 && t > 0 && c > 0 && x <= (c - 1) * one && n == units * x
    requires 2 * t * Distance(p, n) <= units * one
    ensures p <= c * (units * one)
  {
    AtLeast(units, x, (c - 1) * one);
    Swap(units, c - 1, one);
    AtLeast(Distance(p, n), 1, 2 * t);
    assert (c - 1) * (units * one) + units * one == c * (units * one);
  }

  // ---------------------------------------------------------------------------------------------
  // Ratios
  // ---------------------------------------------------------------------------------------------

  lemma RatioCancels(p: nat, d: nat, c: nat)
    requires d > 0 && c > 0
    ensures (p * c) / (d * c) == p / d && (p * c) % (d * c) == (p % d) * c
  {
    var f, r := p / d, p % d;
    assert p * c == (d * c) * f + r * c by {
      assert p == d * f + r;
      assert (d * f + r) * c == (d * c) * f + r * c;
    }
    AtLeast(c, r + 1, d);
    assert c * (r + 1) == r * c + c && c * d == d * c;
    DivisionIs(p * c, d * c, f, r * c);
  }

  lemma ComparesAlike(a: nat, b: nat, c: nat)
    requires c > 0
    ensures a * c < b * c <==> a < b
    ensures a * c == b * c <==> a == b
  {
    if a < b {
      AtLeast(c, a + 1, b);
      OneMore(c, a);
    } else if b < a {
      AtLeast(c, b + 1, a);
      OneMore(c, b);
    }
  }

  lemma RoundRatio(p: nat, w: nat, c: nat)
    requires w > 0 && c > 0
    ensures Round(p * c, w * c) == Round(p, w)
  {
    RatioCancels(p, w, c);
    ComparesAlike(2 * (p % w), w, c);
    assert 2 * (p % w) * c == 2 * ((p % w) * c);
  }

  lemma NearestRatio(p: nat, d: nat, c: nat)
    requires d > 0 && c > 0
    ensures Nearest(p * c, d * c) == Nearest(p, d)
  {
    RatioCancels(p, d, c);
    var q := Spacing(p / d);
    assert d * c * q == d * q * c;
    RoundRatio(p, d * q, c);
  }

  /** A representable number is read as itself. */
  lemma NearestOfMultiple(x: nat, d: nat)
    requires d > 0 && Representable(x)
    ensures Nearest(d * x, d) == x
  {
    MultipleIs(d, x);
    var q := Spacing(x);
    assert x == q * (x / q);
    Regroup(d, q, x / q);
    RoundExact(x / q, d * q);
  }
}
