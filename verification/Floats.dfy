/** Single-precision arithmetic (IEEE 754 binary32, rounding to nearest, ties to even). Every finite single-precision
    number is a whole multiple of 2^-149; numbers are counted in that unit here, so the exact result of a sum, a
    difference or a product with an int is an int too, and rounding is a function on ints. */
module Floats {
  import opened Powers

  /** The number one. */
  const ONE: nat := Pow2(149)

  /** A significand has 24 bits. */
  const SIGNIFICANDS := 0x100_0000

  /** The distance of the numbers representable around `n`. */
  function Spacing(n: nat): (q: nat)
    ensures q > 0
  {
    if n < SIGNIFICANDS then 1 else 2 * Spacing(n / 2)
  }

  /** The multiple of `w` next to `p`, in units of `w`; of two equally near, the even one. */
  function Round(p: nat, w: nat): nat
    requires w > 0
  {
    if 2 * (p % w) < w || (2 * (p % w) == w && p / w % 2 == 0) then p / w else p / w + 1
  }

  /** The representable number next to `p / d`. */
  function Nearest(p: nat, d: nat): nat
    requires d > 0
  {
    Spacing(p / d) * Round(p, d * Spacing(p / d))
  }

  /** The single-precision result of an operation whose exact result is `x`. */
  function Fl(x: int): int {
    if x >= 0 then Nearest(x, 1) else -(Nearest(-x, 1) as int)
  }

  predicate Representable(x: int) {
    (if x >= 0 then x else -x) % Spacing(if x >= 0 then x else -x) == 0
  }

  type Float = x: int | Representable(x)

  lemma OneIs()
    ensures ONE == Pow2(125) * SIGNIFICANDS && Pow2(125) == 2 * Pow2(124)
  {
    Pow2Sum(24, 125);
    TwentyFour();
  }

  lemma TwentyFour()
    ensures Pow2(24) == SIGNIFICANDS
  {
    Pow2Sum(12, 12);
    assert Pow2(12) == 4096;
  }

  // ---------------------------------------------------------------------------------------------
  // Spacing
  // ---------------------------------------------------------------------------------------------

  lemma {:induction false} SpacingBounds(n: nat)
    ensures n < SIGNIFICANDS * Spacing(n)
    ensures Spacing(n) > 1 ==> n >= SIGNIFICANDS / 2 * Spacing(n)
  {
    if n >= SIGNIFICANDS {
      SpacingBounds(n / 2);
    }
  }

  /** Going up, the spacing stays or at least doubles, and the smaller divides the greater. */
  lemma {:induction false} SpacingGrows(a: nat, b: nat)
    requires a <= b
    ensures Spacing(a) == Spacing(b) || 2 * Spacing(a) <= Spacing(b)
    ensures Spacing(b) % Spacing(a) == 0
  {
    if a >= SIGNIFICANDS {
      SpacingGrows(a / 2, b / 2);
      Multiple(Spacing(b / 2), Spacing(a / 2));
    }
  }

  lemma Multiple(b: nat, a: nat)
    requires a > 0 && b % a == 0
    ensures (2 * b) % (2 * a) == 0
  {
    var k := b / a;
    assert b == a * k;
    assert 2 * b == (2 * a) * k;
    MultipleIs(2 * a, k);
  }

  lemma MultipleIs(a: nat, k: nat)
    requires a > 0
    ensures (a * k) % a == 0 && a * k / a == k
  {
    DivisionIs(a * k, a, k, 0);
  }

  // ---------------------------------------------------------------------------------------------
  // Rounding
  // ---------------------------------------------------------------------------------------------

  lemma RoundBounds(p: nat, w: nat)
    requires w > 0
    ensures 2 * (w * Round(p, w) - p) <= w && 2 * (p - w * Round(p, w)) <= w
    ensures p / w <= Round(p, w) <= p / w + 1
  {
    var f := p / w;
    assert p == w * f + p % w;
    assert w * (f + 1) == w * f + w;
  }

  lemma RoundMonotone(a: nat, b: nat, w: nat)
    requires a <= b && w > 0
    ensures Round(a, w) <= Round(b, w)
  {
    AtMostQuotient(b, w, a / w);
    assert a == w * (a / w) + a % w && b == w * (b / w) + b % w;
  }

  lemma RoundExact(k: nat, w: nat)
    requires w > 0
    ensures Round(w * k, w) == k
  {
    MultipleIs(w, k);
  }

  lemma RoundAtMost(n: nat, q: nat, k: nat)
    requires q > 0 && n <= q * k
    ensures q * Round(n, q) <= q * k
  {
    RoundMonotone(n, q * k, q);
    RoundExact(k, q);
    AtLeast(q, Round(n, q), k);
  }

  lemma RoundAtLeast(n: nat, q: nat, k: nat)
    requires q > 0 && n >= q * k
    ensures q * Round(n, q) >= q * k
  {
    RoundMonotone(q * k, n, q);
    RoundExact(k, q);
    AtLeast(q, k, Round(n, q));
  }

  lemma NearestWhole(n: nat)
    ensures Nearest(n, 1) == Spacing(n) * Round(n, Spacing(n))
  {
  }

  lemma BelowTop(n: nat, q: nat)
    requires q == Spacing(n)
    ensures q * Round(n, q) <= q * SIGNIFICANDS
  {
    SpacingBounds(n);
    RoundAtMost(n, q, SIGNIFICANDS);
  }

  lemma AboveBottom(n: nat, q: nat)
    requires q == Spacing(n) && q > 1
    ensures q * Round(n, q) >= q * (SIGNIFICANDS / 2)
  {
    SpacingBounds(n);
    RoundAtLeast(n, q, SIGNIFICANDS / 2);
  }

  /** Rounding stays between the ends of the stretch in which the spacing is the same. */
  lemma NearestInBinade(n: nat)
    ensures Nearest(n, 1) <= Spacing(n) * SIGNIFICANDS
    ensures Spacing(n) > 1 ==> Nearest(n, 1) >= Spacing(n) * (SIGNIFICANDS / 2)
  {
    BelowTop(n, Spacing(n));
    if Spacing(n) > 1 {
      AboveBottom(n, Spacing(n));
    }
    NearestWhole(n);
  }

  lemma NearestMonotone(a: nat, b: nat)
    requires a <= b
    ensures Nearest(a, 1) <= Nearest(b, 1)
  {
    var qa, qb := Spacing(a), Spacing(b);
    SpacingGrows(a, b);
    if qa == qb {
      RoundMonotone(a, b, qa);
      AtLeast(qa, Round(a, qa), Round(b, qa));
    } else {
      NearestInBinade(a);
      NearestInBinade(b);
    }
  }

  /** Rounding keeps the order. */
  lemma FlMonotone(x: int, y: int)
    requires x <= y
    ensures Fl(x) <= Fl(y)
  {
    if x >= 0 {
      NearestMonotone(x, y);
    } else if y < 0 {
      NearestMonotone(-y, -x);
    }
  }

  /** Rounding leaves a representable number as it is. */
  lemma FlExact(x: int)
    requires Representable(x)
    ensures Fl(x) == x
  {
    var n := if x >= 0 then x else -x;
    var q := Spacing(n);
    assert n == q * (n / q);
    RoundExact(n / q, q);
  }

  /** The error is at most half the spacing, and at most a part of 2^24 of the number. */
  lemma FlError(x: int)
    ensures var n := if x >= 0 then x else -x;
            && 2 * (Fl(x) - x) <= Spacing(n) && 2 * (x - Fl(x)) <= Spacing(n)
            && SIGNIFICANDS * (Fl(x) - x) <= n && SIGNIFICANDS * (x - Fl(x)) <= n
  {
    var n := if x >= 0 then x else -x;
    RoundBounds(n, Spacing(n));
    SpacingBounds(n);
    if Spacing(n) == 1 {
      assert Nearest(n, 1) == n;
    }
  }

  function Distance(x: int, y: int): nat {
    if x >= y then x - y else y - x
  }

  lemma MultipleDistance(p: nat, w: nat, k: nat)
    requires w > 0
    ensures Distance(w * k, p) >= if k <= p / w then p % w else w - p % w
  {
    var f := p / w;
    assert p == w * f + p % w;
    if k <= f {
      AtLeast(w, k, f);
    } else {
      AtLeast(w, f + 1, k);
      assert w * (f + 1) == w * f + w;
    }
  }

  lemma RoundDistance(p: nat, w: nat)
    requires w > 0
    ensures Distance(w * Round(p, w), p) == if 2 * (p % w) <= w then p % w else w - p % w
  {
    var f := p / w;
    assert p == w * f + p % w;
    assert w * (f + 1) == w * f + w;
  }

  lemma RoundNearest(p: nat, w: nat, k: nat)
    requires w > 0
    ensures Distance(w * Round(p, w), p) <= Distance(w * k, p)
  {
    RoundDistance(p, w);
    MultipleDistance(p, w, k);
  }

  lemma FarMultiple(p: nat, w: nat, k: nat)
    requires w > 0
    ensures k < p / w ==> Distance(w * k, p) >= p % w + w
    ensures k > p / w + 1 ==> Distance(w * k, p) >= 2 * w - p % w
  {
    var f := p / w;
    assert p == w * f + p % w;
    if k < f {
      AtLeast(w, k + 1, f);
      assert w * (k + 1) == w * k + w;
    } else if k > f + 1 {
      AtLeast(w, f + 2, k);
      assert w * (f + 2) == w * f + 2 * w;
    }
  }

  /** Of two equally near, the even one. */
  lemma RoundTies(p: nat, w: nat, k: nat)
    requires w > 0 && k != Round(p, w) && Distance(w * k, p) == Distance(w * Round(p, w), p)
    ensures Round(p, w) % 2 == 0
  {
    RoundDistance(p, w);
    FarMultiple(p, w, k);
    MultipleDistance(p, w, k);
  }

  /** No representable number is nearer. */
  lemma NearestIsNearest(n: nat, y: nat)
    requires Representable(y)
    ensures Distance(Nearest(n, 1), n) <= Distance(y, n)
  {
    NearestWhole(n);
    if n <= y {
      SpacingGrows(n, y);
      NearerThanMultiple(n, y);
    } else {
      SpacingGrows(y, n);
      if Spacing(y) == Spacing(n) {
        OneDivides(Spacing(n));
        NearerThanMultiple(n, y);
      } else {
        NearerThanSmall(n, y);
      }
    }
  }

  lemma OneDivides(q: nat)
    requires q > 0
    ensures q % q == 0
  {
  }

  lemma NearerThanMultiple(n: nat, y: nat)
    requires Representable(y) && Spacing(y) % Spacing(n) == 0
    ensures Distance(Spacing(n) * Round(n, Spacing(n)), n) <= Distance(y, n)
  {
    MultipleNear(n, y, Spacing(y), Spacing(n));
  }

  lemma MultipleNear(n: nat, y: nat, r: nat, q: nat)
    requires q > 0 && r > 0 && y % r == 0 && r % q == 0
    ensures Distance(q * Round(n, q), n) <= Distance(y, n)
  {
    MultipleOfMultiple(y, r, q);
    NearerThan(n, q, y / q, y);
  }

  lemma NearerThan(n: nat, q: nat, k: nat, y: nat)
    requires q > 0 && y == q * k
    ensures Distance(q * Round(n, q), n) <= Distance(y, n)
  {
    RoundNearest(n, q, k);
  }

  /** A number below the stretch `n` is in is farther than the stretch's lower end. */
  lemma NearerThanSmall(n: nat, y: nat)
    requires 2 * Spacing(y) <= Spacing(n)
    ensures Distance(Spacing(n) * Round(n, Spacing(n)), n) <= Distance(y, n)
  {
    SpacingBounds(y);
    SpacingBounds(n);
    RoundNearest(n, Spacing(n), SIGNIFICANDS / 2);
  }

  lemma MultipleOfMultiple(y: nat, r: nat, q: nat)
    requires q > 0 && r > 0 && y % r == 0 && r % q == 0
    ensures y % q == 0 && y == q * (y / q)
  {
    var j, k := y / r, r / q;
    assert y == r * j && r == q * k;
    assert y == (q * k) * j == q * (k * j);
    MultipleIs(q, k * j);
  }

  /** The result of an operation is the representable number nearest to the exact result. */
  lemma FlIsNearest(x: int, y: int)
    requires Representable(y)
    ensures Distance(Fl(x), x) <= Distance(y, x)
  {
    var n: nat, m: nat := if x >= 0 then x else -x, if y >= 0 then y else -y;
    NearestIsNearest(n, m);
    NearestIsNearest(n, 0);
  }

  // ---------------------------------------------------------------------------------------------
  // Scaling
  // ---------------------------------------------------------------------------------------------

  lemma RoundDouble(p: nat, w: nat)
    requires w > 0
    ensures Round(2 * p, 2 * w) == Round(p, w)
  {
    var f, r := p / w, p % w;
    assert p == w * f + r;
    assert 2 * p == (2 * w) * f + 2 * r;
    DivisionIs(2 * p, 2 * w, f, 2 * r);
  }

  lemma HalfQuotient(p: nat, d: nat)
    requires d > 0
    ensures 2 * p / d / 2 == p / d
  {
    var f, r := p / d, p % d;
    assert p == d * f + r;
    if 2 * r < d {
      assert 2 * p == d * (2 * f) + 2 * r;
      DivisionIs(2 * p, d, 2 * f, 2 * r);
    } else {
      assert 2 * p == d * (2 * f + 1) + (2 * r - d);
      DivisionIs(2 * p, d, 2 * f + 1, 2 * r - d);
    }
  }

  /** From the first full significand on, doubling a number doubles what it is rounded to. */
  lemma NearestDouble(p: nat, d: nat)
    requires d > 0 && p / d >= SIGNIFICANDS / 2
    ensures Nearest(2 * p, d) == 2 * Nearest(p, d)
    ensures 2 * p / d >= SIGNIFICANDS / 2
  {
    HalfQuotient(p, d);
    var q := Spacing(p / d);
    assert Spacing(2 * p / d) == 2 * q;
    assert d * (2 * q) == 2 * (d * q);
    RoundDouble(p, d * q);
  }

  lemma TwiceLess(p: nat, e: nat)
    requires e > 0
    ensures p * Pow2(e) == 2 * (p * Pow2(e - 1))
  {
  }

  lemma {:induction false} NearestScales(p: nat, d: nat, e: nat)
    requires d > 0 && p / d >= SIGNIFICANDS / 2
    ensures Nearest(p * Pow2(e), d) == Nearest(p, d) * Pow2(e)
    ensures p * Pow2(e) / d >= SIGNIFICANDS / 2
  {
    if e > 0 {
      NearestScales(p, d, e - 1);
      NearestDouble(p * Pow2(e - 1), d);
      TwiceLess(p, e);
      TwiceLess(Nearest(p, d), e);
    }
  }

  /** 24 bits and a power of two make a representable number. */
  lemma {:induction false} ShortIsRepresentable(m: nat, e: nat)
    requires m <= SIGNIFICANDS
    ensures Representable(m * Pow2(e))
  {
    var n := m * Pow2(e);
    if e == 0 {
      assert n == m;
    } else if n >= SIGNIFICANDS {
      ShortIsRepresentable(m, e - 1);
      TwiceLess(m, e);
      DoubleIsRepresentable(m * Pow2(e - 1));
    }
  }

  lemma DoubleIsRepresentable(n: nat)
    requires Representable(n)
    ensures Representable(2 * n)
  {
    if 2 * n >= SIGNIFICANDS {
      assert Spacing(2 * n) == 2 * Spacing(n);
      Multiple(n, Spacing(n));
    }
  }

  /** The spacing is known from the stretch a number is in. */
  lemma {:induction false} SpacingIs(n: nat, e: nat)
    requires n < SIGNIFICANDS * Pow2(e)
    requires e > 0 ==> n >= SIGNIFICANDS / 2 * Pow2(e)
    ensures Spacing(n) == Pow2(e)
  {
    if e > 0 {
      SpacingIs(n / 2, e - 1);
    }
  }

  lemma {:induction false} SpacingIsPower(n: nat) returns (e: nat)
    ensures Spacing(n) == Pow2(e)
  {
    e := 0;
    if n >= SIGNIFICANDS {
      e := SpacingIsPower(n / 2);
      e := e + 1;
    }
  }

  lemma RoundWithin(p: nat, w: nat, k: nat)
    requires w > 0 && p <= w * k
    ensures Round(p, w) <= k
  {
    RoundMonotone(p, w * k, w);
    RoundExact(k, w);
  }

  lemma RoundFits(p: nat, d: nat, q: nat)
    requires d > 0 && q > 0 && p / d < q * SIGNIFICANDS
    ensures Round(p, d * q) <= SIGNIFICANDS
  {
    BelowProduct(p, d, q * SIGNIFICANDS);
    assert d * (q * SIGNIFICANDS) == (d * q) * SIGNIFICANDS;
    RoundWithin(p, d * q, SIGNIFICANDS);
  }

  /** What is rounded is representable. */
  lemma NearestRepresentable(p: nat, d: nat)
    requires d > 0
    ensures Representable(Nearest(p, d))
  {
    var q := Spacing(p / d);
    var e := SpacingIsPower(p / d);
    SpacingBounds(p / d);
    RoundFits(p, d, q);
    ShortIsRepresentable(Round(p, d * q), e);
  }

  lemma BelowProduct(p: nat, d: nat, k: nat)
    requires d > 0 && p / d < k
    ensures p <= d * k
  {
    AtMostQuotient(p, d, k);
  }

  lemma FlRepresentable(x: int)
    ensures Representable(Fl(x))
  {
    NearestRepresentable(if x >= 0 then x else -x, 1);
    assert Fl(x) >= 0 <==> x >= 0 || Fl(x) == 0;
  }

  lemma FlOpposite(x: int)
    ensures Fl(-x) == -Fl(x)
  {
  }
}
