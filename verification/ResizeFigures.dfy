/** How exactly a resize moves the CPU counter of a host, in figures: the greatest error, the figures without any, and
    some of every day with one. The VM is charged for the figure as it is read back from the text it is stored as. */
module ResizeFigures {
  import opened Powers
  import opened Floats
  import opened FloatText
  import opened Ledger
  import opened Capacity
  import opened Resize

  // ---------------------------------------------------------------------------------------------
  // How far off the counter can be
  // ---------------------------------------------------------------------------------------------

  /** Up to so many CPUs. */
  predicate UpTo(cpus: nat, cpu: int) {
    0 <= cpu <= cpus * ONE
  }

  /** The error of the difference put on the host, for the difference of the percentages charged when the new figure
      is read back as `back`. */
  function Error(o: int, n: int, back: int): int {
    Fl(100 * Fl(n - o)) - (Fl(100 * back) - Fl(100 * o))
  }

  /** For figures up to `most`, with the new one moved by so many ten-thousandths when it is stored, the error is less
      than `k` percent. */
  predicate Bound(most: nat, moved: nat, k: int, one: nat) {
    || (most == 40000 * one && moved == 0 && k == 1)
    || (most == 10000 * one && moved == 60 * one && k == 1)
    || (most == 40000 * one && moved == 524 * one && k == 6)
  }

  lemma ErrorIsSmall(o: nat, n: nat, back: nat, most: nat, moved: nat, k: int)
    requires o <= most && n <= most && 10000 * Distance(back, n) <= moved && Bound(most, moved, k, ONE)
    ensures -k * ONE < Error(o, n, back) < k * ONE
  {
    DeltaError(o, n, Fl(n - o), Fl(100 * Fl(n - o)));
    FlError(100 * back);
    FlError(100 * o);
    ErrorsAddUp(o, n, back, Fl(100 * Fl(n - o)), Fl(100 * back), Fl(100 * o), ONE, most, moved, k);
  }

  lemma DeltaError(o: nat, n: nat, d: int, p: int)
    requires d == Fl(n - o) && p == Fl(100 * d)
    ensures SIGNIFICANDS * Distance(p, 100 * (n - o)) <= 201 * Distance(n, o)
  {
    FlError(n - o);
    FlError(100 * d);
    TwoRoundings(n - o, d, p);
  }

  lemma TwoRoundings(x: int, d: int, p: int)
    requires SIGNIFICANDS * Distance(d, x) <= Distance(x, 0)
    requires SIGNIFICANDS * Distance(p, 100 * d) <= 100 * Distance(d, 0)
    ensures SIGNIFICANDS * Distance(p, 100 * x) <= 201 * Distance(x, 0)
  {
    assert Distance(p, 100 * x) <= Distance(p, 100 * d) + 100 * Distance(d, x);
    assert Distance(d, 0) <= Distance(x, 0) + Distance(d, x);
  }

  lemma ErrorsAddUp(o: nat, n: nat, b: nat, p: int, q: int, s: int, one: nat, most: nat, moved: nat, k: int)
    requires one > 0 && o <= most && n <= most && 10000 * Distance(b, n) <= moved && Bound(most, moved, k, one)
    requires SIGNIFICANDS * Distance(p, 100 * (n - o)) <= 201 * Distance(n, o)
    requires SIGNIFICANDS * Distance(q, 100 * b) <= 100 * b
    requires SIGNIFICANDS * Distance(s, 100 * o) <= 100 * o
    ensures -k * one < p - (q - s) < k * one
  {
    var e := Distance(p, 100 * (n - o)) + Distance(q, 100 * b) + Distance(s, 100 * o);
    Weights(o, n, b, most);
    assert SIGNIFICANDS * e <= 301 * most + 100 * Distance(b, n);
    ErrorsTogether(o, n, b, p, q, s);
    BoundHolds(e, Distance(b, n), one, most, moved, k);
  }

  lemma Weights(o: nat, n: nat, b: nat, most: nat)
    requires o <= most && n <= most
    ensures 201 * Distance(n, o) + 100 * b + 100 * o <= 301 * most + 100 * Distance(b, n)
  {
  }

  lemma ErrorsTogether(o: nat, n: nat, b: nat, p: int, q: int, s: int)
    ensures Distance(p, q - s)
            <= Distance(p, 100 * (n - o)) + Distance(q, 100 * b) + Distance(s, 100 * o) + 100 * Distance(b, n)
  {
  }

  lemma BoundHolds(e: nat, d: nat, one: nat, most: nat, moved: nat, k: int)
    requires one > 0 && 10000 * d <= moved && Bound(most, moved, k, one)
    requires SIGNIFICANDS * e <= 301 * most + 100 * d
    ensures e + 100 * d < k * one
  {
  }

  /** How far the counter is off after a resize, once the new figure is stored. */
  function Off(r: Request): int
    requires r.NewCpu() >= 0
  {
    r.Asked().cpu - (Requirements(Reread(r.NewCpu()), r.NewMem()).cpu - Requirements(r.ocpu, r.omem).cpu)
  }

  /** One resize leaves the counter at most two percent off what the VM is then charged for: with figures up to 10000
      CPUs, and up to 40000 when the new one survives being stored. */
  lemma WithinTwoPercent(r: Request)
    requires UpTo(40000, r.ocpu) && UpTo(40000, r.NewCpu())
    requires Reread(r.NewCpu()) == r.NewCpu() || (UpTo(10000, r.ocpu) && r.NewCpu() < 10000 * ONE)
    ensures -2 <= Off(r) <= 2
  {
    RereadNear(r.NewCpu());
    if Reread(r.NewCpu()) == r.NewCpu() {
      FewPercentOff(r, Reread(r.NewCpu()), 40000 * ONE, 0, 1);
    } else {
      FewPercentOff(r, Reread(r.NewCpu()), 10000 * ONE, 60 * ONE, 1);
    }
  }

  /** And at most seven percent with any figures up to 40000 CPUs. */
  lemma WithinSevenPercent(r: Request)
    requires UpTo(40000, r.ocpu) && UpTo(40000, r.NewCpu())
    ensures -7 <= Off(r) <= 7
  {
    RereadNear(r.NewCpu());
    FewPercentOff(r, Reread(r.NewCpu()), 40000 * ONE, 524 * ONE, 6);
  }

  lemma FewPercentOff(r: Request, back: nat, most: nat, moved: nat, k: int)
    requires 0 <= r.ocpu <= most && 0 <= r.NewCpu() <= most && 10000 * Distance(back, r.NewCpu()) <= moved
    requires Bound(most, moved, k, ONE)
    ensures -k - 1 <= Percent(r.CpuDelta()) - (Percent(back) - Percent(r.ocpu)) <= k + 1
  {
    ErrorIsSmall(r.ocpu, r.NewCpu(), back, most, moved, k);
    NotNegative(back);
    NotNegative(r.ocpu);
    FewPercent(Fl(100 * r.CpuDelta()), Fl(100 * back), Fl(100 * r.ocpu), ONE, k);
  }

  lemma FewPercent(d: int, n: nat, o: nat, one: nat, k: int)
    requires one > 0 && k >= 0 && -k * one < d - (n - o) < k * one
    ensures -k - 1 <= Cut(d, one) - (Cut(n, one) - Cut(o, one)) <= k + 1
  {
    DroppedIs(d, n, o, one);
    assert one * (k + 1) == k * one + one;
    CutIs(d, Dropped(d, n, o, one), n / one - o / one, one, k + 1);
  }

  /** A number of quarters of a CPU. */
  function Quarters(k: nat): (cpu: int)
    ensures cpu >= 0
  {
    k * Pow2(147)
  }

  lemma Regroup(k: int, h: nat, one: nat)
    requires one == 4 * h
    ensures 100 * (k * h) == (100 * k) * h == (25 * k) * one
  {
    assert (25 * k) * (4 * h) == (100 * k) * h;
  }

  lemma QuartersKept(k: nat)
    requires k <= SIGNIFICANDS
    ensures Fl(Quarters(k)) == Quarters(k) && Fl(-Quarters(k)) == -Quarters(k)
  {
    ShortIsRepresentable(k, 147);
    FlExact(Quarters(k));
    FlOpposite(Quarters(k));
  }

  /** Whole percents are computed without rounding. */
  lemma QuartersExact(k: nat)
    requires 100 * k <= SIGNIFICANDS
    ensures Fl(100 * Quarters(k)) == (25 * k) * ONE && Fl(-(100 * Quarters(k))) == -((25 * k) * ONE)
  {
    FourQuarters();
    Regroup(k, Pow2(147), ONE);
    QuartersKept(100 * k);
  }

  lemma FourQuarters()
    ensures ONE == 4 * Pow2(147)
  {
    assert Pow2(148) == 2 * Pow2(147);
  }

  lemma QuarterDelta(k: nat, j: nat)
    requires 100 * k <= SIGNIFICANDS && 100 * j <= SIGNIFICANDS
    ensures Fl(100 * Fl(Quarters(k) - Quarters(j))) == (25 * k) * ONE - (25 * j) * ONE
  {
    Difference(k, j, Pow2(147));
    Difference(25 * k, 25 * j, ONE);
    if k >= j {
      DeltaUp(k - j);
    } else {
      DeltaDown(j - k);
    }
  }

  lemma DeltaUp(d: nat)
    requires 100 * d <= SIGNIFICANDS
    ensures Fl(100 * Fl(Quarters(d))) == (25 * d) * ONE
  {
    QuartersKept(d);
    QuartersExact(d);
  }

  lemma DeltaDown(d: nat)
    requires 100 * d <= SIGNIFICANDS
    ensures Fl(100 * Fl(-Quarters(d))) == -((25 * d) * ONE)
  {
    QuartersKept(d);
    QuartersExact(d);
    var q := Quarters(d);
    assert 100 * -q == -(100 * q);
  }

  lemma Difference(a: int, b: int, w: nat)
    ensures a * w - b * w == (a - b) * w == -((b - a) * w)
  {
  }

  /** A CPU figure given in hundredths, as the float it is read as. */
  function Hundredths(h: nat): (cpu: int)
    ensures cpu >= 0 && Representable(cpu)
  {
    ReadFloat(h * Pow10(48))
  }

  lemma HundredthsRatio(h: nat)
    ensures Hundredths(h) == Nearest(ONE * h, 100)
  {
    UnitsAre();
    RatioOf(h, Pow10(48), ONE, UNITS);
  }

  lemma RatioOf(h: nat, w: nat, one: nat, units: nat)
    requires w > 0 && units == 100 * w
    ensures Nearest(one * (h * w), units) == Nearest(one * h, 100)
  {
    NearestRatio(one * h, 100, w);
    Powers.Regroup(one, h, w);
  }

  /** A figure of at most six digits, two of them decimals, survives being stored. */
  lemma HundredthsSurvive(h: nat)
    requires h < 1_000_000
    ensures Reread(Hundredths(h)) == Hundredths(h)
    ensures h > 0 ==> SixDigits(Hundredths(h)) == h * Pow10(48)
  {
    if h == 0 {
      ZeroStays();
    } else {
      UnitsAre();
      OneIsBig();
      NormalSize(h, Pow10(48), ONE, UNITS);
      SixDigitsSurvive(h * Pow10(48), h, 48);
    }
  }

  lemma ZeroStays()
    ensures ReadFloat(0) == 0 && Reread(0) == 0
  {
    assert ONE * 0 == 0 && UNITS * 0 == 0;
    assert Nearest(0, UNITS) == 0;
    RoundExact(0, ONE);
    assert ONE * 1 == ONE;
    assert Digits(0, ONE) == 0;
  }

  lemma NormalSize(h: nat, w: nat, one: nat, units: nat)
    requires h > 0 && w > 0 && units == 100 * w && one >= 100 * SIGNIFICANDS
    ensures one * (h * w) / units >= SIGNIFICANDS / 2
  {
    AtLeast(w, 1, h);
    AtLeast(one, w, h * w);
    AtLeast(w, 100 * (SIGNIFICANDS / 2), one);
    AtMostQuotient(one * (h * w), units, SIGNIFICANDS / 2);
  }

  lemma OneIsBig()
    ensures ONE >= 100 * SIGNIFICANDS
  {
    OneIs();
    Pow2Sum(7, 118);
    assert Pow2(7) == 128;
    AtLeast(Pow2(7), 1, Pow2(118));
    AtLeast(SIGNIFICANDS, 100, Pow2(125));
  }

  lemma HundredthsScale(h: nat, e: nat, p: nat)
    requires e <= 149 && p == h * Pow2(149 - e) && p / 100 >= SIGNIFICANDS / 2
    ensures Hundredths(h) == Nearest(p, 100) * Pow2(e)
  {
    HundredthsRatio(h);
    NearestScales(p, 100, e);
    Pow2Sum(149 - e, e);
    ScaledBy(h, Pow2(149 - e), Pow2(e), ONE, p);
  }

  lemma ScaledBy(h: nat, a: nat, b: nat, one: nat, p: nat)
    requires one == a * b && p == h * a
    ensures one * h == p * b
  {
    Associates(h, a, b);
  }

  lemma HundredthsAre(h: nat)
    requires h >= 25
    ensures Hundredths(h) == Nearest(h * 0x200_0000, 100) * Pow2(124)
  {
    TwentyFive();
    HundredthsScale(h, 124, h * Pow2(25));
  }

  lemma TwentyFive()
    ensures Pow2(25) == 0x200_0000
  {
    Pow2Sum(12, 13);
    assert Pow2(12) == 4096 && Pow2(13) == 8192;
  }

  lemma Associates(a: nat, b: nat, c: nat)
    ensures a * (b * c) == (a * b) * c
  {
  }

  lemma FlScales(m: nat, e: nat)
    requires m >= SIGNIFICANDS / 2
    ensures Fl(m * Pow2(e)) == Fl(m) * Pow2(e)
  {
    NearestScales(m, 1, e);
  }

  /** Rounding does not depend on the scale, for long numbers and for short ones. */
  lemma FlScaled(m: nat, e: nat)
    ensures Fl(m * Pow2(e)) == Fl(m) * Pow2(e)
  {
    if m >= SIGNIFICANDS / 2 {
      FlScales(m, e);
    } else {
      ShortIsRepresentable(m, e);
      FlExact(m * Pow2(e));
      FlExact(m);
    }
  }

  lemma PercentScaled(cpu: nat, m: nat, x: nat)
    requires cpu == m * Pow2(124) && x == Fl(100 * m)
    ensures Percent(cpu) == x / 0x200_0000
  {
    OneScaled();
    ProductScaled(cpu, m, 124, x);
    PercentIs(cpu, x, 0x200_0000, Pow2(124));
  }

  lemma ProductScaled(cpu: nat, m: nat, e: nat, x: int)
    requires cpu == m * Pow2(e) && x == Fl(100 * m)
    ensures Fl(100 * cpu) == x * Pow2(e)
  {
    var p := 100 * m;
    Associates(100, m, Pow2(e));
    FlScaled(p, e);
  }

  lemma PercentIs(cpu: nat, x: nat, y: nat, w: nat)
    requires y > 0 && w > 0 && Fl(100 * cpu) == x * w && ONE == y * w
    ensures Percent(cpu) == x / y
  {
    CancelScale(x, y, w);
  }

  lemma OneScaled()
    ensures ONE == 0x200_0000 * Pow2(124)
  {
    OneIs();
  }

  lemma CancelScale(x: nat, y: nat, w: nat)
    requires y > 0 && w > 0
    ensures (x * w) / (y * w) == x / y
  {
    var f, r := x / y, x % y;
    assert x * w == (y * w) * f + r * w by {
      assert x == y * f + r;
      assert (y * f + r) * w == (y * w) * f + r * w;
    }
    AtLeast(w, r + 1, y);
    assert w * (r + 1) == r * w + w && w * y == y * w;
    DivisionIs(x * w, y * w, f, r * w);
  }

  lemma DeltaScaled(n: nat, o: nat, high: nat, low: nat, m: int)
    requires n == high * Pow2(124) && o == low * Pow2(124) && low <= high && m == Fl(high - low)
    ensures Fl(n - o) == m * Pow2(124)
  {
    Difference(high, low, Pow2(124));
    FlScaled(high - low, 124);
  }

  /** A figure of two decimals is charged its percents, or one less. */
  lemma HundredthsCharged(h: nat)
    requires 100 <= h <= 5_000_000
    ensures h - 1 <= Percent(Hundredths(h)) <= h
  {
    var x := Hundredths(h);
    HundredthsNear(h);
    FlError(100 * x);
    NotNegative(x);
    NearWhole(Fl(100 * x), 100 * x, ONE, h);
  }

  lemma HundredthsNear(h: nat)
    requires h >= 100
    ensures SIGNIFICANDS * Distance(100 * Hundredths(h), ONE * h) <= ONE * h
  {
    HundredthsRatio(h);
    OneIsBig();
    NormalHundredths(h, ONE);
    NearestError(ONE * h, 100);
  }

  lemma NormalHundredths(h: nat, one: nat)
    requires h >= 100 && one >= 100 * SIGNIFICANDS
    ensures one * h / 100 >= SIGNIFICANDS / 2
  {
    AtLeast(one, 100, h);
    AtMostQuotient(one * h, 100, SIGNIFICANDS / 2);
  }

  lemma NearWhole(p: nat, x: nat, one: nat, h: nat)
    requires one > 0 && 0 < h <= 5_000_000
    requires SIGNIFICANDS * Distance(x, one * h) <= one * h && SIGNIFICANDS * Distance(p, x) <= x
    ensures h - 1 <= p / one <= h
  {
    AtLeast(one, h, 5_000_000);
    assert Distance(p, one * h) < one;
    OneMore(one, h - 1);
    OneMore(one, h);
    AtMostQuotient(p, one, h - 1);
    AtMostQuotient(p, one, h + 1);
  }

  // ---------------------------------------------------------------------------------------------
  // Quarters of a CPU
  // ---------------------------------------------------------------------------------------------

  lemma QuarterIsHundredths(k: nat)
    requires k <= SIGNIFICANDS
    ensures Hundredths(25 * k) == Quarters(k)
  {
    HundredthsRatio(25 * k);
    FourQuarters();
    QuarterScale(k, Pow2(147), ONE);
    ShortIsRepresentable(k, 147);
    NearestOfMultiple(Quarters(k), 100);
  }

  lemma QuarterScale(k: nat, w: nat, one: nat)
    requires one == 4 * w
    ensures one * (25 * k) == 100 * (k * w)
  {
  }

  /** From 10000 CPUs on six digits leave one decimal: the other is rounded. */
  lemma LongQuarter(k: nat)
    requires 40000 <= k < 400000
    ensures Reread(Quarters(k)) == Hundredths(10 * Round(25 * k, 10))
  {
    FourQuarters();
    UnitsAre();
    QuarterDigits(k, Pow2(147), ONE, UNITS, UNITS * Quarters(k));
  }

  lemma QuarterDigits(k: nat, h: nat, one: nat, units: nat, n: nat)
    requires 40000 <= k < 400000 && h > 0 && one == 4 * h && units == 100 * Pow10(48) && n == units * (k * h)
    ensures Digits(n, one) == 10 * Round(25 * k, 10) * Pow10(48)
  {
    UnitsOfQuarter(k, h, one, units, Pow10(48));
    LongDigits(n, one, 25 * k, 48);
  }

  lemma LongDigits(n: nat, one: nat, m: nat, i: nat)
    requires one > 0 && 1_000_000 <= m < 10_000_000 && n == one * (m * Pow10(i))
    ensures Digits(n, one) == 10 * Round(m, 10) * Pow10(i)
  {
    MultipleIs(one, m * Pow10(i));
    LongDecimal(m, Pow10(i));
    assert Pow10(i + 1) == 10 * Pow10(i);
    DecimalSpacingIs(m * Pow10(i), i + 1);
    Tenths(n, one, m, Pow10(i), Pow10(i + 1));
  }

  lemma UnitsOfQuarter(k: nat, h: nat, one: nat, units: nat, w: nat)
    requires one == 4 * h && units == 100 * w
    ensures units * (k * h) == one * (25 * k * w)
  {
    Associates(100 * w, k, h);
    Associates(4 * h, 25 * k, w);
  }

  lemma LongDecimal(m: nat, w: nat)
    requires 1_000_000 <= m < 10_000_000 && w > 0
    ensures 100_000 * (10 * w) <= m * w < 1_000_000 * (10 * w)
  {
    AtLeast(w, 1_000_000, m);
    AtLeast(w, m + 1, 10_000_000);
    OneMore(w, m);
  }

  lemma Tenths(n: nat, one: nat, m: nat, w: nat, q: nat)
    requires one > 0 && w > 0 && n == one * (m * w) && q == 10 * w
    ensures q * Round(n, one * q) == 10 * Round(m, 10) * w
  {
    var u := one * w;
    Positive(one, w);
    Swap(one, m, w);
    Swap(one, 10, w);
    RoundRatio(m, 10, u);
    TenTimes(q, w, Round(m, 10));
  }

  lemma TenTimes(q: nat, w: nat, r: nat)
    requires q == 10 * w
    ensures q * r == 10 * r * w
  {
  }

  /** A figure in quarters survives being stored exactly below 10000 CPUs, or when it is in halves. */
  lemma QuarterReread(k: nat)
    requires k <= 200000
    ensures k < 40000 || k % 2 == 0 ==> Reread(Quarters(k)) == Quarters(k)
    ensures k >= 40000 && k % 2 == 1
        ==> Reread(Quarters(k)) == Hundredths(25 * k - 5) || Reread(Quarters(k)) == Hundredths(25 * k + 5)
  {
    QuarterIsHundredths(k);
    if k < 40000 {
      HundredthsSurvive(25 * k);
    } else {
      LongQuarter(k);
      TensOf(k);
      assert k % 2 == 0 ==> Hundredths(10 * Round(25 * k, 10)) == Quarters(k);
    }
  }

  lemma TensOf(k: nat)
    ensures k % 2 == 0 ==> 10 * Round(25 * k, 10) == 25 * k
    ensures k % 2 == 1 ==> 10 * Round(25 * k, 10) == 25 * k - 5 || 10 * Round(25 * k, 10) == 25 * k + 5
  {
    var j := k / 2;
    if k % 2 == 0 {
      DivisionIs(25 * k, 10, 5 * j, 0);
    } else {
      DivisionIs(25 * k, 10, 5 * j + 2, 5);
    }
  }

  /** Figures in quarters of a CPU, up to 41943 CPUs, are tracked exactly when and only when the new one is below 10000
      CPUs or in halves. Otherwise the counter is four to six percent off. */
  lemma QuartersAgree(r: Request, k: nat, j: nat)
    requires 100 * k <= SIGNIFICANDS && 100 * j <= SIGNIFICANDS
    requires r.NewCpu() == Quarters(k) && r.ocpu == Quarters(j)
    ensures TruncationsAgree(r, Reread(r.NewCpu())) <==> k < 40000 || k % 2 == 0
    ensures if k < 40000 || k % 2 == 0 then Off(r) == 0 else 4 <= Off(r) <= 6 || -6 <= Off(r) <= -4
  {
    QuarterOff(r, k, j);
    QuarterCharged(k);
    CpuTracks(r, Reread(r.NewCpu()));
  }

  lemma QuarterOff(r: Request, k: nat, j: nat)
    requires 100 * k <= SIGNIFICANDS && 100 * j <= SIGNIFICANDS
    requires r.NewCpu() == Quarters(k) && r.ocpu == Quarters(j)
    ensures Percent(r.CpuDelta()) == 25 * k - 25 * j && Percent(r.ocpu) == 25 * j
  {
    QuarterPercents(j);
    QuarterAsked(k, j);
  }

  /** What a VM with a new figure in quarters is charged. */
  lemma QuarterCharged(k: nat)
    requires 100 * k <= SIGNIFICANDS
    ensures var p := Percent(Reread(Quarters(k)));
            if k < 40000 || k % 2 == 0 then p == 25 * k
            else 25 * k - 6 <= p <= 25 * k - 4 || 25 * k + 4 <= p <= 25 * k + 6
  {
    if k < 40000 || k % 2 == 0 {
      QuarterReread(k);
      QuarterPercents(k);
    } else {
      OddQuarterCharged(k);
    }
  }

  lemma OddQuarterCharged(k: nat)
    requires k >= 40000 && k % 2 == 1 && 100 * k <= SIGNIFICANDS
    ensures var p := Percent(Reread(Quarters(k)));
            25 * k - 6 <= p <= 25 * k - 4 || 25 * k + 4 <= p <= 25 * k + 6
  {
    QuarterReread(k);
    HundredthsCharged(25 * k - 5);
    HundredthsCharged(25 * k + 5);
  }

  lemma QuarterPercents(k: nat)
    requires 100 * k <= SIGNIFICANDS
    ensures Percent(Quarters(k)) == 25 * k
  {
    QuartersExact(k);
    WholeOnes(25 * k, ONE);
  }

  lemma WholeOnes(x: int, one: nat)
    requires one > 0
    ensures Cut(x * one, one) == x
  {
    if x >= 0 {
      MultipleIs(one, x);
      assert x * one == one * x >= 0;
    } else {
      MultipleIs(one, -x);
      assert -(x * one) == one * -x > 0;
    }
  }

  lemma QuarterAsked(k: nat, j: nat)
    requires 100 * k <= SIGNIFICANDS && 100 * j <= SIGNIFICANDS
    ensures Percent(Fl(Quarters(k) - Quarters(j))) == 25 * k - 25 * j
  {
    QuarterDelta(k, j);
    Difference(25 * k, 25 * j, ONE);
    WholeOnes(25 * k - 25 * j, ONE);
  }

  // ---------------------------------------------------------------------------------------------
  // Everyday figures
  // ---------------------------------------------------------------------------------------------

  /** A request to go from `o` to `n` hundredths of a CPU. */
  function Change(o: nat, n: nat, mem: int, enforce: bool): Request {
    Request(Hundredths(o), Hundredths(n), mem, mem, enforce)
  }

  /** The figures used below, as floats in units of 2^-25. */
  lemma Figure50()
    ensures Nearest(50 * 0x200_0000, 100) == 16777216 && Fl(100 * 16777216) / 0x200_0000 == 50
  {
  }

  lemma Figure70()
    ensures Nearest(70 * 0x200_0000, 100) == 23488102 && Fl(100 * 23488102) / 0x200_0000 == 70
  {
  }

  lemma Figure59()
    ensures Nearest(59 * 0x200_0000, 100) == 19797114 && Fl(100 * 19797114) / 0x200_0000 == 58
  {
  }

  lemma Figure164()
    ensures Nearest(164 * 0x200_0000, 100) == 55029268 && Fl(100 * 55029268) / 0x200_0000 == 164
  {
  }

  lemma Figure57()
    ensures Nearest(57 * 0x200_0000, 100) == 19126026
  {
  }

  lemma Figure58()
    ensures Nearest(58 * 0x200_0000, 100) == 19461570
  {
  }

  lemma Figure1()
    ensures Nearest(0x4000_0000, 100) == 10737418 && Fl(10737418) == 10737418
  {
  }

  lemma Difference50To70()
    ensures Fl(6710886) == 6710886 && Fl(671088600) == 671088576
  {
  }

  lemma Difference59To164()
    ensures Fl(35232154) == 35232152
  {
  }

  lemma Product59To164()
    ensures Fl(3523215200) == 3523215104
  {
  }

  lemma Difference57To58()
    ensures Fl(335544) == 335544
  {
  }

  lemma ChargeOf(h: nat, m: nat)
    requires h >= 25 && Nearest(h * 0x200_0000, 100) == m
    ensures Hundredths(h) == m * Pow2(124)
    ensures Percent(Hundredths(h)) == Fl(100 * m) / 0x200_0000
  {
    HundredthsAre(h);
    NotNegative(m);
    PercentScaled(Hundredths(h), m, Fl(100 * m));
  }

  lemma ChangeDelta(o: nat, n: nat, mem: int, enforce: bool, d: int)
    requires Hundredths(n) != 0 && Fl(Hundredths(n) - Hundredths(o)) == d
    ensures Change(o, n, mem, enforce).CpuDelta() == d
  {
  }

  /** The difference of two figures given in units of 2^-25, with `m` for the difference of the units, rounded. */
  lemma DeltaOf(o: nat, n: nat, low: nat, high: nat, m: nat, d: nat, mem: int, enforce: bool)
    requires Hundredths(o) == low * Pow2(124) && Hundredths(n) == high * Pow2(124) && low <= high && high > 0
    requires m == Fl(high - low) && d == m * Pow2(124)
    ensures Change(o, n, mem, enforce).CpuDelta() == d
  {
    DeltaScaled(Hundredths(n), Hundredths(o), high, low, m);
    Positive(high, Pow2(124));
    ChangeDelta(o, n, mem, enforce, d);
  }

  lemma Positive(a: nat, b: nat)
    requires a > 0 && b > 0
    ensures a * b > 0
  {
  }

  lemma AskedFor(r: Request, m: nat, d: nat, x: nat)
    requires r.CpuDelta() == d && d == m * Pow2(124) && x == Fl(100 * m)
    ensures r.Asked().cpu == x / 0x200_0000
  {
    PercentScaled(d, m, x);
  }

  lemma AskedFrom50(mem: int, enforce: bool)
    ensures Change(50, 70, mem, enforce).Asked().cpu == 19 && Percent(Hundredths(50)) == 50 && Percent(Hundredths(70)) == 70
  {
    Figure50();
    Figure70();
    Difference50To70();
    ChargeOf(50, 16777216);
    ChargeOf(70, 23488102);
    DeltaOf(50, 70, 16777216, 23488102, 6710886, 6710886 * Pow2(124), mem, enforce);
    AskedFor(Change(50, 70, mem, enforce), 6710886, 6710886 * Pow2(124), 671088576);
  }

  lemma ZeroPercent()
    ensures Percent(0) == 0
  {
    QuarterPercents(0);
    assert Quarters(0) == 0;
  }

  lemma NewFigure(o: nat, n: nat, mem: int, enforce: bool)
    requires n < 1_000_000 && Percent(Hundredths(n)) > 0
    ensures var r := Change(o, n, mem, enforce);
            r.NewCpu() == Hundredths(n) && Reread(r.NewCpu()) == Hundredths(n)
  {
    ZeroPercent();
    HundredthsSurvive(n);
  }

  /** From 0.5 to 0.7 CPUs the VM is charged 50 and then 70 percent, but the host gets only 19 more. */
  lemma HalfToSevenTenths(mem: int, enforce: bool)
    ensures var r := Change(50, 70, mem, enforce);
            && Requirements(r.ocpu, mem).cpu == 50 && Requirements(Reread(r.NewCpu()), mem).cpu == 70 && r.Asked().cpu == 19
            && !TruncationsAgree(r, Reread(r.NewCpu()))
  {
    AskedFrom50(mem, enforce);
    NewFigure(50, 70, mem, enforce);
    CpuTracks(Change(50, 70, mem, enforce), Hundredths(70));
  }

  lemma AskedFrom59(mem: int, enforce: bool)
    ensures Change(59, 164, mem, enforce).Asked().cpu == 104 && Percent(Hundredths(59)) == 58 && Percent(Hundredths(164)) == 164
  {
    Figure59();
    Figure164();
    Difference59To164();
    Product59To164();
    ChargeOf(59, 19797114);
    ChargeOf(164, 55029268);
    DeltaOf(59, 164, 19797114, 55029268, 35232152, 35232152 * Pow2(124), mem, enforce);
    AskedFor(Change(59, 164, mem, enforce), 35232152, 35232152 * Pow2(124), 3523215104);
  }

  /** Two percent off is possible: from 0.59 CPUs, which are charged 58 percent, to 1.64. */
  lemma TwoPercentIsReached(mem: int, enforce: bool)
    ensures var r := Change(59, 164, mem, enforce);
            && Requirements(r.ocpu, mem).cpu == 58 && Requirements(Reread(r.NewCpu()), mem).cpu == 164 && r.Asked().cpu == 104
  {
    AskedFrom59(mem, enforce);
    NewFigure(59, 164, mem, enforce);
  }

  lemma OneHundredth()
    ensures Hundredths(1) == 10737418 * Pow2(119) && Hundredths(2) == 10737418 * Pow2(120)
  {
    Figure1();
    Thirty();
    HundredthsScale(1, 119, Pow2(30));
    HundredthsScale(2, 120, 2 * Pow2(29));
  }

  lemma Thirty()
    ensures Pow2(30) == 2 * Pow2(29) == 0x4000_0000
  {
    Pow2Sum(15, 15);
    assert Pow2(15) == 32768;
  }

  lemma DeltaAt57(mem: int, enforce: bool)
    ensures Change(57, 58, mem, enforce).CpuDelta() == 335544 * Pow2(124)
  {
    Figure57();
    Figure58();
    HundredthsAre(57);
    HundredthsAre(58);
    Difference57To58();
    DeltaOf(57, 58, 19126026, 19461570, 335544, 335544 * Pow2(124), mem, enforce);
  }

  lemma RestoredAt57(mem: int, enforce: bool)
    ensures NextToNothing(Change(57, 58, mem, enforce).CpuDelta())
  {
    DeltaAt57(mem, enforce);
    OneScaled();
    Fewer(335544, Pow2(124));
  }

  lemma Fewer(m: nat, w: nat)
    requires w > 0 && 100 * m + 1 < 0x200_0000
    ensures 100 * (m * w) + w < 0x200_0000 * w
  {
    AtLeast(w, 100 * m + 2, 0x200_0000);
    assert w * (100 * m + 2) == 100 * (m * w) + 2 * w;
  }

  lemma DeltaAt1(mem: int, enforce: bool)
    ensures Change(1, 2, mem, enforce).CpuDelta() == 10737418 * Pow2(119)
  {
    OneHundredth();
    TwiceLess(10737418, 120);
    Figure1();
    FlScaled(10737418, 119);
    DeltaDoubled(1, 2, mem, enforce, 10737418 * Pow2(119));
  }

  lemma DeltaDoubled(o: nat, n: nat, mem: int, enforce: bool, x: nat)
    requires Hundredths(o) == x > 0 && Hundredths(n) == 2 * x && Fl(x) == x
    ensures Change(o, n, mem, enforce).CpuDelta() == x
  {
    ChangeDelta(o, n, mem, enforce, x);
  }

  lemma NotRestoredAt1(mem: int, enforce: bool)
    ensures !NextToNothing(Change(1, 2, mem, enforce).CpuDelta())
  {
    DeltaAt1(mem, enforce);
    UnitsOf119();
    OneScaled();
    TooMany(Pow2(119), Pow2(124), ONE);
  }

  lemma TooMany(u: nat, w: nat, one: nat)
    requires w == 32 * u && one == 0x200_0000 * w
    ensures 100 * (10737418 * u) + w >= one
  {
  }

  lemma MemoryStays(o: nat, n: nat, mem: int, enforce: bool)
    ensures Change(o, n, mem, enforce).MemDelta() == 0
  {
    WrapInt32(0);
  }

  /** By a hundredth of a CPU, whether a roll-back restores the counter depends on rounding: from 0.57 to 0.58 CPUs it
      does, from 0.01 to 0.02 it does not. */
  lemma HundredthEitherWay(s: Share, mem: int, enforce: bool, fate: Fate)
    requires s.usage.Fits() && fate != Resizable
    ensures Resized(s, Change(57, 58, mem, enforce), fate).usage == s.usage
    ensures !Refused(s, Change(1, 2, mem, enforce)) ==> Resized(s, Change(1, 2, mem, enforce), fate).usage != s.usage
  {
    RestoredAt57(mem, enforce);
    NotRestoredAt1(mem, enforce);
    MemoryStays(57, 58, mem, enforce);
    MemoryStays(1, 2, mem, enforce);
    PercentAt57(mem, enforce);
    PercentAt1(mem, enforce);
    if !Refused(s, Change(57, 58, mem, enforce)) {
      RollbackRestores(s, Change(57, 58, mem, enforce), fate);
    }
    if !Refused(s, Change(1, 2, mem, enforce)) {
      RollbackRestores(s, Change(1, 2, mem, enforce), fate);
    }
  }

  lemma PercentAt57(mem: int, enforce: bool)
    ensures Int32(Percent(Change(57, 58, mem, enforce).CpuDelta()))
  {
    DeltaAt57(mem, enforce);
    OneScaled();
    Less(335544, 0x200_0000, Pow2(124));
    SmallPercent(335544 * Pow2(124));
  }

  lemma PercentAt1(mem: int, enforce: bool)
    ensures Int32(Percent(Change(1, 2, mem, enforce).CpuDelta()))
  {
    DeltaAt1(mem, enforce);
    OneScaled();
    UnitsOf119();
    Less(10737418, 0x200_0000 * 32, Pow2(119));
    SmallPercent(10737418 * Pow2(119));
  }

  lemma Less(a: nat, b: nat, w: nat)
    requires a <= b
    ensures a * w <= b * w
  {
  }

  lemma SmallPercent(d: nat)
    requires d <= ONE
    ensures 0 <= Percent(d) <= 200
  {
    FlError(100 * d);
    NotNegative(d);
    SmallQuotient(Fl(100 * d), ONE);
  }

  lemma SmallQuotient(p: nat, one: nat)
    requires one > 0 && p <= 200 * one
    ensures 0 <= p / one <= 200
  {
    AtMostQuotient(p, one, 201);
  }

  lemma UnitsOf119()
    ensures Pow2(124) == 32 * Pow2(119) && Pow2(120) == 2 * Pow2(119)
  {
    Pow2Sum(5, 119);
  }
}
