/** The resize request: how it changes the capacity counters of the host of a powered-off VM, and how it takes the
    change back when the VM is gone or busy by the time it is fetched again. CPU figures are single-precision numbers. */
module Resize {
  import opened Ledger
  import opened Capacity
  import opened CapacityTheorems
  import opened Powers
  import opened Floats

  datatype Request = Request(ocpu: Float, ncpu: Float, omem: int, nmem: int, enforce: bool)
  {
    /** A zero in the request keeps the old value. */
    function NewCpu(): Float { if ncpu == 0 then ocpu else ncpu }
    function NewMem(): int { if nmem == 0 then omem else nmem }

    function CpuDelta(): int { Fl(NewCpu() - ocpu) }
    function MemDelta(): int { Wrap(NewMem() - omem) }

    /** What is put on the host: percent of a CPU and kilobytes. */
    function Asked(): Charge { Charge(Percent(CpuDelta()), Wrap(MemDelta() * 1024), 0) }

    /** What is put on the host to take the change back: the deltas themselves, in CPUs and megabytes. */
    function TakenBack(): Charge { Charge(Trunc(-CpuDelta()), Wrap(-MemDelta()), 0) }
  }

  /** How the VM is found on the second look. */
  datatype Fate = Resizable | Gone | Busy

  /** Division that rounds towards zero. */
  function Cut(x: int, one: nat): int
    requires one > 0
  {
    if x >= 0 then x / one else -(-x / one)
  }

  /** The conversion of a float to int. */
  function Trunc(x: int): int {
    Cut(x, ONE)
  }

  /** A float times a hundred, as an int. */
  function Percent(x: int): int {
    Trunc(Fl(100 * x))
  }

  /** The check of the request itself, made before anything is changed and again when the VM is resized. */
  predicate CheckResize(cpu: int, mem: int) {
    cpu >= 0 && mem >= 0
  }

  predicate Refused(s: Share, r: Request) {
    !CheckResize(r.NewCpu(), r.NewMem()) || (r.enforce && !Test(s, r.Asked()))
  }

  function Resized(s: Share, r: Request, fate: Fate): Share {
    if Refused(s, r) then s
    else if fate == Resizable then Update(s, r.Asked())
    else Update(Update(s, r.Asked()), r.TakenBack())
  }

  method Execute(host: Host, r: Request, fate: Fate) returns (ok: bool)
    modifies host.hostShare
    ensures host.hostShare.Now() == Resized(old(host.hostShare.Now()), r, fate)
    ensures ok <==> !Refused(old(host.hostShare.Now()), r) && fate == Resizable
  {
    var ocpu: int, ncpu: int := r.ocpu, r.ncpu;
    var omemory, nmemory := r.omem, r.nmem;
    if nmemory == 0 {
      nmemory := omemory;
    }
    if ncpu == 0 {
      ncpu := ocpu;
    }
    if !CheckResize(ncpu, nmemory) {
      return false;
    }
    var dcpu, dmemory := Fl(ncpu - ocpu), Wrap(nmemory - omemory);
    var dcpuHost, dmemHost := Percent(dcpu), Wrap(dmemory * 1024);
    AskedIs(r, dcpu, dmemory);
    if r.enforce && !host.hostShare.TestVm(dcpuHost, dmemHost, 0) {
      return false;
    }
    host.UpdateVm(dcpuHost, dmemHost, 0);
    if fate == Resizable {
      return true;
    }
    TakeBack(host, r, fate);
    return false;
  }

  lemma AskedIs(r: Request, dcpu: int, dmemory: int)
    requires dcpu == r.CpuDelta() && dmemory == r.MemDelta()
    ensures r.Asked() == Charge(Percent(dcpu), Wrap(dmemory * 1024), 0)
  {
  }

  method TakeBack(host: Host, r: Request, fate: Fate)
    requires fate != Resizable
    modifies host.hostShare
    ensures host.hostShare.Now() == Update(old(host.hostShare.Now()), r.TakenBack())
  {
    OtherWayRound(r);
    if fate == Gone {
      host.UpdateVm(Trunc(-r.CpuDelta()), Wrap(-r.MemDelta()), 0);
    } else {
      host.UpdateVm(Trunc(Fl(r.ocpu - r.NewCpu())), Wrap(r.omem - r.NewMem()), 0);
    }
  }

  /** The differences taken the other way round are the opposite ones. */
  lemma OtherWayRound(r: Request)
    ensures r.TakenBack() == Charge(Trunc(Fl(r.ocpu - r.NewCpu())), Wrap(r.omem - r.NewMem()), 0)
  {
    FlOpposite(r.NewCpu() - r.ocpu);
    assert -(r.NewCpu() - r.ocpu) == r.ocpu - r.NewCpu();
    WrapOpposite(r.NewMem() - r.omem);
  }

  lemma WrapOpposite(x: int)
    ensures Wrap(-Wrap(x)) == Wrap(-x)
  {
    WrapDifference(0, x);
    assert 0 - Wrap(x) == -Wrap(x) && 0 - x == -x;
  }

  lemma WrapDifference(x: int, y: int)
    ensures Wrap(Wrap(x) - Wrap(y)) == Wrap(x - y)
  {
    WrapPlus(x, -Wrap(y));
    var q := (y + 0x8000_0000) / 0x1_0000_0000;
    assert Wrap(y) == y - 0x1_0000_0000 * q;
    ModShift(x - y + 0x8000_0000, -q);
  }

  // ---------------------------------------------------------------------------------------------
  // Taking a change back
  // ---------------------------------------------------------------------------------------------

  /** Less than a hundredth of a CPU, and by more than the product with 100 is rounded. */
  predicate NextToNothing(cpu: int) {
    100 * (if cpu >= 0 then cpu else -cpu) + Pow2(124) < ONE
  }

  /** A number is rounded up to one exactly from half a spacing below one on. */
  lemma RoundedToOne(x: nat)
    ensures Fl(x) >= ONE <==> x + Pow2(124) >= ONE
  {
    OneIs();
    var w, t := Pow2(125), Pow2(124);
    var least := ONE - t;
    assert least == w * (SIGNIFICANDS - 1) + t;
    LastBelowOne(least, w, t);
    if x >= least {
      FlMonotone(least, x);
    } else {
      var most := least - 1;
      assert most == w * (SIGNIFICANDS - 1) + (t - 1);
      LastBelowOne(most, w, t - 1);
      FlMonotone(x, most);
    }
  }

  lemma LastBelowOne(n: nat, w: nat, r: nat)
    requires w == Pow2(125) && n == w * (SIGNIFICANDS - 1) + r && r < w
    ensures Fl(n) == if 2 * r < w then w * (SIGNIFICANDS - 1) else w * SIGNIFICANDS
  {
    SpacingIs(n, 125);
    DivisionIs(n, w, SIGNIFICANDS - 1, r);
    NearestWhole(n);
  }

  lemma PercentIsMore(cpu: nat)
    requires Representable(cpu)
    ensures Trunc(cpu) <= Percent(cpu)
    ensures Percent(cpu) == Trunc(cpu) <==> NextToNothing(cpu)
  {
    RoundedToOne(100 * cpu);
    if cpu >= ONE {
      DoubleIsRepresentable(cpu);
      FlExact(2 * cpu);
      FlMonotone(2 * cpu, 100 * cpu);
      TruncGrows(cpu, Fl(100 * cpu), ONE);
    } else {
      TruncZero(cpu, ONE);
      FlMonotone(0, 100 * cpu);
      TruncZero(Fl(100 * cpu), ONE);
    }
  }

  lemma TruncGrows(x: nat, y: nat, one: nat)
    requires one > 0 && x >= one && y >= 2 * x
    ensures y / one > x / one > 0
  {
    var f := x / one;
    AtMostQuotient(x, one, 1);
    assert x == one * f + x % one;
    assert one * (2 * f) == 2 * (one * f);
    AtMostQuotient(y, one, 2 * f);
  }

  lemma TruncZero(x: nat, one: nat)
    requires one > 0
    ensures x / one == 0 <==> x < one
  {
    AtMostQuotient(x, one, 1);
  }

  /** 1023 is invertible modulo 2^32. */
  lemma NoMultipleWraps(m: int)
    requires -0x1_0000_0000 < m < 0x1_0000_0000
    ensures Wrap(1023 * m) == 0 <==> m == 0
  {
    if Wrap(1023 * m) == 0 {
      var q := (1023 * m + 0x8000_0000) / 0x1_0000_0000;
      assert 1023 * m == 0x1_0000_0000 * q;
      var inv := 1 + 1024 + 1024 * 1024 + 1024 * 1024 * 1024;
      assert inv * 1023 == 256 * 0x1_0000_0000 - 1;
      assert m == 0x1_0000_0000 * (256 * m - inv * q);
    }
  }

  lemma SmallWrapZero(x: int)
    requires -0x1_0000_0000 < x < 0x1_0000_0000
    ensures Wrap(x) == 0 <==> x == 0
  {
  }

  lemma UpdateTwice(s: Share, a: Charge, b: Charge)
    requires s.usage.Fits()
    ensures Update(Update(s, a), b).usage == s.usage <==> a.Plus(b).Wrapped() == NOTHING
  {
    WrappedPlus(s.usage.Plus(a), b);
    WrappedPlus(s.usage, NOTHING);
    WrappedSame(s.usage, a.Plus(b));
    assert s.usage.Plus(a).Plus(b) == s.usage.Plus(a.Plus(b));
  }

  /** Taking the change back in other units than it was made in restores the counters exactly when there was next to
      nothing to take back. */
  lemma RollbackRestores(s: Share, r: Request, fate: Fate)
    requires s.usage.Fits() && !Refused(s, r) && fate != Resizable
    requires Int32(Percent(r.CpuDelta()))
    ensures Resized(s, r, fate).usage == s.usage <==> NextToNothing(r.CpuDelta()) && r.MemDelta() == 0
  {
    UpdateTwice(s, r.Asked(), r.TakenBack());
    NothingLeft(r);
  }

  lemma NothingLeft(r: Request)
    requires Int32(Percent(r.CpuDelta()))
    ensures r.Asked().Plus(r.TakenBack()).Wrapped() == NOTHING <==> NextToNothing(r.CpuDelta()) && r.MemDelta() == 0
  {
    DeltaCancels(r);
    MemCancels(r);
    ZeroParts(r.Asked().Plus(r.TakenBack()));
  }

  lemma DeltaCancels(r: Request)
    requires Int32(Percent(r.CpuDelta()))
    ensures Wrap(r.Asked().Plus(r.TakenBack()).cpu) == 0 <==> NextToNothing(r.CpuDelta())
  {
    DeltaRepresentable(r);
    CpuCancels(r.CpuDelta());
  }

  lemma DeltaRepresentable(r: Request)
    ensures Representable(r.CpuDelta())
  {
    FlRepresentable(r.NewCpu() - r.ocpu);
  }

  lemma ZeroParts(c: Charge)
    requires c.disk == 0
    ensures c.Wrapped() == NOTHING <==> Wrap(c.cpu) == 0 && Wrap(c.mem) == 0
  {
  }

  lemma MemCancels(r: Request)
    ensures Wrap(Wrap(r.MemDelta() * 1024) + Wrap(-r.MemDelta())) == 0 <==> r.MemDelta() == 0
  {
    MemDeltaInt32(r);
    BackAndForth(r.MemDelta());
    NoMultipleWraps(r.MemDelta());
  }

  lemma CpuCancels(d: int)
    requires Representable(d) && Int32(Percent(d))
    ensures Wrap(Percent(d) + Trunc(-d)) == 0 <==> NextToNothing(d)
  {
    TruncOpposite(d);
    PercentBeyond(d);
    SmallDifference(Percent(d), Trunc(d));
  }

  lemma SmallDifference(p: int, t: int)
    requires Int32(p) && (0 <= t <= p || p <= t <= 0)
    ensures Wrap(p - t) == 0 <==> p == t
  {
    SmallWrapZero(p - t);
  }

  lemma PercentBeyond(d: int)
    requires Representable(d)
    ensures 0 <= Trunc(d) <= Percent(d) || Percent(d) <= Trunc(d) <= 0
    ensures Percent(d) == Trunc(d) <==> NextToNothing(d)
  {
    if d >= 0 {
      PercentIsMore(d);
      TruncOpposite(d);
    } else {
      PercentOpposite(d);
      TruncOpposite(d);
      TruncOpposite(-d);
      PercentIsMore(-d);
    }
  }

  lemma PercentOpposite(d: int)
    ensures Percent(-d) == -Percent(d)
  {
    FlOpposite(100 * d);
    assert 100 * -d == -(100 * d);
    TruncOpposite(Fl(100 * d));
  }

  lemma TruncOpposite(x: int)
    ensures Trunc(-x) == -Trunc(x)
    ensures x >= 0 ==> Trunc(x) >= 0
  {
    CutOpposite(x, ONE);
  }

  lemma CutOpposite(x: int, one: nat)
    requires one > 0
    ensures Cut(-x, one) == -Cut(x, one)
    ensures x >= 0 ==> Cut(x, one) >= 0
  {
  }

  lemma MemDeltaInt32(r: Request)
    ensures Int32(r.MemDelta())
  {
    WrapInt32(r.NewMem() - r.omem);
  }

  lemma BackAndForth(m: int)
    ensures Wrap(Wrap(m * 1024) + Wrap(-m)) == Wrap(1023 * m)
  {
    WrapPlus(-m, Wrap(m * 1024));
    WrapPlus(m * 1024, -m);
    assert m * 1024 - m == 1023 * m;
  }

  /** What is left on the host after the change was taken back: the percentage less the whole CPUs of the difference,
      and 1023 times the memory. */
  lemma RollbackLeaves(s: Share, r: Request, fate: Fate)
    requires !Refused(s, r) && fate != Resizable
    ensures Resized(s, r, fate).usage
         == s.usage.Plus(Charge(Percent(r.CpuDelta()) - Trunc(r.CpuDelta()), 1023 * r.MemDelta(), 0)).Wrapped()
    ensures Resized(s, r, fate).running == s.running && Resized(s, r, fate).max == s.max
  {
    WrappedPlus(s.usage.Plus(r.Asked()), r.TakenBack());
    LeftOfCharges(s.usage, r.Asked(), r.TakenBack(), r);
  }

  lemma LeftOfCharges(u: Charge, asked: Charge, back: Charge, r: Request)
    requires asked == r.Asked() && back == r.TakenBack()
    ensures u.Plus(asked).Plus(back).Wrapped()
         == u.Plus(Charge(Percent(r.CpuDelta()) - Trunc(r.CpuDelta()), 1023 * r.MemDelta(), 0)).Wrapped()
  {
    TruncOpposite(r.CpuDelta());
    LeftOfMemory(u.mem, r.MemDelta());
    assert asked.cpu + back.cpu == Percent(r.CpuDelta()) - Trunc(r.CpuDelta());
    assert u.cpu + asked.cpu + back.cpu == u.cpu + (Percent(r.CpuDelta()) - Trunc(r.CpuDelta()));
  }

  lemma LeftOfMemory(u: int, m: int)
    ensures Wrap(u + Wrap(m * 1024) + Wrap(-m)) == Wrap(u + 1023 * m)
  {
    BackAndForth(m);
    WrapPlus(Wrap(m * 1024) + Wrap(-m), u);
    WrapPlus(1023 * m, u);
  }

  /** `c` ones are the most that fit between zero and `x`. */
  predicate Truncates(x: int, one: nat, c: int) {
    if x >= 0 then 0 <= c && one * c <= x < one * (c + 1) else c <= 0 && one * (c - 1) < x <= one * c
  }

  /** A float is converted to the nearest int between it and zero. */
  lemma TruncIs(x: int)
    ensures Truncates(x, ONE, Trunc(x))
  {
    CutTruncates(x, ONE);
  }

  lemma CutTruncates(x: int, one: nat)
    requires one > 0
    ensures Truncates(x, one, Cut(x, one))
  {
    if x >= 0 {
      CutAbove(x, one, Cut(x, one));
    } else {
      CutBelow(x, one, Cut(x, one));
    }
  }

  lemma CutAbove(x: nat, one: nat, c: int)
    requires one > 0 && c == Cut(x, one)
    ensures 0 <= c && one * c <= x < one * (c + 1)
  {
    QuotientBetween(x, one);
  }

  lemma CutBelow(x: int, one: nat, c: int)
    requires one > 0 && x < 0 && c == Cut(x, one)
    ensures c <= 0 && one * (c - 1) < x <= one * c
  {
    var n := -x;
    QuotientBetween(n, one);
    Negated(x, one, n / one);
  }

  lemma QuotientBetween(n: nat, one: nat)
    requires one > 0
    ensures one * (n / one) <= n < one * (n / one + 1)
  {
    assert n == one * (n / one) + n % one;
    assert one * (n / one + 1) == one * (n / one) + one;
  }

  lemma Negated(x: int, one: nat, f: int)
    requires one * f <= -x < one * (f + 1)
    ensures one * (-f - 1) < x <= one * -f
  {
    assert one * -f == -(one * f) && one * (-f - 1) == -(one * (f + 1));
  }

  // ---------------------------------------------------------------------------------------------
  // The change on the host and the change of the VM's requirements
  // ---------------------------------------------------------------------------------------------

  /** What a VM is charged for: the percentage and kilobytes computed from its CPU and MEMORY attributes. */
  function Requirements(cpu: int, mem: int): Charge {
    Charge(Percent(cpu), Wrap(mem * 1024), 0)
  }

  /** The new CPU figure is stored as text. Read back as `back`, it is charged in percent with a fraction dropped, as
      is the difference put on the host. The fractions dropped, and what rounding did to the difference, do not add up
      to a whole percent. */
  predicate TruncationsAgree(r: Request, back: Float)
    requires r.ocpu >= 0 && back >= 0
  {
    var asked, n, o := Fl(100 * r.CpuDelta()), Fl(100 * back), Fl(100 * r.ocpu);
    NotNegative(back);
    NotNegative(r.ocpu);
    if asked >= 0 then 0 <= Dropped(asked, n, o, ONE) < ONE else -1 * ONE < Dropped(asked, n, o, ONE) <= 0
  }

  lemma NotNegative(x: nat)
    ensures Fl(100 * x) >= 0
  {
  }

  /** The fractions of `n` and `o`, and the error of `d` for their difference. */
  function Dropped(d: int, n: nat, o: nat, one: nat): int
    requires one > 0
  {
    n % one - o % one + (d - (n - o))
  }

  lemma DroppedIs(d: int, n: nat, o: nat, one: nat)
    requires one > 0
    ensures d == Dropped(d, n, o, one) + one * (n / one - o / one)
  {
    var f, g := n / one, o / one;
    assert n == one * f + n % one && o == one * g + o % one;
    assert one * (f - g) == one * f - one * g;
  }

  lemma QuotientIs(d: nat, one: nat, k: int, e: int, j: int)
    requires one > 0 && j >= 0 && d == e + one * k
    ensures d / one == k <==> 0 <= e < one
    ensures -(one * j) < e < one * j ==> k - j <= d / one < k + j
  {
    var f := d / one;
    assert d == one * f + d % one;
    assert e == one * (f - k) + d % one by {
      assert one * (f - k) == one * f - one * k;
    }
    Multiples(one, f - k, 0);
    Multiples(one, f - k, 1);
    Multiples(one, f - k, j);
    Multiples(one, f - k, -j - 1);
    assert one * (-j - 1) == -(one * j) - one;
  }

  lemma Multiples(one: nat, a: int, b: int)
    requires one > 0
    ensures a >= b ==> one * a >= one * b
    ensures a < b ==> one * a <= one * b - one
  {
    if a < b {
      AtLeast(one, a + 1, b);
      assert one * (a + 1) == one * a + one;
    } else {
      AtLeast(one, b, a);
    }
  }

  /** The quotient is `k` plus what the rest `e` makes of it: less than `j` ones, at most `j`. */
  lemma CutIs(d: int, e: int, k: int, one: nat, j: int)
    requires one > 0 && j >= 0 && d == e + one * k
    ensures Cut(d, one) == k <==> if d >= 0 then 0 <= e < one else -1 * one < e <= 0
    ensures -(one * j) < e < one * j ==> -j <= Cut(d, one) - k <= j
  {
    if d >= 0 {
      QuotientIs(d, one, k, e, j);
    } else {
      assert one * -k == -(one * k);
      QuotientIs(-d, one, -k, -e, j);
    }
  }

  lemma CpuTracks(r: Request, back: Float)
    requires r.ocpu >= 0 && back >= 0
    ensures Percent(r.CpuDelta()) == Percent(back) - Percent(r.ocpu) <==> TruncationsAgree(r, back)
  {
    var asked, n, o := Fl(100 * r.CpuDelta()), Fl(100 * back), Fl(100 * r.ocpu);
    NotNegative(back);
    NotNegative(r.ocpu);
    DroppedIs(asked, n, o, ONE);
    CutIs(asked, Dropped(asked, n, o, ONE), n / ONE - o / ONE, ONE, 1);
  }

  /** Where nothing is rounded, the truncations agree when the greater figure has the greater fraction of a percent. */
  lemma AgreementIsOrder(r: Request)
    requires r.ocpu >= 0 && r.NewCpu() >= 0
    requires Representable(r.NewCpu() - r.ocpu) && Representable(100 * (r.NewCpu() - r.ocpu))
    requires Representable(100 * r.NewCpu()) && Representable(100 * r.ocpu)
    ensures TruncationsAgree(r, r.NewCpu())
            <==> if r.NewCpu() >= r.ocpu then 100 * r.NewCpu() % ONE >= 100 * r.ocpu % ONE
                 else 100 * r.NewCpu() % ONE <= 100 * r.ocpu % ONE
  {
    FlExact(r.NewCpu() - r.ocpu);
    FlExact(100 * (r.NewCpu() - r.ocpu));
    FlExact(100 * r.NewCpu());
    FlExact(100 * r.ocpu);
    OrderOfFractions(100 * r.NewCpu(), 100 * r.ocpu, ONE);
  }

  lemma OrderOfFractions(n: nat, o: nat, one: nat)
    requires one > 0
    ensures 0 <= Dropped(n - o, n, o, one) < one <==> n % one >= o % one
    ensures -1 * one < Dropped(n - o, n, o, one) <= 0 <==> n % one <= o % one
  {
  }

  /** A resize moves the counters by the change of what the VM is charged for: the memory counter always (modulo
      2^32), the CPU counter exactly when the truncations agree. */
  lemma ResizeTracksRequirements(r: Request, back: Float)
    requires r.ocpu >= 0 && back >= 0
    ensures var change := Requirements(back, r.NewMem()).Minus(Requirements(r.ocpu, r.omem));
            && (r.Asked().cpu == change.cpu <==> TruncationsAgree(r, back))
            && r.Asked().mem == Wrap(change.mem) && r.Asked().disk == change.disk == 0
  {
    CpuTracks(r, back);
    Kilobytes(r.NewMem(), r.omem);
  }

  lemma Kilobytes(n: int, o: int)
    ensures Wrap(Wrap(n - o) * 1024) == Wrap(Wrap(n * 1024) - Wrap(o * 1024))
  {
    var d := n - o;
    var q := (d + 0x8000_0000) / 0x1_0000_0000;
    assert Wrap(d) == d - 0x1_0000_0000 * q;
    assert Wrap(d) * 1024 + 0x8000_0000 == d * 1024 + 0x8000_0000 - 0x1_0000_0000 * (1024 * q);
    ModShift(d * 1024 + 0x8000_0000, 1024 * q);
    WrapPlus(n * 1024, -Wrap(o * 1024));
    WrapDifference(n * 1024, o * 1024);
    assert d * 1024 == n * 1024 - o * 1024;
  }

  /** What is left on the host of a VM that was charged, resized, and deleted with its new requirements. */
  function Left(r: Request, back: int): Charge {
    Requirements(r.ocpu, r.omem).Plus(r.Asked()).Minus(Requirements(back, r.NewMem()))
  }

  lemma LeftCpu(r: Request, back: Float)
    requires r.ocpu >= 0 && back >= 0
    ensures Left(r, back).cpu == 0 <==> TruncationsAgree(r, back)
  {
    CpuTracks(r, back);
  }

  lemma LeftMem(r: Request, back: int)
    ensures Left(r, back).disk == 0 && Wrap(Left(r, back).mem) == 0
  {
    MemLeft(r.omem, r.NewMem());
  }

  lemma MemLeft(o: int, n: int)
    ensures Wrap(Wrap(o * 1024) + Wrap(Wrap(n - o) * 1024) - Wrap(n * 1024)) == 0
  {
    Kilobytes(n, o);
    LeftOver(Wrap(o * 1024), Wrap(n * 1024));
  }

  lemma LeftOver(o: int, n: int)
    ensures Wrap(o + Wrap(n - o) - n) == 0
  {
    WrapPlus(n - o, o - n);
    assert Wrap(n - o) + (o - n) == o + Wrap(n - o) - n;
    assert n - o + (o - n) == 0;
  }

  lemma DriftAfter(a: Account, vm: int, asked: Charge, returned: Charge)
    requires vm in a.book
    ensures Step(Step(a, ResizeOp(vm, asked)), DelOp(vm, returned)).drift
         == a.drift.Plus(a.book[vm].Plus(asked).Minus(returned))
  {
    var mid := Step(a, ResizeOp(vm, asked));
    assert mid.book[vm] == a.book[vm].Plus(asked);
    assert mid.drift == a.drift;
  }

  lemma PercentNotNegative(x: nat)
    ensures Percent(x) >= 0
  {
    NotNegative(x);
    TruncOpposite(Fl(100 * x));
  }

  /** A VM that is charged what it requires, is resized, and is deleted with what it then requires, leaves the
      counters of its host as exact as they were when and only when the truncations agree. */
  lemma ResizeThenDelete(a: Account, vm: int, r: Request, back: Float)
    requires vm in a.book && a.book[vm] == Requirements(r.ocpu, r.omem)
    requires r.ocpu >= 0 && back >= 0
    requires Int32(Percent(r.ocpu)) && Int32(Percent(back)) && Int32(Percent(r.CpuDelta()))
    ensures var after := Step(Step(a, ResizeOp(vm, r.Asked())), DelOp(vm, Requirements(back, r.NewMem())));
            after.drift.Wrapped() == a.drift.Wrapped() <==> TruncationsAgree(r, back)
  {
    LeftCpu(r, back);
    LeftMem(r, back);
    PercentNotNegative(r.ocpu);
    PercentNotNegative(back);
    SmallWrapZero(Left(r, back).cpu);
    ZeroParts(Left(r, back));
    DriftAfter(a, vm, r.Asked(), Requirements(back, r.NewMem()));
    WrappedSame(a.drift, Left(r, back));
  }

  // ---------------------------------------------------------------------------------------------
  // A resize that succeeds
  // ---------------------------------------------------------------------------------------------

  /** The figures asked for, a zero keeping the old one. */
  lemma NewFigures(r: Request)
    ensures r.ncpu != 0 ==> r.NewCpu() == r.ncpu
    ensures r.ncpu == 0 ==> r.NewCpu() == r.ocpu
    ensures r.nmem != 0 ==> r.NewMem() == r.nmem
    ensures r.nmem == 0 ==> r.NewMem() == r.omem
  {
  }

  lemma WrapsAlike(u: int, x: int, y: int)
    requires -0x1_0000_0000 < x - y < 0x1_0000_0000
    ensures Wrap(u + x) == Wrap(u + y) <==> x == y
  {
    WrapSame(u + y, x - y);
    SmallWrapZero(x - y);
    assert u + y + (x - y) == u + x;
  }

  /** A resize that succeeds leaves the host with its usage plus the change of what the VM is charged for, in 32-bit
      arithmetic: memory always, CPU exactly when the truncations agree; and nothing else changes. */
  lemma SuccessCharges(s: Share, r: Request, back: Float)
    requires !Refused(s, r) && r.ocpu >= 0 && back >= 0
    requires Int32(Percent(r.ocpu)) && Int32(Percent(back)) && Int32(Percent(r.CpuDelta()))
    ensures var s', was, now := Resized(s, r, Resizable), Requirements(r.ocpu, r.omem), Requirements(back, r.NewMem());
            && s'.usage.mem == Wrap(s.usage.mem + (now.mem - was.mem))
            && s'.usage.disk == Wrap(s.usage.disk)
            && (s'.usage.cpu == Wrap(s.usage.cpu + (now.cpu - was.cpu)) <==> TruncationsAgree(r, back))
            && s'.running == s.running && s'.max == s.max
  {
    SuccessCpu(s, r, back);
    SuccessMem(s, r, back);
  }

  lemma SuccessCpu(s: Share, r: Request, back: Float)
    requires !Refused(s, r) && r.ocpu >= 0 && back >= 0
    requires Int32(Percent(r.ocpu)) && Int32(Percent(back)) && Int32(Percent(r.CpuDelta()))
    ensures Resized(s, r, Resizable).usage.cpu == Wrap(s.usage.cpu + (Percent(back) - Percent(r.ocpu)))
            <==> TruncationsAgree(r, back)
  {
    CpuTracks(r, back);
    PercentNotNegative(r.ocpu);
    PercentNotNegative(back);
    WrapsAlike(s.usage.cpu, Percent(r.CpuDelta()), Percent(back) - Percent(r.ocpu));
  }

  lemma SuccessMem(s: Share, r: Request, back: int)
    requires !Refused(s, r)
    ensures var change := Requirements(back, r.NewMem()).mem - Requirements(r.ocpu, r.omem).mem;
            Resized(s, r, Resizable).usage.mem == Wrap(s.usage.mem + change)
  {
    Kilobytes(r.NewMem(), r.omem);
    WrapPlus(Requirements(back, r.NewMem()).mem - Requirements(r.ocpu, r.omem).mem, s.usage.mem);
  }

  /** When a request on a host within its limits is refused: when a figure is negative, or, if capacity is enforced, when
      the host would get over a limit; and so an enforced resize that succeeds leaves it within. */
  lemma RefusedWhen(s: Share, r: Request)
    requires s.max.Fits() && NOTHING.AtMost(s.usage) && s.usage.AtMost(s.max)
    ensures Refused(s, r) <==> (r.NewCpu() < 0 || r.NewMem() < 0 || (r.enforce && !s.usage.Plus(r.Asked()).AtMost(s.max)))
    ensures r.enforce && !Refused(s, r) && Int32(r.Asked().cpu) ==>
              Resized(s, r, Resizable).usage == s.usage.Plus(r.Asked())
              && Resized(s, r, Resizable).usage.AtMost(s.max)
  {
    TestIsExact(s, r.Asked());
    if r.enforce && !Refused(s, r) && Int32(r.Asked().cpu) {
      WrapInt32(s.usage.cpu + r.Asked().cpu);
      WrapInt32(r.MemDelta() * 1024);
      WrapInt32(s.usage.mem + r.Asked().mem);
      WrapInt32(s.usage.disk);
    }
  }

  /** A refused request changes nothing, whatever becomes of the VM. */
  lemma RefusedChangesNothing(s: Share, r: Request, fate: Fate)
    ensures Refused(s, r) ==> Resized(s, r, fate) == s
  {
  }
}
