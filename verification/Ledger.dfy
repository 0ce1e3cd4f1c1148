/** 32-bit arithmetic and sums of charges. */
module Ledger {

  /** The value a two's-complement 32-bit int holds after arithmetic whose unbounded result is `x`. */
  function Wrap(x: int): int {
    (x + 0x8000_0000) % 0x1_0000_0000 - 0x8000_0000
  }

  predicate Int32(x: int) {
    -0x8000_0000 <= x < 0x8000_0000
  }

  lemma WrapInt32(x: int)
    ensures Int32(Wrap(x))
    ensures Wrap(x) == x <==> Int32(x)
  {
  }

  /** The value differs from the unbounded result by a multiple of 2^32, and is in the range of a 32-bit int. */
  lemma WrapIs(x: int)
    ensures (x - Wrap(x)) % 0x1_0000_0000 == 0
    ensures -0x8000_0000 <= Wrap(x) <= 0x7fff_ffff
  {
    var q := (x + 0x8000_0000) / 0x1_0000_0000;
    assert x - Wrap(x) == 0x1_0000_0000 * q;
  }

  lemma WrapPlus(x: int, y: int)
    ensures Wrap(Wrap(x) + y) == Wrap(x + y)
  {
    var q := (x + 0x8000_0000) / 0x1_0000_0000;
    assert Wrap(x) == x - 0x1_0000_0000 * q;
    ModShift(x + y + 0x8000_0000, q);
  }

  lemma ModShift(x: int, q: int)
    ensures (x - 0x1_0000_0000 * q) % 0x1_0000_0000 == x % 0x1_0000_0000
  {
  }

  lemma WrapSame(x: int, d: int)
    ensures Wrap(x + d) == Wrap(x) <==> Wrap(d) == 0
  {
    WrapPlus(d, x);
    WrapInt32(x);
    var q := (x + d + 0x8000_0000) / 0x1_0000_0000 - (x + 0x8000_0000) / 0x1_0000_0000;
    assert Wrap(x + d) - Wrap(x) == d - 0x1_0000_0000 * q;
    if Wrap(x + d) == Wrap(x) {
      assert d == 0x1_0000_0000 * q;
      ModShift(d + 0x8000_0000, q);
    }
  }

  /** An amount of each of the three resources. */
  datatype Charge = Charge(cpu: int, mem: int, disk: int)
  {
    function Plus(c: Charge): Charge { Charge(cpu + c.cpu, mem + c.mem, disk + c.disk) }
    function Minus(c: Charge): Charge { Charge(cpu - c.cpu, mem - c.mem, disk - c.disk) }
    function Wrapped(): Charge { Charge(Wrap(cpu), Wrap(mem), Wrap(disk)) }
    predicate AtMost(c: Charge) { cpu <= c.cpu && mem <= c.mem && disk <= c.disk }
    predicate Fits() { Int32(cpu) && Int32(mem) && Int32(disk) }
  }

  const NOTHING := Charge(0, 0, 0)

  lemma WrappedPlus(a: Charge, b: Charge)
    ensures a.Wrapped().Plus(b).Wrapped() == a.Plus(b).Wrapped()
    ensures a.Wrapped().Fits() && (a.Wrapped() == a <==> a.Fits())
  {
    WrapPlus(a.cpu, b.cpu);
    WrapPlus(a.mem, b.mem);
    WrapPlus(a.disk, b.disk);
    WrapInt32(a.cpu);
    WrapInt32(a.mem);
    WrapInt32(a.disk);
  }

  lemma WrappedMinus(a: Charge, b: Charge)
    ensures a.Wrapped().Minus(b).Wrapped() == a.Minus(b).Wrapped()
  {
    var minus := NOTHING.Minus(b);
    WrappedPlus(a, minus);
    assert a.Wrapped().Plus(minus) == a.Wrapped().Minus(b) && a.Plus(minus) == a.Minus(b);
  }

  lemma WrappedSame(a: Charge, d: Charge)
    ensures a.Plus(d).Wrapped() == a.Wrapped() <==> d.Wrapped() == NOTHING
  {
    WrapSame(a.cpu, d.cpu);
    WrapSame(a.mem, d.mem);
    WrapSame(a.disk, d.disk);
  }

  function Without<V>(m: map<int, V>, k: int): (r: map<int, V>)
    ensures r.Keys == m.Keys - {k} && forall j | j in r :: r[j] == m[j]
  {
    m - {k}
  }

  /** The sum of all charges in `m`. */
  ghost function Sum(m: map<int, Charge>): Charge
    decreases m.Keys
  {
    if exists k :: k in m then
      var k :| k in m;
      m[k].Plus(Sum(Without(m, k)))
    else
      NOTHING
  }

  /** The sum does not depend on the order: any key can be taken out first. */
  lemma {:induction false} SumTake(m: map<int, Charge>, k: int)
    requires k in m
    ensures Sum(m) == m[k].Plus(Sum(Without(m, k)))
    decreases m.Keys
  {
    var j :| j in m && Sum(m) == m[j].Plus(Sum(Without(m, j)));
    if j != k {
      assert k in Without(m, j) && j in Without(m, k);
      SumTake(Without(m, j), k);
      SumTake(Without(m, k), j);
      var rest := Without(Without(m, j), k);
      assert rest == Without(Without(m, k), j);
      assert m[j].Plus(m[k].Plus(Sum(rest))) == m[k].Plus(m[j].Plus(Sum(rest)));
    }
  }

  lemma SumPut(m: map<int, Charge>, k: int, c: Charge)
    ensures Sum(m[k := c]) == Sum(m).Minus(if k in m then m[k] else NOTHING).Plus(c)
  {
    SumTake(m[k := c], k);
    assert Without(m[k := c], k) == Without(m, k);
    if k in m {
      SumTake(m, k);
    } else {
      assert Without(m, k) == m;
    }
  }

  lemma SumDrop(m: map<int, Charge>, k: int)
    ensures Sum(Without(m, k)) == Sum(m).Minus(if k in m then m[k] else NOTHING)
  {
    if k in m {
      SumTake(m, k);
    } else {
      assert Without(m, k) == m;
    }
  }

  lemma {:induction false} SumNonNegative(m: map<int, Charge>)
    requires forall k | k in m :: NOTHING.AtMost(m[k])
    ensures NOTHING.AtMost(Sum(m))
    decreases m.Keys
  {
    if k :| k in m {
      SumTake(m, k);
      SumNonNegative(Without(m, k));
    }
  }

  /** Sums of entries that agree modulo 2^32 agree modulo 2^32. */
  lemma {:induction false} SumCongruent(m: map<int, Charge>, n: map<int, Charge>)
    requires m.Keys == n.Keys
    requires forall k | k in m :: m[k].Wrapped() == n[k].Wrapped()
    ensures Sum(m).Wrapped() == Sum(n).Wrapped()
    decreases m.Keys
  {
    if k :| k in m {
      SumTake(m, k);
      SumTake(n, k);
      SumCongruent(Without(m, k), Without(n, k));
      PlusCongruent(m[k], Sum(Without(m, k)), n[k], Sum(Without(n, k)));
    }
  }

  lemma PlusCongruent(a: Charge, b: Charge, c: Charge, d: Charge)
    requires a.Wrapped() == c.Wrapped() && b.Wrapped() == d.Wrapped()
    ensures a.Plus(b).Wrapped() == c.Plus(d).Wrapped()
  {
    WrappedPlus(a, b);
    WrappedPlus(c, d);
    WrappedPlus(b, a.Wrapped());
    WrappedPlus(d, a.Wrapped());
    assert a.Wrapped().Plus(b) == b.Plus(a.Wrapped()) && a.Wrapped().Plus(d) == d.Plus(a.Wrapped());
  }
}
