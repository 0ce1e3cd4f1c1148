/** Powers of two, ten and 256, and quotients. */
module Powers {

  function Pow2(k: nat): nat
    ensures Pow2(k) > 0
  {
    if k == 0 then 1 else 2 * Pow2(k - 1)
  }

  function Pow256(k: nat): nat
    ensures Pow256(k) > 0
  {
    if k == 0 then 1 else 256 * Pow256(k - 1)
  }

  function Pow10(k: nat): nat
    ensures Pow10(k) > 0
  {
    if k == 0 then 1 else 10 * Pow10(k - 1)
  }

  lemma {:induction false} Pow10Sum(j: nat, k: nat)
    ensures Pow10(j + k) == Pow10(j) * Pow10(k)
  {
    if j > 0 {
      Pow10Sum(j - 1, k);
      Regroup(10, Pow10(j - 1), Pow10(k));
    }
  }

  lemma {:induction false} Pow2Sum(j: nat, k: nat)
    ensures Pow2(j + k) == Pow2(j) * Pow2(k)
  {
    if j > 0 {
      Pow2Sum(j - 1, k);
      Regroup(2, Pow2(j - 1), Pow2(k));
    }
  }

  lemma Regroup(a: nat, b: nat, c: nat)
    ensures a * (b * c) == (a * b) * c
  {
  }

  /** Quotient and remainder are what they should be. */
  lemma DivisionIs(n: nat, w: nat, k: nat, r: nat)
    requires w > 0 && n == w * k + r && r < w
    ensures n / w == k && n % w == r
  {
    var f := n / w;
    assert n == w * f + n % w;
    if f > k {
      AtLeast(w, k + 1, f);
      assert false;
    }
    if f < k {
      AtLeast(w, f + 1, k);
      assert false;
    }
  }

  lemma AtLeast(w: nat, a: int, b: int)
    requires a <= b
    ensures w * a <= w * b
  {
  }

  lemma AtMostQuotient(n: nat, w: nat, k: nat)
    requires w > 0
    ensures k <= n / w <==> w * k <= n
  {
    var f := n / w;
    assert n == w * f + n % w;
    if k <= f {
      AtLeast(w, k, f);
    } else {
      AtLeast(w, f + 1, k);
    }
  }
}
