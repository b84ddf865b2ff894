/** Powers of two and integer logarithms. */
module Powers {

  function Pow2(e: nat): (p: nat)
    ensures p > 0
  {
    if e == 0 then 1 else 2 * Pow2(e - 1)
  }

  /** The integer part of the base-2 logarithm. */
  function Log2(n: nat): nat {
    if n < 2 then 0 else 1 + Log2(n / 2)
  }

  lemma {:induction false} LogBounds(n: nat)
    requires n > 0
    ensures Pow2(Log2(n)) <= n < 2 * Pow2(Log2(n))
  {
    if n >= 2 {
      LogBounds(n / 2);
    }
  }

  lemma {:induction false} Pow2Grows(d: nat, e: nat)
    requires d < e
    ensures 2 * Pow2(d) <= Pow2(e)
  {
    if d + 1 < e {
      Pow2Grows(d, e - 1);
    }
  }

  lemma {:induction false} Pow2Sum(d: nat, e: nat)
    ensures Pow2(d + e) == Pow2(d) * Pow2(e)
  {
    if e > 0 {
      Pow2Sum(d, e - 1);
      assert d + e - 1 == d + (e - 1);
      Doubled(Pow2(d), Pow2(e - 1));
    }
  }

  lemma Doubled(a: nat, b: nat)
    ensures 2 * (a * b) == a * (2 * b)
  {
  }

  lemma {:induction false} LogUnique(n: nat, e: nat)
    requires Pow2(e) <= n < 2 * Pow2(e)
    ensures Log2(n) == e
  {
    LogBounds(n);
    if Log2(n) < e {
      Pow2Grows(Log2(n), e);
    } else if e < Log2(n) {
      Pow2Grows(e, Log2(n));
    }
  }
}
