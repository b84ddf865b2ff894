/** Order of products and quotients. */
module Products {

  lemma MulMono(x: int, y: int, k: nat)
    requires x <= y
    ensures x * k <= y * k
  {
  }

  lemma MulMonoStrict(x: int, y: int, k: nat)
    requires x < y && k > 0
    ensures x * k < y * k
  {
  }

  lemma AtMostQuotient(x: nat, p: nat, y: nat)
    requires p > 0 && x * p <= y
    ensures x <= y / p
  {
    if x >= y / p + 1 {
      MulMono(y / p + 1, x, p);
    }
  }

  lemma DivMono(x: nat, y: nat, p: nat)
    requires p > 0 && x <= y
    ensures x / p <= y / p
  {
    AtMostQuotient(x / p, p, y);
  }

  /** x scaled by p/q, rounded down. */
  function Share(x: nat, p: nat, q: nat): nat
    requires q > 0
  {
    x * p / q
  }

  lemma ShareMono(x: nat, y: nat, p: nat, q: nat)
    requires q > 0 && x <= y
    ensures Share(x, p, q) <= Share(y, p, q)
  {
    MulMono(x, y, p);
    DivMono(x * p, y * p, q);
  }

  lemma OneMore(n: nat, less: nat, more: nat)
    requires less <= more
    ensures n * less + more <= (n + 1) * more
  {
    MulMono(less, more, n);
  }
}
