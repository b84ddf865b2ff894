/** Conversion of unsigned integers to IEEE 754 single precision: round to nearest, ties to even. */
module Float32 {
  import opened Powers

  /** q * u + r, with r < u, rounded to the nearest multiple of u; of two equally near, to the even one. */
  function Nearest(q: nat, r: nat, u: nat): nat {
    if 2 * r < u || (2 * r == u && q % 2 == 0) then q * u else q * u + u
  }

  function RoundTo(h: nat, u: nat): nat
    requires u > 0
  {
    Nearest(h / u, h % u, u)
  }

  /** A float32 has 24 significant bits. */
  function ToFloat32(h: nat): nat {
    if Log2(h) < 24 then h else RoundTo(h, Pow2(Log2(h) - 23))
  }

  lemma ScaleMonotone(p: nat, q: nat, u: nat)
    requires p < q
    ensures p * u + u <= q * u
  {
    assert (q - p - 1) * u >= 0;
    assert q * u == p * u + u + (q - p - 1) * u;
  }

  lemma NearestMonotone(p: nat, r: nat, q: nat, s: nat, u: nat)
    requires r < u && s < u && p * u + r <= q * u + s
    ensures Nearest(p, r, u) <= Nearest(q, s, u)
  {
    if q < p {
      ScaleMonotone(q, p, u);
    } else if p < q {
      ScaleMonotone(p, q, u);
    }
  }

  lemma RoundMonotone(a: nat, b: nat, u: nat)
    requires a <= b && u > 0
    ensures RoundTo(a, u) <= RoundTo(b, u)
  {
    NearestMonotone(a / u, a % u, b / u, b % u, u);
  }

  lemma NearestWithin(q: nat, r: nat, m: nat, u: nat)
    requires r < u && m * u <= q * u + r < 2 * (m * u)
    ensures m * u <= Nearest(q, r, u) <= 2 * (m * u)
  {
    assert 2 * (m * u) == (2 * m) * u;
    if q < m {
      ScaleMonotone(q, m, u);
    } else if q < 2 * m {
      ScaleMonotone(q, 2 * m, u);
      if m < q {
        ScaleMonotone(m, q, u);
      }
    } else if 2 * m < q {
      ScaleMonotone(2 * m, q, u);
    }
  }

  lemma RoundWithin(h: nat, m: nat, u: nat)
    requires u > 0 && m * u <= h < 2 * (m * u)
    ensures m * u <= RoundTo(h, u) <= 2 * (m * u)
  {
    NearestWithin(h / u, h % u, m, u);
  }

  /** Between powers of two: the conversion does not leave [2^e, 2^(e+1)]. */
  lemma {:induction false} Float32Within(h: nat)
    requires h > 0
    ensures Pow2(Log2(h)) <= ToFloat32(h) <= 2 * Pow2(Log2(h))
  {
    LogBounds(h);
    if Log2(h) >= 24 {
      Pow2Sum(23, Log2(h) - 23);
      RoundWithin(h, Pow2(23), Pow2(Log2(h) - 23));
    }
  }

  /** The conversion keeps the order, not strictly. */
  lemma Float32Monotone(a: nat, b: nat)
    requires a <= b
    ensures ToFloat32(a) <= ToFloat32(b)
  {
    if a > 0 {
      LogBounds(a);
      LogBounds(b);
      Float32Within(a);
      Float32Within(b);
      if Log2(b) < Log2(a) {
        Pow2Grows(Log2(b), Log2(a));
      } else if Log2(a) < Log2(b) {
        Pow2Grows(Log2(a), Log2(b));
      } else if Log2(a) >= 24 {
        RoundMonotone(a, b, Pow2(Log2(a) - 23));
      }
    }
  }

  lemma Pow2Of24()
    ensures Pow2(24) == 0x100_0000 && Pow2(1) == 2
  {
    assert Pow2(12) == 4096;
    Pow2Sum(12, 12);
  }

  /** Up to 2^24 the conversion is exact. */
  lemma Float32Exact(h: nat)
    requires h <= 0x100_0000
    ensures ToFloat32(h) == h
  {
    if h > 0 {
      LogBounds(h);
      Pow2Of24();
      if h == 0x100_0000 {
        LogUnique(h, 24);
      } else if Log2(h) > 24 {
        Pow2Grows(24, Log2(h));
      }
    }
  }

  /** The first integer that single precision cannot hold. */
  lemma FirstInexact()
    ensures ToFloat32(0x100_0001) == ToFloat32(0x100_0000) == 0x100_0000
  {
    Float32Exact(0x100_0000);
    Pow2Of24();
    LogUnique(0x100_0001, 24);
  }
}
