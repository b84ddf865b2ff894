/** The coinbase subsidy of consensus/general.go: no schedule of blocks issues more than 2.1 * 10^17 units. */
module Subsidy {

  const INTERVAL: nat := 840000
  const BASE: nat := 41250000000
  const INITIAL: nat := 140700041250000000
  const SUPPLY: nat := 210000000000000000

  /** Shift to the right, as Go does it: bits shifted out are lost, and any count is allowed. */
  function Shr(b: nat, n: nat): nat
    decreases n
  {
    if n == 0 then b else Shr(b / 2, n - 1)
  }

  function BlockSubsidy(height: nat): nat {
    if height == 0 then INITIAL else Shr(BASE, height / INTERVAL)
  }

  /** The units issued by the blocks 0 to height. */
  function Issued(height: nat): nat {
    BlockSubsidy(height) + (if height == 0 then 0 else Issued(height - 1))
  }

  function OneBits(b: nat): nat {
    if b == 0 then 0 else b % 2 + OneBits(b / 2)
  }

  /** b + b/2 + b/4 + ... */
  function Halvings(b: nat): nat {
    if b == 0 then 0 else b + Halvings(b / 2)
  }

  /** The first n of these. */
  function FirstHalvings(b: nat, n: nat): nat
    decreases n
  {
    if n == 0 then 0 else FirstHalvings(b, n - 1) + Shr(b, n - 1)
  }

  /** Truncation costs one for every one-bit. */
  lemma {:induction false} HalvingsSum(b: nat)
    ensures Halvings(b) + OneBits(b) == 2 * b
  {
    if b > 0 {
      HalvingsSum(b / 2);
    }
  }

  lemma {:induction false} ShrOnce(b: nat, n: nat)
    ensures Shr(b, n + 1) == Shr(b, n) / 2
    decreases n
  {
    if n > 0 {
      ShrOnce(b / 2, n - 1);
    }
  }

  lemma {:induction false} HalvingsSplit(b: nat, n: nat)
    ensures FirstHalvings(b, n) + Halvings(Shr(b, n)) == Halvings(b)
  {
    if n > 0 {
      HalvingsSplit(b, n - 1);
      ShrOnce(b, n - 1);
    }
  }

  /** The closed form within the e-th interval: r + 1 of its blocks have been issued. */
  lemma {:induction false} IssuedClosed(height: nat, e: nat, r: nat)
    requires r < INTERVAL && height == e * INTERVAL + r
    ensures Issued(height) == INITIAL - BASE + INTERVAL * FirstHalvings(BASE, e) + (r + 1) * Shr(BASE, e)
    decreases height
  {
    if height > 0 {
      assert height / INTERVAL == e;
      if r > 0 {
        IssuedClosed(height - 1, e, r - 1);
        Distribute(r, Shr(BASE, e));
      } else {
        assert height - 1 == (e - 1) * INTERVAL + (INTERVAL - 1);
        IssuedClosed(height - 1, e - 1, INTERVAL - 1);
      }
    }
  }

  lemma Distribute(r: nat, x: nat)
    ensures (r + 1) * x == r * x + x
  {
  }

  function Product(n: nat, x: nat): nat {
    n * x
  }

  /** The blocks of an interval still to come, and what they and the later intervals issue. */
  function StillToCome(e: nat, r: nat): nat
    requires r < INTERVAL
  {
    Product(INTERVAL - 1 - r, Shr(BASE, e)) + INTERVAL * Halvings(Shr(BASE, e + 1))
  }

  const LIMIT: nat := SUPPLY - INTERVAL * 13

  lemma IntervalSplits(r: nat, x: nat)
    requires r < INTERVAL
    ensures (r + 1) * x + Product(INTERVAL - 1 - r, x) == INTERVAL * x
  {
  }

  lemma HalvingsFrom(e: nat)
    ensures FirstHalvings(BASE, e) + Shr(BASE, e) + Halvings(Shr(BASE, e + 1)) == 2 * BASE - 13
  {
    HalvingsSplit(BASE, e + 1);
    HalvingsSum(BASE);
    BaseBits();
  }

  /** What has been issued and what is still to come make up the limit. */
  lemma {:induction false} IssuedAndToCome(e: nat, r: nat)
    requires r < INTERVAL
    ensures Issued(e * INTERVAL + r) + StillToCome(e, r) == LIMIT
  {
    IssuedClosed(e * INTERVAL + r, e, r);
    IntervalSplits(r, Shr(BASE, e));
    HalvingsFrom(e);
  }

  lemma {:induction false} ShrMonotone(b: nat, d: nat, e: nat)
    requires d <= e
    ensures Shr(b, e) <= Shr(b, d)
    decreases e
  {
    if d < e {
      ShrMonotone(b, d, e - 1);
      ShrOnce(b, e - 1);
    }
  }

  lemma {:induction false} ShrSum(b: nat, m: nat, n: nat)
    ensures Shr(b, m + n) == Shr(Shr(b, m), n)
    decreases m
  {
    if m > 0 {
      ShrSum(b / 2, m - 1, n);
    }
  }

  /** The base subsidy has 36 bits, 13 of them set. */
  lemma BaseBits()
    ensures Shr(BASE, 35) == 1 && Shr(BASE, 36) == 0
    ensures OneBits(BASE) == 13
  {
    assert Shr(BASE, 12) == 10070800;
    assert Shr(10070800, 12) == 2458;
    ShrSum(BASE, 12, 12);
    ShrSum(BASE, 24, 11);
    ShrSum(BASE, 24, 12);
    assert OneBits(2458) == 6;
    assert OneBits(10070800) == 10;
  }

  /** For every height the units issued so far stay within the supply and within 64 bits, and no block takes any
      back. */
  lemma NeverExceedsSupply(height: nat)
    ensures Issued(height) <= LIMIT < SUPPLY < 0x8000_0000_0000_0000
    ensures Issued(height) <= Issued(height + 1)
  {
    IssuedAndToCome(height / INTERVAL, height % INTERVAL);
  }

  lemma ProductZero(n: nat, x: nat)
    ensures Product(n, x) == 0 <==> n == 0 || x == 0
  {
  }

  lemma NothingToCome(e: nat, r: nat)
    requires r < INTERVAL
    ensures StillToCome(e, r) == 0 <==> (r == INTERVAL - 1 || Shr(BASE, e) == 0) && Shr(BASE, e + 1) == 0
  {
    ProductZero(INTERVAL - 1 - r, Shr(BASE, e));
  }

  lemma {:induction false} ShiftedOutIff(e: nat)
    ensures Shr(BASE, e) == 0 <==> e >= 36
  {
    BaseBits();
    if e >= 36 {
      ShrMonotone(BASE, 36, e);
    } else {
      ShrMonotone(BASE, e, 35);
    }
  }

  /** The limit is the supply less 840000 for every one-bit of the base subsidy. */
  lemma LimitIs()
    ensures LIMIT == SUPPLY - INTERVAL * OneBits(BASE)
  {
    BaseBits();
  }

  /** The limit is reached exactly with the last block of the 36th interval and kept from then on. */
  lemma {:induction false} ReachesLimitIff(height: nat)
    ensures Issued(height) == LIMIT <==> height >= 36 * INTERVAL - 1
  {
    var e, r := height / INTERVAL, height % INTERVAL;
    IssuedAndToCome(e, r);
    NothingToCome(e, r);
    ShiftedOutIff(e);
    ShiftedOutIff(e + 1);
  }
}
