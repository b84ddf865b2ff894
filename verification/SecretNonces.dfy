/**
 The nonces of p2p/connection/secret_connection.go: big-endian increments with wraparound, agreement of the
 two sides, and no nonce used twice.
 */
module SecretNonces {
  import opened Bytes
  import opened BigEndian
  import opened Products

  const NONCE_SIZE: nat := 24

  const TWO_TO_191: nat := 0x800000000000_000000000000_000000000000_000000000000
  const TWO_TO_192: nat := 0x1_000000000000_000000000000_000000000000_000000000000

  type Nonce = s: ByteString | |s| == NONCE_SIZE witness seq(NONCE_SIZE, _ => 0)

  /** incrNonce on the bytes: add one to the last byte and carry. */
  function Incr(s: ByteString): (r: ByteString)
    ensures |r| == |s|
  {
    if s == [] then []
    else
      var n := |s| - 1;
      if s[n] < 255 then s[..n] + [s[n] + 1] else Incr(s[..n]) + [0]
  }

  /** The carry is right: the value goes up by one, modulo 256 to the length. */
  lemma {:induction false} IncrValue(s: ByteString)
    ensures Value(Incr(s)) == if Value(s) + 1 == Pow256(|s|) then 0 else Value(s) + 1
  {
    if s != [] {
      var n := |s| - 1;
      ValueBound(s);
      ValueBound(s[..n]);
      if s[n] < 255 {
        assert Incr(s)[..n] == s[..n];
      } else {
        assert Incr(s)[..n] == Incr(s[..n]);
        IncrValue(s[..n]);
      }
    }
  }

  function Incr2(s: ByteString): (r: ByteString)
    ensures |r| == |s|
  {
    Incr(Incr(s))
  }

  /** The number of nonces of this length; for 24 bytes, 2 to the power 192. */
  function Modulus(s: ByteString): (m: nat)
    ensures m > 0
  {
    Pow256(|s|)
  }

  lemma NonceModulus(s: Nonce)
    ensures Modulus(s) == TWO_TO_192 && Modulus(s) / 2 == TWO_TO_191
  {
    assert Pow256(6) == 0x1_000000000000;
    assert Pow256(12) == 0x1_000000000000_000000000000;
    assert Pow256(18) == 0x1_000000000000_000000000000_000000000000;
  }

  lemma ModulusEven(s: ByteString)
    requires s != []
    ensures Modulus(s) == 2 * (Modulus(s) / 2) && Modulus(s) >= 256
  {
  }

  lemma {:induction false} Incr2Advances(s: ByteString)
    requires s != []
    ensures Value(Incr2(s)) == Advance(Value(s), 1, Modulus(s))
  {
    IncrValue(s);
    IncrValue(Incr(s));
    ValueBound(s);
    ModulusEven(s);
    TwoIncrements(Value(s), Modulus(s));
  }

  /** incr2Nonce adds two modulo 2^192. */
  lemma {:induction false} Incr2Value(s: Nonce)
    ensures Value(Incr2(s)) == (Value(s) + 2) % TWO_TO_192
  {
    Incr2Advances(s);
    NonceModulus(s);
  }

  lemma TwoIncrements(v: nat, m: nat)
    requires v < m && m > 2
    ensures var x := if v + 1 == m then 0 else v + 1;
            (if x + 1 == m then 0 else x + 1) == Advance(v, 1, m)
  {
    AddMod(v, m);
  }

  lemma AddMod(v: nat, m: nat)
    requires v < m && m > 2
    ensures (v + 2) % m == if v + 2 < m then v + 2 else v + 2 - m
  {
  }

  /** The nonce after k frames. */
  function NonceAfter(s: ByteString, k: nat): (r: ByteString)
    ensures |r| == |s|
  {
    if k == 0 then s else Incr2(NonceAfter(s, k - 1))
  }

  lemma {:induction false} NonceAfterFirst(s: ByteString, k: nat)
    ensures NonceAfter(Incr2(s), k) == NonceAfter(s, k + 1)
  {
    var t := Incr2(s);
    if k == 0 {
      assert NonceAfter(s, 0) == s;
    } else {
      NonceAfterFirst(s, k - 1);
      assert NonceAfter(t, k) == Incr2(NonceAfter(t, k - 1));
    }
  }

  lemma {:induction false} NonceAfterAdd(s: ByteString, j: nat, k: nat)
    ensures NonceAfter(NonceAfter(s, j), k) == NonceAfter(s, j + k)
  {
    var t := NonceAfter(s, j);
    if k == 0 {
      assert NonceAfter(t, 0) == t;
    } else {
      NonceAfterAdd(s, j, k - 1);
      assert NonceAfter(t, k) == Incr2(NonceAfter(t, k - 1));
    }
  }

  /** v moved on by k steps of two, modulo m. */
  function Advance(v: nat, k: nat, m: nat): nat
    requires m > 0
  {
    (v + 2 * k) % m
  }

  lemma {:induction false} NonceAfterValue(s: ByteString, k: nat)
    requires s != []
    ensures Value(NonceAfter(s, k)) == Advance(Value(s), k, Modulus(s))
  {
    var v, m := Value(s), Modulus(s);
    if k == 0 {
      ValueBound(s);
      AdvanceNone(v, m);
      assert NonceAfter(s, 0) == s;
    } else {
      var t := NonceAfter(s, k - 1);
      NonceAfterValue(s, k - 1);
      Incr2Advances(t);
      assert Value(Incr2(t)) == Advance(Value(t), 1, m);
      AdvanceOneMore(v, k, m);
    }
  }

  lemma AdvanceNone(v: nat, m: nat)
    requires v < m
    ensures Advance(v, 0, m) == v
  {
    SmallMod(v, m);
  }

  lemma AdvanceOneMore(v: nat, k: nat, m: nat)
    requires k > 0 && m > 0
    ensures Advance(Advance(v, k - 1, m), 1, m) == Advance(v, k, m)
  {
    ModAdd(v + 2 * (k - 1), 2, m);
    assert v + 2 * (k - 1) + 2 == v + 2 * k;
  }

  lemma SmallMod(v: nat, m: nat)
    requires v < m
    ensures v % m == v
  {
  }

  lemma ModAdd(x: nat, y: nat, m: nat)
    requires m > 0
    ensures (x % m + y) % m == (x + y) % m
  {
    var q := x / m;
    assert x == q * m + x % m;
    ModShift(x % m + y, q, m);
    assert x + y == (x % m + y) + q * m;
  }

  lemma {:induction false} ModShift(z: nat, q: nat, m: nat)
    requires m > 0
    ensures (z + q * m) % m == z % m
  {
    if q > 0 {
      ModShift(z, q - 1, m);
      assert z + q * m == (z + (q - 1) * m) + m;
      OneTurn(z + (q - 1) * m, m);
    }
  }

  lemma OneTurn(x: nat, m: nat)
    requires m > 0
    ensures (x + m) % m == x % m
  {
    var q, r := x / m, x % m;
    assert x + m == (q + 1) * m + r;
    Unique(x + m, q + 1, r, m);
  }

  lemma Unique(x: nat, q: nat, r: nat, m: nat)
    requires m > 0 && r < m && x == q * m + r
    ensures x % m == r && x / m == q
  {
    MulCancel(x / m, x % m, q, r, m);
  }

  lemma MulCancel(q: nat, r: nat, q': nat, r': nat, m: nat)
    requires r < m && r' < m && q * m + r == q' * m + r'
    ensures q == q' && r == r'
  {
    if q < q' {
      MulGap(q, q', m);
    } else if q' < q {
      MulGap(q', q, m);
    }
  }

  lemma MulGap(x: nat, y: nat, m: nat)
    requires x < y
    ensures x * m + m <= y * m
  {
    MulMono(x + 1, y, m);
  }

  // ---------------------------------------------------------------- no nonce twice

  lemma {:induction false} RepeatsIff(s: ByteString, i: nat, j: nat)
    requires i <= j && s != []
    ensures Modulus(s) / 2 > 0
    ensures NonceAfter(s, i) == NonceAfter(s, j) <==> (j - i) % (Modulus(s) / 2) == 0
  {
    var x, y, m := NonceAfter(s, i), NonceAfter(s, j), Modulus(s);
    NonceAfterValue(s, i);
    NonceAfterValue(s, j);
    if Value(x) == Value(y) {
      ValueInjective(x, y);
    }
    ModulusEven(s);
    SameStepsIff(Value(s), i, j, m, m / 2);
  }

  /** One direction reaches the same nonce again exactly after a multiple of 2^191 frames. */
  lemma {:induction false} SameDirectionRepeats(s: Nonce, i: nat, j: nat)
    requires i <= j
    ensures NonceAfter(s, i) == NonceAfter(s, j) <==> (j - i) % TWO_TO_191 == 0
  {
    RepeatsIff(s, i, j);
    NonceModulus(s);
  }

  lemma SameStepsIff(v: nat, i: nat, j: nat, m: nat, h: nat)
    requires i <= j && m == 2 * h && h > 0
    ensures Advance(v, i, m) == Advance(v, j, m) <==> (j - i) % h == 0
  {
    SameModIff(v + 2 * i, j - i, h);
    assert v + 2 * j == (v + 2 * i) + 2 * (j - i);
  }

  lemma SameModIff(x: nat, d: nat, h: nat)
    requires h > 0
    ensures (x + 2 * d) % (2 * h) == x % (2 * h) <==> d % h == 0
  {
    var m := 2 * h;
    var e, f := d / h, d % h;
    assert x + 2 * d == (x + 2 * f) + e * m;
    ModShift(x + 2 * f, e, m);
    var r := x % m;
    ModAdd(x, 2 * f, m);
    if f != 0 {
      if r + 2 * f < m {
        SmallMod(r + 2 * f, m);
      } else {
        OneTurn(r + 2 * f - m, m);
        SmallMod(r + 2 * f - m, m);
      }
    }
  }

  /** Within 2^191 frames one direction never repeats a nonce. */
  lemma {:induction false} NoRepeatWithinHalf(s: Nonce, i: nat, j: nat)
    requires i < j < i + TWO_TO_191
    ensures NonceAfter(s, i) != NonceAfter(s, j)
  {
    SameDirectionRepeats(s, i, j);
    SmallMod(j - i, TWO_TO_191);
  }

  function Last(s: ByteString): Byte
    requires s != []
  {
    s[|s| - 1]
  }

  /** Moving on by two never changes the lowest bit, wraparound included. */
  lemma {:induction false} LowBitKept(s: ByteString, k: nat)
    requires s != []
    ensures Last(NonceAfter(s, k)) % 2 == Last(s) % 2
  {
    if k > 0 {
      LowBitKept(s, k - 1);
      var t := NonceAfter(s, k - 1);
      var u := Incr(t);
      LastOfIncr(t);
      LastOfIncr(u);
      assert NonceAfter(s, k) == Incr(u);
    }
  }

  lemma {:induction false} LastOfIncr(s: ByteString)
    requires s != []
    ensures Last(Incr(s)) % 2 == 1 - Last(s) % 2
  {
  }

  // ---------------------------------------------------------------- the two sides

  /** bytes.Compare(a, b) < 0. */
  predicate Less(a: ByteString, b: ByteString) {
    b != [] && (a == [] || a[0] < b[0] || (a[0] == b[0] && Less(a[1..], b[1..])))
  }

  lemma {:induction false} LessTotal(a: ByteString, b: ByteString)
    requires |a| == |b|
    ensures a != b ==> Less(a, b) != Less(b, a)
    ensures !Less(a, a)
  {
    if a != [] {
      LessTotal(a[1..], b[1..]);
      assert a == [a[0]] + a[1..] && b == [b[0]] + b[1..];
    }
  }

  /** sort32. The first result is the smaller key; equal keys come out swapped. */
  function Sort32(foo: ByteString, bar: ByteString): (r: (ByteString, ByteString)) {
    if Less(foo, bar) then (foo, bar) else (bar, foo)
  }

  /** RIPEMD-160 as an arbitrary function with 20-byte results. */
  ghost predicate IsHash20(h: ByteString -> ByteString) {
    forall x :: |h(x)| == 20
  }

  /** hash24: only the first 20 bytes are filled. */
  function Hash24(h: ByteString -> ByteString, input: ByteString): (n: Nonce)
    requires |h(input)| == 20
  {
    h(input) + [0, 0, 0, 0]
  }

  function FlipLastBit(n: Nonce): Nonce {
    n[23 := if n[23] % 2 == 0 then n[23] + 1 else n[23] - 1]
  }

  datatype Nonces = Nonces(recv: Nonce, send: Nonce)

  /** genNonces. */
  function GenNonces(h: ByteString -> ByteString, lo: ByteString, hi: ByteString, locIsLo: bool): Nonces
    requires |h(lo + hi)| == 20
  {
    var nonce1 := Hash24(h, lo + hi);
    var nonce2 := FlipLastBit(nonce1);
    if locIsLo then Nonces(nonce1, nonce2) else Nonces(nonce2, nonce1)
  }

  /** What MakeSecretConnection computes on the side holding `loc`. locEphPub is the lo pointer exactly when
      it compared less. */
  function SideNonces(h: ByteString -> ByteString, loc: ByteString, rem: ByteString): Nonces
    requires |h(loc + rem)| == |h(rem + loc)| == 20
  {
    var (lo, hi) := Sort32(loc, rem);
    GenNonces(h, lo, hi, Less(loc, rem))
  }

  /** The second nonce is the first plus one: hash24 leaves the last byte 0. */
  lemma FlippedValue(h: ByteString -> ByteString, input: ByteString)
    requires |h(input)| == 20
    ensures Value(FlipLastBit(Hash24(h, input))) == Value(Hash24(h, input)) + 1
    ensures Last(Hash24(h, input)) == 0 && Last(FlipLastBit(Hash24(h, input))) == 1
  {
    var n := Hash24(h, input);
    assert n[23] == 0;
    assert FlipLastBit(n)[..23] == n[..23];
  }

  lemma {:induction false} ValueOfFirst(s: ByteString)
    requires s != []
    ensures Value(s) == s[0] * Pow256(|s| - 1) + Value(s[1..])
  {
    if |s| == 1 {
      assert s[..0] == [] && s[1..] == [];
    } else {
      var n := |s| - 1;
      ValueOfFirst(s[..n]);
      assert s[..n][1..] == s[1..][..n - 1] && s[1..][n - 1] == s[n];
      ScaleBy256(s[0], Pow256(n - 1));
    }
  }

  lemma ScaleBy256(x: nat, p: nat)
    ensures 256 * (x * p) == x * (256 * p)
  {
  }

  lemma LeadingDigit(x: nat, a: nat, y: nat, b: nat, p: nat)
    requires x < y && a < p
    ensures x * p + a < y * p + b
  {
    MulMono(x + 1, y, p);
  }

  /** bytes.Compare on keys of one length is the order of their big-endian values. */
  lemma {:induction false} LessIsValue(a: ByteString, b: ByteString)
    requires |a| == |b|
    ensures Less(a, b) <==> Value(a) < Value(b)
  {
    if a != [] {
      ValueOfFirst(a);
      ValueOfFirst(b);
      ValueBound(a[1..]);
      ValueBound(b[1..]);
      var p := Pow256(|a| - 1);
      if a[0] < b[0] {
        LeadingDigit(a[0], Value(a[1..]), b[0], Value(b[1..]), p);
      } else if b[0] < a[0] {
        LeadingDigit(b[0], Value(b[1..]), a[0], Value(a[1..]), p);
      } else {
        LessIsValue(a[1..], b[1..]);
      }
    }
  }

  /** Who uses which: the side with the smaller key receives under the hash of the two keys, smaller one first, padded
      with zeros, and sends under that plus one; the other side the other way round. */
  lemma {:induction false} NoncesOfSides(h: ByteString -> ByteString, lo: ByteString, hi: ByteString)
    requires IsHash20(h) && |lo| == |hi| && Value(lo) < Value(hi)
    ensures SideNonces(h, lo, hi) == Nonces(h(lo + hi) + [0, 0, 0, 0], h(lo + hi) + [0, 0, 0, 1])
    ensures SideNonces(h, hi, lo) == Nonces(h(lo + hi) + [0, 0, 0, 1], h(lo + hi) + [0, 0, 0, 0])
  {
    LessIsValue(lo, hi);
    LessIsValue(hi, lo);
    assert FlipLastBit(h(lo + hi) + [0, 0, 0, 0]) == h(lo + hi) + [0, 0, 0, 1];
  }

  /** Each side's send nonce is the other's receive nonce exactly when the ephemeral keys differ. */
  lemma NoncesAgreeIff(h: ByteString -> ByteString, a: ByteString, b: ByteString)
    requires IsHash20(h) && |a| == |b| == 32
    ensures a != b <==>
              && SideNonces(h, a, b).send == SideNonces(h, b, a).recv
              && SideNonces(h, a, b).recv == SideNonces(h, b, a).send
  {
    LessTotal(a, b);
    if a == b {
      FlippedValue(h, a + a);
    }
  }

  /** In every run, however long and however the counters wrap, the nonces of the two directions differ. */
  lemma {:induction false} DirectionsNeverShare(h: ByteString -> ByteString, a: ByteString, b: ByteString, i: nat,
                                                j: nat)
    requires IsHash20(h)
    ensures var n := SideNonces(h, a, b); NonceAfter(n.send, i) != NonceAfter(n.recv, j)
  {
    var n := SideNonces(h, a, b);
    var (lo, hi) := Sort32(a, b);
    FlippedValue(h, lo + hi);
    LowBitKept(n.send, i);
    LowBitKept(n.recv, j);
  }

  // ---------------------------------------------------------------- the code

  method IncrNonce(nonce: array<Byte>)
    requires nonce.Length == NONCE_SIZE
    modifies nonce
    ensures nonce[..] == Incr(old(nonce[..]))
  {
    ghost var s := nonce[..];
    var i := NONCE_SIZE - 1;
    assert s[..i + 1] == s && nonce[i + 1..] == [];
    while 0 <= i
      invariant -1 <= i < NONCE_SIZE
      invariant nonce[..i + 1] == s[..i + 1]
      invariant Incr(s) == Incr(s[..i + 1]) + nonce[i + 1..]
    {
      ghost var tail := nonce[i + 1..];
      assert s[..i + 1][..i] == s[..i];
      assert nonce[i] == s[i];
      var b: int := nonce[i];
      nonce[i] := (b + 1) % 256;
      assert nonce[i + 1..] == tail;
      assert nonce[i..] == [nonce[i]] + tail;
      if nonce[i] != 0 {
        assert nonce[..] == nonce[..i] + nonce[i..];
        assert nonce[..i] == s[..i];
        return;
      }
      assert Incr(s[..i + 1]) == Incr(s[..i]) + [0];
      assert Incr(s) == Incr(s[..i]) + nonce[i..];
      i := i - 1;
    }
    assert s[..0] == [];
    assert nonce[0..] == nonce[..];
  }

  method Incr2Nonce(nonce: array<Byte>)
    requires nonce.Length == NONCE_SIZE
    modifies nonce
    ensures nonce[..] == Incr2(old(nonce[..]))
  {
    IncrNonce(nonce);
    IncrNonce(nonce);
  }
}
