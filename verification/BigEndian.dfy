/** Byte strings as numbers, most significant byte first. */
module BigEndian {
  import opened Bytes

  /** 256 to the power k. */
  function Pow256(k: nat): (p: nat)
    ensures p > 0 && (k > 0 ==> p % 2 == 0)
  {
    if k == 0 then 1 else 256 * Pow256(k - 1)
  }

  /** Big-endian value. */
  function Value(s: ByteString): nat {
    if s == [] then 0 else 256 * Value(s[..|s| - 1]) + s[|s| - 1]
  }

  lemma {:induction false} ValueBound(s: ByteString)
    ensures Value(s) < Pow256(|s|)
  {
    if s != [] {
      ValueBound(s[..|s| - 1]);
    }
  }

  lemma {:induction false} ValueConcat(a: ByteString, b: ByteString)
    ensures Value(a + b) == Value(a) * Pow256(|b|) + Value(b)
  {
    if b == [] {
      assert a + b == a;
    } else {
      var n := |b| - 1;
      assert (a + b)[..|a + b| - 1] == a + b[..n];
      ValueConcat(a, b[..n]);
      assert 256 * (Value(a) * Pow256(n)) == Value(a) * (256 * Pow256(n));
    }
  }

  lemma LowDigit(a: nat, x: Byte, b: nat, y: Byte)
    requires a * 256 + x == b * 256 + y
    ensures a == b && x == y
  {
  }

  /** Equal length and equal value mean equal bytes. */
  lemma {:induction false} ValueInjective(s: ByteString, t: ByteString)
    requires |s| == |t| && Value(s) == Value(t)
    ensures s == t
  {
    if s != [] {
      var n := |s| - 1;
      LowDigit(Value(s[..n]), s[n], Value(t[..n]), t[n]);
      ValueInjective(s[..n], t[..n]);
      assert s == s[..n] + [s[n]] && t == t[..n] + [t[n]];
    }
  }

  /** binary.BigEndian.PutUint64 and its like: v in n bytes. */
  function ToBytes(v: nat, n: nat): (r: ByteString)
    ensures |r| == n
  {
    if n == 0 then [] else ToBytes(v / 256, n - 1) + [v % 256]
  }

  lemma {:induction false} ValueOfBytes(v: nat, n: nat)
    requires v < Pow256(n)
    ensures Value(ToBytes(v, n)) == v
  {
    if n > 0 {
      ValueOfBytes(v / 256, n - 1);
      assert ToBytes(v, n)[..n - 1] == ToBytes(v / 256, n - 1);
    }
  }

  lemma {:induction false} BytesOfValue(s: ByteString)
    ensures ToBytes(Value(s), |s|) == s
  {
    ValueBound(s);
    ValueOfBytes(Value(s), |s|);
    ValueInjective(ToBytes(Value(s), |s|), s);
  }
}
