/**
 Merkle roots of protocol/bc/merkle.go: the split point, agreement with the Merkle Tree Hash of section 2.1 of
 RFC 6962, and that a root binds its list of leaves.
 */
module Merkle {
  import opened Bytes
  import opened Hash
  import opened Powers

  // ---------------------------------------------------------------- the split point

  /** Bitwise and. */
  function And(a: nat, b: nat): nat {
    if a == 0 || b == 0 then 0 else (if a % 2 == 1 && b % 2 == 1 then 1 else 0) + 2 * And(a / 2, b / 2)
  }

  function PrevPowerOfTwo(n: nat): nat {
    if n == 0 || And(n, n - 1) == 0 then n / 2 else Pow2(Log2(n))
  }

  ghost predicate IsPow2(k: nat) {
    exists e: nat :: k == Pow2(e)
  }

  /** n & (n-1) clears the lowest set bit, so nothing is left exactly for a power of two. */
  lemma {:induction false} AndTest(n: nat)
    requires n > 0
    ensures And(n, n - 1) == 0 <==> n == Pow2(Log2(n))
  {
    if n >= 2 {
      if n % 2 == 0 {
        assert (n - 1) / 2 == n / 2 - 1;
        AndTest(n / 2);
      } else {
        assert (n - 1) / 2 == n / 2;
        AndSelf(n / 2);
      }
    }
  }

  lemma {:induction false} AndSelf(n: nat)
    ensures And(n, n) == n
  {
    if n > 0 {
      AndSelf(n / 2);
    }
  }

  /** For a list of at least two, the split is a power of two k with k < n <= 2k, and the only one. */
  lemma SplitPoint(n: nat)
    requires n >= 2
    ensures var k := PrevPowerOfTwo(n);
            && IsPow2(k) && k < n <= 2 * k
            && forall j: nat :: IsPow2(j) && j < n <= 2 * j ==> j == k
  {
    var k := PrevPowerOfTwo(n);
    var e := Log2(n);
    LogBounds(n);
    AndTest(n);
    assert k == if n == Pow2(e) then Pow2(e - 1) else Pow2(e);
    forall j: nat | IsPow2(j) && j < n <= 2 * j ensures j == k {
      SplitUnique(n, j, k);
    }
  }

  lemma SplitUnique(n: nat, j: nat, k: nat)
    requires IsPow2(j) && j < n <= 2 * j
    requires IsPow2(k) && k < n <= 2 * k
    ensures j == k
  {
    var d: nat :| j == Pow2(d);
    var e: nat :| k == Pow2(e);
    if d < e {
      Pow2Grows(d, e);
    } else if e < d {
      Pow2Grows(e, d);
    }
  }

  // ---------------------------------------------------------------- the root

  const LEAF: Byte := 0
  const INTERIOR: Byte := 1

  /** merkleRoot over what the nodes write. */
  function MerkleRoot(h: Digest, nodes: seq<ByteString>): Hash
    decreases |nodes|
  {
    if |nodes| == 0 then Sum(h, [])
    else if |nodes| == 1 then Sum(h, [LEAF] + nodes[0])
    else
      var k := PrevPowerOfTwo(|nodes|);
      SplitPoint(|nodes|);
      Sum(h, [INTERIOR] + Byte32(MerkleRoot(h, nodes[..k])) + Byte32(MerkleRoot(h, nodes[k..])))
  }

  /** The largest power of two smaller than n, counting up from k. */
  function LargestBelow(n: nat, k: nat): nat
    requires k > 0
    decreases n - k
  {
    if 2 * k < n then LargestBelow(n, 2 * k) else k
  }

  lemma {:induction false} LargestBelowIs(n: nat, k: nat)
    requires IsPow2(k) && k < n
    ensures var m := LargestBelow(n, k); IsPow2(m) && m < n <= 2 * m
    decreases n - k
  {
    if 2 * k < n {
      var e: nat :| k == Pow2(e);
      assert 2 * k == Pow2(e + 1);
      LargestBelowIs(n, 2 * k);
    }
  }

  /** The Merkle Tree Hash of section 2.1 of RFC 6962. */
  ghost function MTH(hash: Digest, d: seq<ByteString>): Bytes32
    decreases |d|
  {
    if |d| == 0 then hash([])
    else if |d| == 1 then hash([0] + d[0])
    else
      var k := LargestBelow(|d|, 1);
      assert 1 == Pow2(0);
      LargestBelowIs(|d|, 1);
      hash([1] + MTH(hash, d[..k]) + MTH(hash, d[k..]))
  }

  /** The root, as bytes, is the Merkle Tree Hash of the leaves. */
  lemma {:induction false} RootIsMTH(h: Digest, nodes: seq<ByteString>)
    ensures Byte32(MerkleRoot(h, nodes)) == MTH(h, nodes)
    decreases |nodes|
  {
    if |nodes| == 0 {
      BytesRoundTrip(h([]));
    } else if |nodes| == 1 {
      BytesRoundTrip(h([LEAF] + nodes[0]));
    } else {
      var n := |nodes|;
      var k := PrevPowerOfTwo(n);
      SplitPoint(n);
      assert 1 == Pow2(0);
      LargestBelowIs(n, 1);
      assert LargestBelow(n, 1) == k;
      RootIsMTH(h, nodes[..k]);
      RootIsMTH(h, nodes[k..]);
      BytesRoundTrip(h([INTERIOR] + MTH(h, nodes[..k]) + MTH(h, nodes[k..])));
    }
  }

  // ---------------------------------------------------------------- binding

  /** The byte string hashed last. */
  function Top(h: Digest, nodes: seq<ByteString>): ByteString {
    if |nodes| == 0 then []
    else if |nodes| == 1 then [LEAF] + nodes[0]
    else
      var k := PrevPowerOfTwo(|nodes|);
      SplitPoint(|nodes|);
      [INTERIOR] + Byte32(MerkleRoot(h, nodes[..k])) + Byte32(MerkleRoot(h, nodes[k..]))
  }

  /** Every byte string hashed on the way to a root. */
  function Hashed(h: Digest, nodes: seq<ByteString>): set<ByteString>
    decreases |nodes|
  {
    if |nodes| < 2 then {Top(h, nodes)}
    else
      var k := PrevPowerOfTwo(|nodes|);
      SplitPoint(|nodes|);
      {Top(h, nodes)} + Hashed(h, nodes[..k]) + Hashed(h, nodes[k..])
  }

  ghost predicate CollisionFree(h: Digest, s: set<ByteString>) {
    forall x, y :: x in s && y in s ==> !Collision(h, x, y)
  }

  lemma {:induction false} TopsAgree(h: Digest, xs: seq<ByteString>, ys: seq<ByteString>)
    requires MerkleRoot(h, xs) == MerkleRoot(h, ys)
    requires CollisionFree(h, Hashed(h, xs) + Hashed(h, ys))
    ensures Top(h, xs) == Top(h, ys)
  {
    var x, y := Top(h, xs), Top(h, ys);
    assert x in Hashed(h, xs) && y in Hashed(h, ys);
    SumDetermines(h, x, y);
    assert !Collision(h, x, y);
  }

  /** Equal interior strings have equal children. */
  lemma InteriorSplits(l: Hash, r: Hash, l': Hash, r': Hash)
    requires [INTERIOR] + Byte32(l) + Byte32(r) == [INTERIOR] + Byte32(l') + Byte32(r')
    ensures l == l' && r == r'
  {
    var s, t := [INTERIOR] + Byte32(l) + Byte32(r), [INTERIOR] + Byte32(l') + Byte32(r');
    assert s[1..33] == Byte32(l) && t[1..33] == Byte32(l');
    assert s[33..] == Byte32(r) && t[33..] == Byte32(r');
    HashRoundTrip(l);
    HashRoundTrip(r);
    HashRoundTrip(l');
    HashRoundTrip(r');
  }

  /** The two halves of an interior node. */
  lemma Halves(h: Digest, xs: seq<ByteString>, j: nat)
    requires |xs| >= 2 && j == PrevPowerOfTwo(|xs|)
    ensures 0 < j < |xs| && xs == xs[..j] + xs[j..]
    ensures Top(h, xs) == [INTERIOR] + Byte32(MerkleRoot(h, xs[..j])) + Byte32(MerkleRoot(h, xs[j..]))
  {
    SplitPoint(|xs|);
  }

  lemma {:induction false} HalvesHashed(h: Digest, xs: seq<ByteString>, j: nat)
    requires |xs| >= 2 && j == PrevPowerOfTwo(|xs|) && j < |xs|
    ensures Hashed(h, xs[..j]) <= Hashed(h, xs) && Hashed(h, xs[j..]) <= Hashed(h, xs)
  {
    assert Hashed(h, xs) == {Top(h, xs)} + Hashed(h, xs[..j]) + Hashed(h, xs[j..]);
  }

  lemma FewerStrings(h: Digest, s: set<ByteString>, t: set<ByteString>)
    requires CollisionFree(h, s) && t <= s
    ensures CollisionFree(h, t)
  {
  }

  /** A root binds its leaves: lists of any two lengths with one root are equal, provided no two of the byte
      strings hashed for them collide. */
  lemma {:induction false} RootBinds(h: Digest, xs: seq<ByteString>, ys: seq<ByteString>)
    requires MerkleRoot(h, xs) == MerkleRoot(h, ys)
    requires CollisionFree(h, Hashed(h, xs) + Hashed(h, ys))
    ensures xs == ys
    decreases |xs|
  {
    TopsAgree(h, xs, ys);
    var x, y := Top(h, xs), Top(h, ys);
    if |xs| == 0 || |ys| == 0 {
      assert |x| == 0 && |y| == 0;
    } else if |xs| == 1 || |ys| == 1 {
      assert x[0] == LEAF && y[0] == LEAF;
      assert x[1..] == xs[0] && y[1..] == ys[0];
    } else {
      var j, k := PrevPowerOfTwo(|xs|), PrevPowerOfTwo(|ys|);
      Halves(h, xs, j);
      Halves(h, ys, k);
      HalvesHashed(h, xs, j);
      HalvesHashed(h, ys, k);
      InteriorSplits(MerkleRoot(h, xs[..j]), MerkleRoot(h, xs[j..]), MerkleRoot(h, ys[..k]), MerkleRoot(h, ys[k..]));
      var all := Hashed(h, xs) + Hashed(h, ys);
      FewerStrings(h, all, Hashed(h, xs[..j]) + Hashed(h, ys[..k]));
      RootBinds(h, xs[..j], ys[..k]);
      FewerStrings(h, all, Hashed(h, xs[j..]) + Hashed(h, ys[k..]));
      RootBinds(h, xs[j..], ys[k..]);
    }
  }

  // ---------------------------------------------------------------- transactions and their statuses

  function IdLeaves(ids: seq<Hash>): (r: seq<ByteString>)
    ensures |r| == |ids| && forall i :: 0 <= i < |ids| ==> r[i] == Byte32(ids[i])
  {
    seq(|ids|, i requires 0 <= i < |ids| => Byte32(ids[i]))
  }

  /** TxVerifyResult as JSON: a false status is omitted. */
  function StatusLeaf(fail: bool): ByteString {
    if fail then [0x7b, 0x22, 0x73, 0x74, 0x61, 0x74, 0x75, 0x73, 0x5f, 0x66, 0x61, 0x69, 0x6c, 0x22, 0x3a,
                  0x74, 0x72, 0x75, 0x65, 0x7d]
    else [0x7b, 0x7d]
  }

  function StatusLeaves(fails: seq<bool>): (r: seq<ByteString>)
    ensures |r| == |fails| && forall i :: 0 <= i < |fails| ==> r[i] == StatusLeaf(fails[i])
  {
    seq(|fails|, i requires 0 <= i < |fails| => StatusLeaf(fails[i]))
  }

  method TxMerkleRoot(h: Digest, ids: seq<Hash>) returns (root: Hash)
    ensures Byte32(root) == MTH(h, IdLeaves(ids))
  {
    var nodes: seq<ByteString> := [];
    for i := 0 to |ids|
      invariant nodes == IdLeaves(ids)[..i]
    {
      nodes := nodes + [Byte32(ids[i])];
    }
    assert nodes == IdLeaves(ids);
    RootIsMTH(h, nodes);
    root := MerkleRoot(h, nodes);
  }

  method TxStatusMerkleRoot(h: Digest, fails: seq<bool>) returns (root: Hash)
    ensures Byte32(root) == MTH(h, StatusLeaves(fails))
  {
    var nodes: seq<ByteString> := [];
    for i := 0 to |fails|
      invariant nodes == StatusLeaves(fails)[..i]
    {
      nodes := nodes + [StatusLeaf(fails[i])];
    }
    assert nodes == StatusLeaves(fails);
    RootIsMTH(h, nodes);
    root := MerkleRoot(h, nodes);
  }

  /** One transaction root, one list of transaction ids. */
  lemma TxRootBinds(h: Digest, a: seq<Hash>, b: seq<Hash>)
    requires MTH(h, IdLeaves(a)) == MTH(h, IdLeaves(b))
    requires CollisionFree(h, Hashed(h, IdLeaves(a)) + Hashed(h, IdLeaves(b)))
    ensures a == b
  {
    var x, y := IdLeaves(a), IdLeaves(b);
    RootIsMTH(h, x);
    RootIsMTH(h, y);
    HashRoundTrip(MerkleRoot(h, x));
    HashRoundTrip(MerkleRoot(h, y));
    RootBinds(h, x, y);
    forall i | 0 <= i < |a| ensures a[i] == b[i] {
      assert x[i] == y[i];
      HashRoundTrip(a[i]);
      HashRoundTrip(b[i]);
    }
  }

  /** One status root, one list of statuses. */
  lemma TxStatusRootBinds(h: Digest, a: seq<bool>, b: seq<bool>)
    requires MTH(h, StatusLeaves(a)) == MTH(h, StatusLeaves(b))
    requires CollisionFree(h, Hashed(h, StatusLeaves(a)) + Hashed(h, StatusLeaves(b)))
    ensures a == b
  {
    var x, y := StatusLeaves(a), StatusLeaves(b);
    RootIsMTH(h, x);
    RootIsMTH(h, y);
    HashRoundTrip(MerkleRoot(h, x));
    HashRoundTrip(MerkleRoot(h, y));
    RootBinds(h, x, y);
    forall i | 0 <= i < |a| ensures a[i] == b[i] {
      assert x[i] == y[i];
    }
  }
}
