/**
 The main-chain index of protocol/state: an in-place update that stops at the first slot already right,
 proved equal to rewriting the whole chain.
 */
module BlockIndex {

  const APPROX_NODES_PER_DAY: nat := 576

  class BlockNode {
    const parent: BlockNode?
    const height: nat

    constructor (parent: BlockNode?, height: nat)
      ensures this.parent == parent && this.height == height
    {
      this.parent, this.height := parent, height;
    }
  }

  /** The node hangs under a chain of parents, one height apart, that ends at height 0. */
  ghost predicate Rooted(n: BlockNode)
    decreases n.height
  {
    if n.height == 0 then n.parent == null
    else n.parent != null && n.parent.height == n.height - 1 && Rooted(n.parent)
  }

  /** The chain from height 0 up to the node. */
  ghost function Ancestors(n: BlockNode): (r: seq<BlockNode>)
    requires Rooted(n)
    ensures |r| == n.height + 1 && r[n.height] == n
    decreases n.height
  {
    if n.height == 0 then [n] else Ancestors(n.parent) + [n]
  }

  /** Every node of the chain sits at its height, and the chain below it is its own. */
  lemma {:induction false} AncestorsPrefix(n: BlockNode, h: nat)
    requires Rooted(n) && h <= n.height
    ensures var m := Ancestors(n)[h]; m.height == h && Rooted(m) && Ancestors(n)[..h + 1] == Ancestors(m)
    decreases n.height
  {
    if h < n.height {
      AncestorsPrefix(n.parent, h);
      assert Ancestors(n)[..h + 1] == Ancestors(n.parent)[..h + 1];
    } else {
      assert Ancestors(n)[..h + 1] == Ancestors(n);
    }
  }

  /** The loop of SetMainChain on the slots as a value. */
  ghost function Walk(slots: seq<BlockNode?>, n: BlockNode?): (r: seq<BlockNode?>)
    requires n != null ==> Rooted(n) && n.height < |slots|
    ensures |r| == |slots|
    decreases if n == null then 0 else n.height + 1
  {
    if n == null || slots[n.height] == n then slots else Walk(slots[n.height := n], n.parent)
  }

  /** The ancestor (or the node itself) whose slot is already right, at which the loop stops. */
  ghost function StopsAt(slots: seq<BlockNode?>, n: BlockNode?): (m: BlockNode?)
    requires n != null ==> Rooted(n) && n.height < |slots|
    ensures m != null ==> Rooted(m) && n != null && m.height <= n.height && slots[m.height] == m
    decreases if n == null then 0 else n.height + 1
  {
    if n == null || slots[n.height] == n then n else StopsAt(slots, n.parent)
  }

  /** First index above the stopping place. */
  ghost function Kept(slots: seq<BlockNode?>, n: BlockNode): (k: nat)
    requires Rooted(n) && n.height < |slots|
    ensures k <= n.height + 1
  {
    var m := StopsAt(slots, n);
    if m == null then 0 else m.height + 1
  }

  /** What lies below the stopping place is kept, what lies above it is the node's chain. */
  lemma {:induction false} WalkResult(slots: seq<BlockNode?>, n: BlockNode)
    requires Rooted(n) && n.height < |slots|
    ensures forall i :: 0 <= i < |slots| ==>
              Walk(slots, n)[i] == if Kept(slots, n) <= i <= n.height then Ancestors(n)[i] else slots[i]
    ensures StopsAt(slots, n) != null ==> Ancestors(n)[StopsAt(slots, n).height] == StopsAt(slots, n)
    decreases n.height
  {
    if slots[n.height] != n {
      var next := slots[n.height := n];
      if n.height == 0 {
        assert Walk(slots, n) == next;
      } else {
        StopsUnchanged(slots, n.height, n, n.parent);
        WalkResult(next, n.parent);
        assert Walk(slots, n) == Walk(next, n.parent);
        assert Kept(slots, n) == Kept(next, n.parent);
      }
    }
  }

  /** Writing above a node does not move the place where its walk stops. */
  lemma {:induction false} StopsUnchanged(slots: seq<BlockNode?>, h: nat, x: BlockNode, n: BlockNode)
    requires Rooted(n) && n.height < h < |slots|
    ensures StopsAt(slots[h := x], n) == StopsAt(slots, n)
    decreases n.height
  {
    if slots[n.height] != n && n.parent != null {
      StopsUnchanged(slots, h, x, n.parent);
    }
  }

  /** Stopping early is right exactly when the slots below the stopping place are that node's chain. */
  lemma {:induction false} EarlyStopRightIff(slots: seq<BlockNode?>, n: BlockNode)
    requires Rooted(n) && |slots| == n.height + 1
    ensures var m := StopsAt(slots, n);
            Walk(slots, n) == Ancestors(n) <==> m == null || slots[..m.height + 1] == Ancestors(m)
  {
    WalkResult(slots, n);
    var m := StopsAt(slots, n);
    if m == null {
      assert Walk(slots, n) == Ancestors(n);
    } else {
      AncestorsPrefix(n, m.height);
      if slots[..m.height + 1] == Ancestors(m) {
        forall i | 0 <= i < |slots| ensures Walk(slots, n)[i] == Ancestors(n)[i] {
          if i <= m.height {
            assert slots[i] == slots[..m.height + 1][i] == Ancestors(m)[i] == Ancestors(n)[..m.height + 1][i];
          }
        }
      }
      if Walk(slots, n) == Ancestors(n) {
        assert forall i :: 0 <= i <= m.height ==> slots[i] == Walk(slots, n)[i];
        assert slots[..m.height + 1] == Ancestors(n)[..m.height + 1];
      }
    }
  }

  /** The slots hold an old chain, cut short or padded with nothing. */
  ghost predicate HoldsChain(slots: seq<BlockNode?>, chain: seq<BlockNode>) {
    forall i :: 0 <= i < |slots| ==> slots[i] == if i < |chain| then chain[i] else null
  }

  lemma {:induction false} BelowOldNode(top: BlockNode, slots: seq<BlockNode?>, m: BlockNode)
    requires Rooted(top) && HoldsChain(slots, Ancestors(top))
    requires Rooted(m) && m.height < |slots| && slots[m.height] == m
    ensures slots[..m.height + 1] == Ancestors(m)
  {
    AncestorsPrefix(top, m.height);
    assert slots[..m.height + 1] == Ancestors(top)[..m.height + 1];
  }

  /** Over such slots the walk stops only where it may. */
  lemma {:induction false} ResizedChainWalks(top: BlockNode, slots: seq<BlockNode?>, n: BlockNode)
    requires Rooted(top) && Rooted(n) && |slots| == n.height + 1
    requires HoldsChain(slots, Ancestors(top))
    ensures Walk(slots, n) == Ancestors(n)
  {
    EarlyStopRightIff(slots, n);
    var m := StopsAt(slots, n);
    if m != null {
      BelowOldNode(top, slots, m);
    }
  }

  lemma {:induction false} EmptySlotsWalk(slots: seq<BlockNode?>, n: BlockNode)
    requires Rooted(n) && |slots| == n.height + 1
    requires forall i :: 0 <= i < |slots| ==> slots[i] == null
    ensures Walk(slots, n) == Ancestors(n)
  {
    EarlyStopRightIff(slots, n);
  }

  /** Slots left over from a longer chain must be cleared: index n, then another root q, then n again. The slot
      still holding n would stop the walk at once, over the wrong root; cleared, the walk is right. */
  lemma {:induction false} StaleSlotStopsWrongly(p: BlockNode, q: BlockNode, n: BlockNode)
    requires Rooted(p) && Rooted(q) && p != q && p.height == q.height == 0
    requires Rooted(n) && n.height == 1 && n.parent == p
    ensures Walk([q, n], n) == [q, n] != Ancestors(n)
    ensures Walk([q, null], n) == Ancestors(n)
  {
    assert Ancestors(n) == [p, n];
    assert [q, n][0] == q;
    var cleared: seq<BlockNode?> := [q, null];
    assert cleared[1 := n][0 := p] == [p, n];
    assert Walk(cleared[1 := n][0 := p], null) == [p, n];
    assert Walk(cleared[1 := n], p) == [p, n];
  }

  class BlockIndex {
    /** mainChain is the slice backing[..len] with capacity backing.Length. */
    var backing: array<BlockNode?>
    var len: nat

    constructor ()
      ensures Valid() && MainChain() == [] && fresh(backing)
    {
      backing := new BlockNode?[0];
      len := 0;
    }

    ghost function MainChain(): seq<BlockNode?>
      requires len <= backing.Length
      reads this, backing
    {
      backing[..len]
    }

    /** The slice is empty or is the chain of its last node. What lies beyond len is not constrained. */
    ghost predicate Valid()
      reads this, backing
    {
      && len <= backing.Length
      && (len > 0 ==>
            && backing[len - 1] != null && backing[len - 1].height == len - 1 && Rooted(backing[len - 1])
            && MainChain() == Ancestors(backing[len - 1]))
    }

    /** The first half of SetMainChain: make the slice `needed` long, with nothing in the slots beyond the old
        length. */
    method Resize(needed: nat)
      requires len <= backing.Length
      modifies this, backing
      ensures len == needed <= backing.Length && (backing == old(backing) || fresh(backing))
      ensures forall i :: 0 <= i < needed ==> backing[i] == if i < old(len) then old(backing[i]) else null
    {
      if backing.Length < needed {
        var nodes := new BlockNode?[needed + APPROX_NODES_PER_DAY](_ => null);
        forall i | 0 <= i < len {
          nodes[i] := backing[i];
        }
        backing := nodes;
        len := needed;
      } else {
        var i := len;
        len := needed;
        while i < needed
          invariant len == needed && backing == old(backing) && old(len) <= i
          invariant forall k :: 0 <= k < backing.Length ==>
                      backing[k] == if old(len) <= k < i then null else old(backing[k])
        {
          backing[i] := null;
          i := i + 1;
        }
      }
    }

    /** The second half: write the node and its parents until a slot already holds its node. */
    method WriteChain(node: BlockNode)
      requires Rooted(node) && len == node.height + 1 <= backing.Length
      modifies backing
      ensures MainChain() == Walk(old(MainChain()), node)
    {
      var n: BlockNode? := node;
      while n != null && backing[n.height] != n
        invariant n != null ==> Rooted(n) && n.height < len
        invariant Walk(MainChain(), n) == Walk(old(MainChain()), node)
        decreases if n == null then 0 else n.height + 1
      {
        ghost var before := MainChain();
        backing[n.height] := n;
        assert MainChain() == before[n.height := n];
        n := n.parent;
      }
    }

    /** After any earlier calls, the main chain is exactly the given node's chain. */
    method SetMainChain(node: BlockNode)
      requires Valid() && Rooted(node)
      modifies this, backing
      ensures Valid() && MainChain() == Ancestors(node)
      ensures backing == old(backing) || fresh(backing)
    {
      ghost var before := MainChain();
      Resize(node.height + 1);
      if before == [] {
        EmptySlotsWalk(MainChain(), node);
      } else {
        ResizedChainWalks(before[|before| - 1], MainChain(), node);
      }
      WriteChain(node);
      assert backing[len - 1] == MainChain()[len - 1] == Ancestors(node)[node.height] == node;
    }
  }

  /** A whole run of calls ends with the chain of the last node, whatever grew, shrank or branched on the way. */
  method SetInTurn(index: BlockIndex, nodes: seq<BlockNode>)
    requires index.Valid() && nodes != []
    requires forall i :: 0 <= i < |nodes| ==> Rooted(nodes[i])
    modifies index, index.backing
    ensures index.Valid() && index.MainChain() == Ancestors(nodes[|nodes| - 1])
  {
    for i := 0 to |nodes|
      invariant index.Valid() && (index.backing == old(index.backing) || fresh(index.backing))
      invariant i > 0 ==> index.MainChain() == Ancestors(nodes[i - 1])
    {
      index.SetMainChain(nodes[i]);
    }
  }
}
