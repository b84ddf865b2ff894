/**
 The PeerSet of p2p/peer_set.go: a lookup table and a slice that swap-removal keeps in step, and snapshots of
 the slice that share its backing array and still never change.
 */
module PeerSet {

  /** A peer, by its key and its identity. */
  datatype Peer = Peer(key: string, ref: nat)

  datatype Item = Item(peer: Peer, index: nat)

  /** A Go slice that starts at the front of its backing array. */
  datatype Slice = Slice(data: array<Peer>, len: nat)

  /** A slice handed out by List, with what it held then. */
  datatype Snapshot = Snapshot(slice: Slice, contents: seq<Peer>)

  const INITIAL_CAPACITY: nat := 256

  ghost predicate DistinctKeys(s: seq<Peer>) {
    forall i, j :: 0 <= i < j < |s| ==> s[i].key != s[j].key
  }

  function SwapRemove(s: seq<Peer>, i: nat): seq<Peer>
    requires i < |s|
  {
    var last := |s| - 1;
    if i == last then s[..last] else s[..last][i := s[last]]
  }

  /** lookup and list say the same: every listed peer is looked up under its key with its index, and every
      lookup entry is listed. */
  ghost predicate InStep(lookup: map<string, Item>, list: seq<Peer>) {
    && (forall i :: 0 <= i < |list| ==> list[i].key in lookup && lookup[list[i].key] == Item(list[i], i))
    && (forall k :: k in lookup ==> lookup[k].index < |list| && list[lookup[k].index].key == k)
  }

  lemma InStepDistinct(lookup: map<string, Item>, list: seq<Peer>)
    requires InStep(lookup, list)
    ensures DistinctKeys(list)
  {
    forall i, j | 0 <= i < j < |list| ensures list[i].key != list[j].key {
      assert lookup[list[i].key].index == i && lookup[list[j].key].index == j;
    }
  }

  /** The lookup table after entry k is taken out and the last peer has got its index. */
  function Unlist(lookup: map<string, Item>, list: seq<Peer>, k: string): map<string, Item>
    requires k in lookup && list != []
  {
    var i, last := lookup[k].index, list[|list| - 1];
    (if i == |list| - 1 then lookup else lookup[last.key := Item(last, i)]) - {k}
  }

  lemma UnlistInStep(lookup: map<string, Item>, list: seq<Peer>, k: string)
    requires InStep(lookup, list) && k in lookup
    ensures InStep(Unlist(lookup, list, k), SwapRemove(list, lookup[k].index))
    ensures Unlist(lookup, list, k).Keys == lookup.Keys - {k}
  {
    InStepDistinct(lookup, list);
    var i, last := lookup[k].index, list[|list| - 1];
    var lookup', list' := Unlist(lookup, list, k), SwapRemove(list, i);
    forall j | 0 <= j < |list'| ensures list'[j].key in lookup' && lookup'[list'[j].key] == Item(list'[j], j) {
      assert list'[j] == if j == i then last else list[j];
    }
    forall c | c in lookup' ensures lookup'[c].index < |list'| && list'[lookup'[c].index].key == c {
      var m := lookup[c].index;
      assert list[m].key == c && m != i;
    }
  }

  lemma SwapRemovesOne(s: seq<Peer>, i: nat)
    requires i < |s|
    ensures multiset(SwapRemove(s, i)) == multiset(s) - multiset{s[i]}
  {
    var last := |s| - 1;
    assert s == s[..last] + [s[last]];
    if i < last {
      assert s[..last] == s[..i] + [s[i]] + s[i + 1..last];
      assert SwapRemove(s, i) == s[..i] + [s[last]] + s[i + 1..last];
    }
  }

  /** The copy that Remove makes: all but the last peer, with the last one moved into the gap. */
  method CopyWithout(s: Slice, index: nat) returns (copy: array<Peer>)
    requires index < s.len <= s.data.Length
    ensures fresh(copy) && copy[..] == SwapRemove(s.data[..s.len], index)
  {
    var n := s.len;
    copy := new Peer[n - 1];
    forall i | 0 <= i < n - 1 {
      copy[i] := s.data[i];
    }
    assert copy[..] == s.data[..n][..n - 1];
    if index != n - 1 {
      copy[index] := s.data[n - 1];
    }
  }

  class PeerSet {
    var lookup: map<string, Item>
    var list: Slice
    ghost var snapshots: seq<Snapshot>

    ghost function Contents(): seq<Peer>
      requires list.len <= list.data.Length
      reads this, list.data
    {
      list.data[..list.len]
    }

    /** A snapshot still holds what it held; one on the current backing array ends where the list ends or before,
        so an append in place lands behind it. */
    ghost predicate Intact(snap: Snapshot)
      reads this, snap.slice.data
    {
      && snap.slice.len <= snap.slice.data.Length
      && snap.slice.data[..snap.slice.len] == snap.contents
      && (snap.slice.data == list.data ==> snap.slice.len <= list.len)
    }

    ghost predicate Valid()
      reads this, list.data, set i | 0 <= i < |snapshots| :: snapshots[i].slice.data
    {
      && list.len <= list.data.Length
      && InStep(lookup, Contents())
      && forall i :: 0 <= i < |snapshots| ==> Intact(snapshots[i])
    }

    constructor ()
      ensures Valid() && Contents() == [] && lookup == map[] && snapshots == [] && fresh(list.data)
    {
      lookup := map[];
      var data := new Peer[INITIAL_CAPACITY];
      list := Slice(data, 0);
      snapshots := [];
    }

    /** append: in place while there is room, in a larger copy otherwise. */
    method Append(peer: Peer)
      requires list.len <= list.data.Length
      modifies this`list, list.data
      ensures list.len <= list.data.Length && Contents() == old(Contents()) + [peer]
      ensures list.data == old(list.data) || (fresh(list.data) && old(list.data)[..] == old(list.data[..]))
      ensures old(list.data)[..old(list.len)] == old(Contents())
    {
      var n := list.len;
      if n == list.data.Length {
        var bigger := new Peer[2 * n + 1];
        forall i | 0 <= i < n {
          bigger[i] := list.data[i];
        }
        assert bigger[..n] == list.data[..n];
        list := Slice(bigger, n);
      }
      list.data[n] := peer;
      list := Slice(list.data, n + 1);
    }

    /** Add: refuses a key that is present, and changes no snapshot. */
    method Add(peer: Peer) returns (ok: bool)
      requires Valid()
      modifies this, list.data
      ensures Valid() && snapshots == old(snapshots)
      ensures ok <==> peer.key !in old(lookup)
      ensures Contents() == if ok then old(Contents()) + [peer] else old(Contents())
      ensures list.data == old(list.data) || fresh(list.data)
    {
      if peer.key in lookup {
        return false;
      }
      var index := list.len;
      ghost var before := Contents();
      assert forall i :: 0 <= i < |snapshots| ==> Intact(snapshots[i]);
      Append(peer);
      lookup := lookup[peer.key := Item(peer, index)];
      assert InStep(lookup, before + [peer]);
      forall i | 0 <= i < |snapshots| ensures Intact(snapshots[i]) {
        var s := snapshots[i];
        assert old(Intact(snapshots[i]));
        if s.slice.data == old(list.data) {
          assert s.slice.data[..s.slice.len] == s.slice.data[..old(list.len)][..s.slice.len];
          assert s.contents == before[..s.slice.len];
        }
      }
      return true;
    }

    /** The lookup table without a key, and with the index of the peer that moves into its place. */
    method TableWithout(key: string) returns (table: map<string, Item>)
      requires Valid() && key in lookup
      ensures table == Unlist(lookup, Contents(), key)
    {
      var index, n := lookup[key].index, list.len;
      table := lookup;
      if index != n - 1 {
        var last := list.data[n - 1];
        table := table[last.key := Item(last, index)];
      }
      table := table - {key};
    }

    /** Remove: copies the list before it moves the last peer into the gap, and changes no snapshot. */
    method Remove(peer: Peer)
      requires Valid()
      modifies this
      ensures Valid() && snapshots == old(snapshots)
      ensures peer.key in old(lookup) ==>
                && old(lookup)[peer.key].index < |old(Contents())|
                && Contents() == SwapRemove(old(Contents()), old(lookup)[peer.key].index)
                && fresh(list.data)
      ensures peer.key !in old(lookup) ==> Contents() == old(Contents()) && list == old(list)
      ensures lookup.Keys == old(lookup).Keys - {peer.key}
    {
      if peer.key !in lookup {
        return;
      }
      ghost var before := Contents();
      UnlistInStep(lookup, before, peer.key);
      var newList := CopyWithout(list, lookup[peer.key].index);
      var table := TableWithout(peer.key);
      Install(table, newList);
    }

    method Install(table: map<string, Item>, newList: array<Peer>)
      requires Valid() && InStep(table, newList[..])
      requires forall i :: 0 <= i < |snapshots| ==> snapshots[i].slice.data != newList
      modifies this`lookup, this`list
      ensures Valid() && lookup == table && list == Slice(newList, newList.Length) && Contents() == newList[..]
    {
      lookup, list := table, Slice(newList, newList.Length);
      assert Contents() == newList[..];
      forall i | 0 <= i < |snapshots| ensures Intact(snapshots[i]) {
        assert old(Intact(snapshots[i]));
      }
    }

    /** List: the slice itself, without a copy. */
    method List() returns (s: Slice)
      requires Valid()
      modifies this`snapshots
      ensures Valid() && s == list && s.len <= s.data.Length && s.data[..s.len] == Contents()
      ensures snapshots == old(snapshots) + [Snapshot(s, Contents())]
    {
      s := list;
      snapshots := snapshots + [Snapshot(s, Contents())];
    }

    /** The peer loop of Switch.OnStop: removing every peer of one snapshot empties the set. */
    method RemoveAll()
      requires Valid()
      modifies this
      ensures Valid() && Contents() == [] && lookup == map[]
      ensures snapshots == old(snapshots) + [Snapshot(old(list), old(Contents()))]
      ensures list.data == old(list.data) || fresh(list.data)
    {
      var s := List();
      ghost var all, at := Contents(), |snapshots| - 1;
      InStepDistinct(lookup, all);
      assert lookup.Keys == Keys(all[0..]) by { KeysOfList(lookup, all); assert all[0..] == all; }
      for i := 0 to s.len
        invariant Valid() && snapshots == old(snapshots) + [Snapshot(s, all)]
        invariant lookup.Keys == Keys(all[i..]) && (list.data == old(list.data) || fresh(list.data))
      {
        assert Intact(snapshots[at]);
        assert s.data[i] == s.data[..s.len][i] == all[i];
        KeysTail(all, i);
        Remove(s.data[i]);
      }
      assert lookup == map[];
      KeysOfList(lookup, Contents());
      NoKeys(Contents());
    }
  }

  // ---------------------------------------------------------------- keys

  function Keys(s: seq<Peer>): set<string> {
    set i | 0 <= i < |s| :: s[i].key
  }

  lemma KeysOfList(lookup: map<string, Item>, list: seq<Peer>)
    requires InStep(lookup, list)
    ensures lookup.Keys == Keys(list)
  {
    forall k | k in lookup ensures k in Keys(list) {
      assert list[lookup[k].index].key == k;
    }
  }

  lemma NoKeys(s: seq<Peer>)
    ensures Keys(s) == {} <==> s == []
  {
    if s != [] {
      assert s[0].key in Keys(s);
    }
  }

  lemma KeysTail(s: seq<Peer>, i: nat)
    requires i < |s| && DistinctKeys(s)
    ensures Keys(s[i..]) - {s[i].key} == Keys(s[i + 1..])
  {
    var a, b := s[i..], s[i + 1..];
    forall k | k in Keys(a) && k != s[i].key ensures k in Keys(b) {
      var j :| 0 <= j < |a| && a[j].key == k;
      assert b[j - 1].key == k;
    }
    forall k | k in Keys(b) ensures k in Keys(a) && k != s[i].key {
      var j :| 0 <= j < |b| && b[j].key == k;
      assert a[j + 1].key == k && s[i + 1 + j].key == k;
    }
  }
}
