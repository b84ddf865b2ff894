/** Selecting and picking addresses, and saving and reloading the book. */
module AddrBookReads {
  import opened Bytes
  import opened AddrBookModel
  import opened AddrBookRuns
  import opened AddrBookCode

  /** The keys of a map in some order, as a range loop visits them. */
  method Enumerate(m: Bucket) returns (list: seq<Addr>)
    ensures |list| == |m| && forall a :: a in list <==> a in m
    ensures AllDistinct(list)
  {
    list := [];
    var rest := m.Keys;
    while rest != {}
      invariant rest <= m.Keys && |list| + |rest| == |m|
      invariant forall a :: a in list <==> a in m && a !in rest
      invariant AllDistinct(list)
      decreases rest
    {
      var a :| a in rest;
      rest := rest - {a};
      list := list + [a];
    }
  }

  ghost predicate AllDistinct(list: seq<Addr>) {
    forall i, j :: 0 <= i < j < |list| ==> list[i] != list[j]
  }

  /** The shuffle of GetSelection, in place: each of the first num places takes a drawn later element. */
  method Shuffle(all: array<Addr>, num: nat, draw: nat -> nat)
    requires num <= all.Length && AllDistinct(all[..])
    modifies all
    ensures AllDistinct(all[..]) && multiset(all[..]) == old(multiset(all[..]))
  {
    for i := 0 to num
      invariant AllDistinct(all[..]) && multiset(all[..]) == old(multiset(all[..]))
    {
      var j := draw(i) % (all.Length - i) + i;
      assert forall k, l :: 0 <= k < l < all.Length ==> all[..][k] == all[k] != all[l] == all[..][l];
      all[i], all[j] := all[j], all[i];
    }
  }

  /** The first num elements after the shuffle. */
  method Sample(list: seq<Addr>, num: nat, draw: nat -> nat) returns (r: seq<Addr>)
    requires num <= |list| && AllDistinct(list)
    ensures |r| == num && AllDistinct(r) && forall i :: 0 <= i < |r| ==> r[i] in list
  {
    var all := new Addr[|list|](i requires 0 <= i < |list| => list[i]);
    assert all[..] == list;
    Shuffle(all, num, draw);
    r := all[..num];
    assert forall i :: 0 <= i < |r| ==> r[i] == all[..][i];
    forall i | 0 <= i < |r| ensures r[i] in list {
      assert all[..][i] in multiset(all[..]);
      assert r[i] in multiset(list);
    }
  }

  /** GetSelection. `draw(i)` feeds Intn in round i. */
  method GetSelection(book: AddrBook, draw: nat -> nat) returns (r: seq<Addr>)
    requires book.Valid()
    ensures |r| == SelectionSize(|book.addrLookup|)
    ensures forall i :: 0 <= i < |r| ==> r[i] in book.addrLookup
    ensures AllDistinct(r)
  {
    SizeIsLookup(book.View());
    assert |book.entries| == |book.entries.Keys| == |book.addrLookup.Keys| == |book.addrLookup|;
    var size := book.nNew + book.nOld;
    if size == 0 {
      return [];
    }
    var num := Max(Min(32, size), size * 23 / 100);
    num := Min(250, num);
    SelectionFits(size);
    var list := Enumerate(book.addrLookup);
    r := Sample(list, num, draw);
  }

  function Clamp(bias: int): int {
    if bias > 100 then 100 else if bias < 0 then 0 else bias
  }

  /** The draw of PickAddress against the two weights. */
  predicate DrawsOld(newC: real, oldC: real, rnd: real) {
    (newC + oldC) * rnd < oldC
  }

  /** PickAddress takes the old side when this holds; the square roots are exact. */
  predicate FromOld(sqrtNew: real, sqrtOld: real, bias: int, rnd: real) {
    DrawsOld(sqrtNew * (bias as real), sqrtOld * (100.0 - (bias as real)), rnd)
  }

  function Times(x: real, y: real): real {
    x * y
  }

  predicate IsSqrt(x: real, n: int) {
    x >= 0.0 && Times(x, x) == (n as real)
  }

  lemma SqrtZero(x: real, n: int)
    requires IsSqrt(x, n)
    ensures x == 0.0 <==> n == 0
  {
    assert (n as real) == 0.0 <==> n == 0;
    if x == 0.0 {
      assert Times(0.0, 0.0) == 0.0;
    } else {
      MulPositive(x, x);
      assert (n as real) > 0.0;
    }
  }

  lemma MulPositive(x: real, y: real)
    requires x > 0.0 && y > 0.0
    ensures Times(x, y) > 0.0
  {
  }

  lemma DrawWithoutOld(newC: real, rnd: real)
    requires newC >= 0.0 && rnd >= 0.0
    ensures !DrawsOld(newC, 0.0, rnd)
  {
    assert newC + 0.0 == newC;
    if newC > 0.0 && rnd > 0.0 {
      MulPositive(newC, rnd);
    } else {
      assert newC * rnd == 0.0;
    }
  }

  lemma DrawWithoutNew(oldC: real, rnd: real)
    requires oldC >= 0.0 && rnd < 1.0
    ensures DrawsOld(0.0, oldC, rnd) <==> oldC > 0.0
  {
    if oldC > 0.0 {
      MulPositive(oldC, 1.0 - rnd);
    }
  }

  /** The chosen side has no address only when the caller insists on new ones and there are none. */
  lemma ChosenSideEmpty(nNew: nat, nOld: nat, sqrtNew: real, sqrtOld: real, bias: int, rnd: real)
    requires IsSqrt(sqrtNew, nNew) && IsSqrt(sqrtOld, nOld) && 0.0 <= rnd < 1.0
    requires 0 <= bias <= 100 && nNew + nOld > 0
    ensures (if FromOld(sqrtNew, sqrtOld, bias, rnd) then nOld == 0 else nNew == 0) <==> bias == 100 && nNew == 0
  {
    SqrtZero(sqrtNew, nNew);
    SqrtZero(sqrtOld, nOld);
    if nOld == 0 {
      assert sqrtNew * (bias as real) >= 0.0;
      DrawWithoutOld(sqrtNew * (bias as real), rnd);
    } else if nNew == 0 {
      var oldC := sqrtOld * (100.0 - (bias as real));
      if bias < 100 {
        MulPositive(sqrtOld, 100.0 - (bias as real));
      }
      DrawWithoutNew(oldC, rnd);
      assert sqrtNew * (bias as real) == 0.0;
    }
  }

  /** The last loop of PickAddress: walk the bucket until the drawn index runs out. */
  method PickFrom(bucket: Bucket, rnd: nat) returns (ka: KnownAddress)
    requires bucket != map[]
    ensures exists a :: a in bucket && bucket[a] == ka
  {
    assert |bucket| > 0;
    var randIndex := rnd % |bucket|;
    var rest := bucket.Keys;
    while true
      invariant rest <= bucket.Keys && 0 <= randIndex < |rest|
      decreases randIndex
    {
      var a :| a in rest;
      if randIndex == 0 {
        return bucket[a];
      }
      randIndex := randIndex - 1;
      rest := rest - {a};
    }
  }

  /** Intn(n) on its k-th call. */
  function Intn(draws: nat -> nat, n: nat, k: nat): (i: nat)
    requires n > 0
    ensures i < n
  {
    draws(k) % n
  }

  /** Fair draws: each of n numbers comes up among the first `bound` ones. */
  ghost predicate Fair(draws: nat -> nat, n: nat, bound: nat)
    requires n > 0
  {
    forall i :: 0 <= i < n ==> Drawn(draws, n, bound, i)
  }

  ghost predicate Drawn(draws: nat -> nat, n: nat, bound: nat, i: nat)
    requires n > 0
  {
    exists k: nat :: k < bound && Intn(draws, n, k) == i
  }

  /** The loop that draws buckets until one is not empty: with fair draws it ends, at the first that hits. */
  method DrawBucket(bs: seq<Bucket>, draws: nat -> nat, ghost bound: nat) returns (i: nat)
    requires (exists j :: 0 <= j < |bs| && bs[j] != map[]) && Fair(draws, |bs|, bound)
    ensures i < |bs| && bs[i] != map[]
    ensures exists k: nat ::
              Intn(draws, |bs|, k) == i && forall j: nat :: j < k ==> bs[Intn(draws, |bs|, j)] == map[]
  {
    ghost var hit :| 0 <= hit < |bs| && bs[hit] != map[];
    assert Drawn(draws, |bs|, bound, hit);
    ghost var last: nat :| last < bound && Intn(draws, |bs|, last) == hit;
    var k: nat := 0;
    i := Intn(draws, |bs|, k);
    while bs[i] == map[]
      invariant k <= last && i == Intn(draws, |bs|, k)
      invariant forall j: nat :: j < k ==> bs[Intn(draws, |bs|, j)] == map[]
      decreases last - k
    {
      k := k + 1;
      i := Intn(draws, |bs|, k);
    }
  }

  /** PickAddress, with fair draws of buckets. */
  method PickAddress(book: AddrBook, bias: int, sqrtNew: real, sqrtOld: real, rnd: real, draws: nat -> nat, index: nat,
                     ghost bound: nat)
    returns (r: Option<Addr>)
    requires book.Valid() && Fair(draws, NEW_BUCKETS, bound) && Fair(draws, OLD_BUCKETS, bound)
    requires IsSqrt(sqrtNew, book.nNew) && IsSqrt(sqrtOld, book.nOld) && 0.0 <= rnd < 1.0
    ensures r.None? <==> |book.addrLookup| == 0 || (bias >= 100 && book.nNew == 0)
    ensures r.Some? ==>
              && r.value in book.addrLookup
              && (book.addrLookup[r.value].bucketType == Old <==> FromOld(sqrtNew, sqrtOld, Clamp(bias), rnd))
  {
    ghost var b := book.View();
    SizeIsLookup(b);
    KindHasBucket(b);
    assert |book.entries| == |book.entries.Keys| == |book.addrLookup.Keys| == |book.addrLookup|;
    if book.nNew + book.nOld == 0 {
      return None;
    }
    ChosenSideEmpty(book.nNew, book.nOld, sqrtNew, sqrtOld, Clamp(bias), rnd);
    var fromOld := FromOld(sqrtNew, sqrtOld, Clamp(bias), rnd);
    if (fromOld && book.nOld == 0) || (!fromOld && book.nNew == 0) {
      return None;
    }
    var ka: KnownAddress;
    if fromOld {
      NonEmptyBucket(book.bucketsOld);
      var i := DrawBucket(book.bucketsOld, draws, bound);
      ka := PickFrom(book.bucketsOld[i], index);
      InBucketInBook(book, Old, i, ka);
    } else {
      NonEmptyBucket(book.bucketsNew);
      var i := DrawBucket(book.bucketsNew, draws, bound);
      ka := PickFrom(book.bucketsNew[i], index);
      InBucketInBook(book, New, i, ka);
    }
    return Some(ka.addr);
  }

  lemma NonEmptyBucket(bs: seq<Bucket>)
    requires exists i :: 0 <= i < |bs| && Keys(bs)[i] != {}
    ensures exists i :: 0 <= i < |bs| && bs[i] != map[]
  {
    var i :| 0 <= i < |bs| && Keys(bs)[i] != {};
    assert bs[i].Keys != {};
    assert bs[i] != map[];
  }

  /** What is in a bucket is in the book, of that bucket's kind. */
  lemma InBucketInBook(book: AddrBook, kind: Kind, i: nat, ka: KnownAddress)
    requires book.Valid()
    requires var bs := if kind == New then book.bucketsNew else book.bucketsOld;
             i < |bs| && exists a :: a in bs[i] && bs[i][a] == ka
    ensures book.InBook(ka) && ka.bucketType == kind
  {
    var bs := if kind == New then book.bucketsNew else book.bucketsOld;
    var a :| a in bs[i] && bs[i][a] == ka;
    var b := book.View();
    assert a in Keys(bs)[i];
    assert BucketOk(b, kind, i, Keys(bs)[i]);
    assert Holds(b, kind, a, i);
    assert SharesWith(bs[i], book.addrLookup);
  }

  /** In an empty book, an addition and its promotion leave one address, an old one. */
  lemma PromotedAlone(add: Op, good: Op)
    requires add.Add? && add.allowed && good.MarkGood? && good.a == add.a && ValidRun(EmptyBook(), [add, good])
    ensures var c := Final(EmptyBook(), [add, good]); c.nNew == 0 && c.nOld == 1 && c.lookup.Keys == {add.a}
  {
    var a, i, j := add.a, add.bucket, good.bucket;
    var b := Step(EmptyBook(), add);
    assert b == PutNew(EmptyBook(), a, i);
    assert Refs(EmptyBook(), a) + [i] == [i];
    assert b.lookup == map[a := Entry(New, [i])] && b.nNew == 1;
    assert Step(b, good) == MoveToOld(b, a, j);
    assert [add, good][1..] == [good] && [good][1..] == [];
    assert Final(EmptyBook(), [add, good]) == Final(b, [good]) == Step(b, good);
  }

  /** A book whose one address is old. */
  method OneOldAddress(a: Addr, src: Addr, hash: nat, hashOld: nat) returns (book: AddrBook)
    ensures fresh(book) && book.Valid() && a in book.addrLookup && book.nNew == 0 && book.nOld == 1
  {
    book := new AddrBook(false);
    var calls := [Adding(Some(a), Some(src), true, 0, hash, 0), Good(a, hashOld, 0)];
    ghost var ops := PerformAll(book, calls);
    assert Matches(calls[0], false, ops[0]) && Matches(calls[1], false, ops[1]);
    assert ops == [ops[0], ops[1]];
    PromotedAlone(ops[0], ops[1]);
    assert a in book.entries;
  }

  /** Insisting on new addresses picks nothing from such a book. */
  method PicksNothing(a: Addr, src: Addr, hash: nat, hashOld: nat, rnd: real, draws: nat -> nat, index: nat,
                      ghost bound: nat)
    returns (book: AddrBook, r: Option<Addr>)
    requires Fair(draws, NEW_BUCKETS, bound) && Fair(draws, OLD_BUCKETS, bound) && 0.0 <= rnd < 1.0
    ensures book.Valid() && a in book.addrLookup && r == None
  {
    book := OneOldAddress(a, src, hash, hashOld);
    r := PickAddress(book, 100, 0.0, 1.0, rnd, draws, index, bound);
  }

  // ---------------------------------------------------------------- saving and loading

  /** `saved` lists every known address of the book once. */
  ghost predicate IsDump(saved: seq<Saved>, lookup: map<Addr, Entry>) {
    && (forall i, j :: 0 <= i < j < |saved| ==> saved[i].addr != saved[j].addr)
    && (forall i :: 0 <= i < |saved| ==> saved[i].addr in lookup && lookup[saved[i].addr] == saved[i].entry)
    && (forall a :: a in lookup ==> exists i :: 0 <= i < |saved| && saved[i].addr == a)
  }

  /** SaveToFile, up to the JSON text. */
  method Save(book: AddrBook) returns (saved: seq<Saved>)
    requires book.Valid()
    ensures IsDump(saved, book.View().lookup)
    ensures forall i :: 0 <= i < |saved| ==> saved[i] == book.addrLookup[saved[i].addr].Stored()
  {
    var list := Enumerate(book.addrLookup);
    saved := [];
    for i := 0 to |list|
      invariant |saved| == i
      invariant forall k :: 0 <= k < i ==> saved[k] == book.addrLookup[list[k]].Stored()
    {
      saved := saved + [book.addrLookup[list[i]].Stored()];
    }
    DumpOf(book, list, saved);
  }

  /** The stored forms of all known addresses, listed once each, are a dump of the book. */
  lemma DumpOf(book: AddrBook, list: seq<Addr>, saved: seq<Saved>)
    requires book.Valid() && AllDistinct(list) && (forall a :: a in list <==> a in book.addrLookup)
    requires |saved| == |list| && forall k :: 0 <= k < |list| ==> saved[k] == book.addrLookup[list[k]].Stored()
    ensures IsDump(saved, book.View().lookup)
    ensures forall i :: 0 <= i < |saved| ==> saved[i] == book.addrLookup[saved[i].addr].Stored()
  {
    var lookup := book.View().lookup;
    forall k | 0 <= k < |list| ensures saved[k].addr == list[k] && saved[k].entry == lookup[list[k]] {
      assert list[k] in book.addrLookup;
    }
    Listed(list, saved, lookup);
  }

  lemma Listed(list: seq<Addr>, saved: seq<Saved>, lookup: map<Addr, Entry>)
    requires AllDistinct(list) && (forall a :: a in list <==> a in lookup) && |saved| == |list|
    requires forall k :: 0 <= k < |list| ==> saved[k].addr == list[k] && saved[k].entry == lookup[list[k]]
    ensures IsDump(saved, lookup)
  {
    forall a | a in lookup ensures exists i :: 0 <= i < |saved| && saved[i].addr == a {
      var i :| 0 <= i < |list| && list[i] == a;
      assert saved[i].addr == a;
    }
  }

  /** One round of the loop in loadFromFile. */
  function LoadOne(b: Book, s: Saved): Book {
    var l := b.lookup[s.addr := s.entry];
    match s.entry.kind
    case New => b.(lookup := l, nNew := b.nNew + 1, new_ := InsertedKeys(b.new_, s.entry.refs, s.addr))
    case Old => b.(lookup := l, nOld := b.nOld + 1, old_ := InsertedKeys(b.old_, s.entry.refs, s.addr))
  }

  function InsertedKeys(bs: seq<set<Addr>>, refs: seq<nat>, a: Addr): seq<set<Addr>> {
    seq(|bs|, i requires 0 <= i < |bs| => if i in refs then bs[i] + {a} else bs[i])
  }

  function LoadAll(b: Book, saved: seq<Saved>): Book
    decreases |saved|
  {
    if saved == [] then b else LoadAll(LoadOne(b, saved[0]), saved[1..])
  }

  /** Buckets and counters are what the lookup says, sizes aside. */
  ghost predicate Mirrors(b: Book) {
    && |b.new_| == NEW_BUCKETS && |b.old_| == OLD_BUCKETS && CountsOk(b)
    && (forall i, a :: 0 <= i < NEW_BUCKETS ==> (a in b.new_[i] <==> Holds(b, New, a, i)))
    && (forall i, a :: 0 <= i < OLD_BUCKETS ==> (a in b.old_[i] <==> Holds(b, Old, a, i)))
  }

  lemma LoadOneMirrors(b: Book, s: Saved)
    requires Mirrors(b) && s.addr !in b.lookup
    ensures Mirrors(LoadOne(b, s))
  {
    KindsPut(b.lookup, s.addr, s.entry, New);
    KindsPut(b.lookup, s.addr, s.entry, Old);
    var c := LoadOne(b, s);
    forall i, a | 0 <= i < NEW_BUCKETS ensures a in c.new_[i] <==> Holds(c, New, a, i) {
      assert a in b.new_[i] <==> Holds(b, New, a, i);
    }
    forall i, a | 0 <= i < OLD_BUCKETS ensures a in c.old_[i] <==> Holds(c, Old, a, i) {
      assert a in b.old_[i] <==> Holds(b, Old, a, i);
    }
  }

  ghost predicate FreshFor(saved: seq<Saved>, b: Book) {
    && (forall i, j :: 0 <= i < j < |saved| ==> saved[i].addr != saved[j].addr)
    && (forall i :: 0 <= i < |saved| ==> saved[i].addr !in b.lookup)
  }

  /** Loading keeps buckets and counters in step with the lookup, which gains exactly the saved entries. */
  lemma {:induction false} LoadAllMirrors(b: Book, saved: seq<Saved>)
    requires Mirrors(b) && FreshFor(saved, b)
    ensures Mirrors(LoadAll(b, saved)) && LoadAll(b, saved).ours == b.ours
    ensures forall a :: a in b.lookup ==> a in LoadAll(b, saved).lookup && LoadAll(b, saved).lookup[a] == b.lookup[a]
    ensures forall i :: 0 <= i < |saved| ==>
              saved[i].addr in LoadAll(b, saved).lookup && LoadAll(b, saved).lookup[saved[i].addr] == saved[i].entry
    ensures forall a :: a in LoadAll(b, saved).lookup ==>
              a in b.lookup || exists i :: 0 <= i < |saved| && saved[i].addr == a
    decreases |saved|
  {
    if saved != [] {
      var c := LoadOne(b, saved[0]);
      var rest := saved[1..];
      LoadOneMirrors(b, saved[0]);
      LoadAllMirrors(c, rest);
      assert forall i :: 0 < i < |saved| ==> saved[i] == rest[i - 1];
      forall a | a in LoadAll(b, saved).lookup && a !in b.lookup
        ensures exists i :: 0 <= i < |saved| && saved[i].addr == a
      {
        if a != saved[0].addr {
          var i :| 0 <= i < |rest| && rest[i].addr == a;
          assert saved[i + 1].addr == a;
        }
      }
    }
  }

  /** The lookup determines the rest of a book. */
  lemma LookupDetermines(b: Book, c: Book)
    requires Ok(b) && Mirrors(c) && b.lookup == c.lookup && b.ours == c.ours
    ensures b == c
  {
    forall i | 0 <= i < NEW_BUCKETS ensures b.new_[i] == c.new_[i] {
      assert BucketOk(b, New, i, b.new_[i]);
      forall a ensures a in b.new_[i] <==> a in c.new_[i] {
        assert Holds(b, New, a, i) <==> Holds(c, New, a, i);
      }
    }
    forall i | 0 <= i < OLD_BUCKETS ensures b.old_[i] == c.old_[i] {
      assert BucketOk(b, Old, i, b.old_[i]);
      forall a ensures a in b.old_[i] <==> a in c.old_[i] {
        assert Holds(b, Old, a, i) <==> Holds(c, Old, a, i);
      }
    }
    assert b.new_ == c.new_ && b.old_ == c.old_;
  }

  lemma SameLookup(b: Book, l: map<Addr, Entry>, saved: seq<Saved>)
    requires IsDump(saved, b.lookup)
    requires forall i :: 0 <= i < |saved| ==> saved[i].addr in l && l[saved[i].addr] == saved[i].entry
    requires forall a :: a in l ==> exists i :: 0 <= i < |saved| && saved[i].addr == a
    ensures l == b.lookup
  {
  }

  /** Saving a book and loading the dump, in any order of entries, into a fresh book rebuilds the same
      lookup, buckets and counters. */
  lemma {:induction false} LoadUndoesSave(b: Book, saved: seq<Saved>)
    requires Ok(b) && IsDump(saved, b.lookup)
    ensures LoadAll(EmptyBook().(ours := b.ours), saved) == b
  {
    var empty := EmptyBook().(ours := b.ours);
    assert OfKind(map[], New) == {} && OfKind(map[], Old) == {};
    LoadAllMirrors(empty, saved);
    SameLookup(b, LoadAll(empty, saved).lookup, saved);
    LookupDetermines(b, LoadAll(empty, saved));
  }

  function Addrs(saved: seq<Saved>): set<Addr> {
    if saved == [] then {} else {saved[0].addr} + Addrs(saved[1..])
  }

  /** Every saved entry is counted, whether or not its address came before. */
  lemma {:induction false} LoadAllCounts(b: Book, saved: seq<Saved>)
    ensures LoadAll(b, saved).nNew + LoadAll(b, saved).nOld == b.nNew + b.nOld + |saved|
    ensures LoadAll(b, saved).lookup.Keys == b.lookup.Keys + Addrs(saved)
    decreases |saved|
  {
    if saved != [] {
      LoadAllCounts(LoadOne(b, saved[0]), saved[1..]);
    }
  }

  lemma {:induction false} AddrsAtMost(saved: seq<Saved>)
    ensures |Addrs(saved)| <= |saved|
    ensures |Addrs(saved)| == |saved| ==> FreshFor(saved, EmptyBook())
  {
    if saved != [] {
      var tail := saved[1..];
      AddrsAtMost(tail);
      if |Addrs(saved)| == |saved| {
        assert saved[0].addr !in Addrs(tail) && |Addrs(tail)| == |tail|;
        forall i, j | 0 <= i < j < |saved| ensures saved[i].addr != saved[j].addr {
          assert saved[j] == tail[j - 1];
          InAddrs(tail, j - 1);
          if i > 0 {
            assert saved[i] == tail[i - 1];
          }
        }
      }
    }
  }

  lemma {:induction false} InAddrs(saved: seq<Saved>, i: nat)
    requires i < |saved|
    ensures saved[i].addr in Addrs(saved)
  {
    if i > 0 {
      InAddrs(saved[1..], i - 1);
    }
  }

  /** Loading any list of entries into an empty book gives buckets and counters that agree with the lookup
      exactly when no address is listed twice: a repeated one is counted again. */
  lemma {:induction false} LoadAgreesIff(saved: seq<Saved>)
    ensures Mirrors(LoadAll(EmptyBook(), saved)) <==> FreshFor(saved, EmptyBook())
  {
    var b := LoadAll(EmptyBook(), saved);
    if FreshFor(saved, EmptyBook()) {
      assert OfKind(map[], New) == {} && OfKind(map[], Old) == {};
      LoadAllMirrors(EmptyBook(), saved);
    }
    if Mirrors(b) {
      SizeIsLookup(b);
      LoadAllCounts(EmptyBook(), saved);
      assert b.lookup.Keys == Addrs(saved);
      AddrsAtMost(saved);
    }
  }

  /** The saved addresses that go into bucket i of a kind. */
  function Members(saved: seq<Saved>, kind: Kind, i: nat): set<Addr> {
    set k | 0 <= k < |saved| && saved[k].entry.kind == kind && i in saved[k].entry.refs :: saved[k].addr
  }

  /** A file that gives a good book: no address twice, every entry with the references its kind allows, no bucket
      over its bound. */
  ghost predicate Loadable(saved: seq<Saved>) {
    && FreshFor(saved, EmptyBook())
    && (forall k :: 0 <= k < |saved| ==> EntryOk(saved[k].entry))
    && (forall i :: 0 <= i < NEW_BUCKETS ==> |Members(saved, New, i)| <= BUCKET_SIZE + 1)
    && (forall i :: 0 <= i < OLD_BUCKETS ==> |Members(saved, Old, i)| <= BUCKET_SIZE + 1)
  }

  ghost predicate WithinBounds(b: Book) {
    && (forall i :: 0 <= i < |b.new_| ==> |b.new_[i]| <= BUCKET_SIZE + 1)
    && (forall i :: 0 <= i < |b.old_| ==> |b.old_[i]| <= BUCKET_SIZE + 1)
  }

  lemma OkIff(b: Book)
    ensures Ok(b) <==> Mirrors(b) && EntriesOk(b) && WithinBounds(b)
  {
    if Ok(b) {
      assert forall i :: 0 <= i < NEW_BUCKETS ==> BucketOk(b, New, i, b.new_[i]);
      assert forall i :: 0 <= i < OLD_BUCKETS ==> BucketOk(b, Old, i, b.old_[i]);
    }
    if Mirrors(b) && EntriesOk(b) && WithinBounds(b) {
      assert forall i :: 0 <= i < NEW_BUCKETS ==> BucketOk(b, New, i, b.new_[i]);
      assert forall i :: 0 <= i < OLD_BUCKETS ==> BucketOk(b, Old, i, b.old_[i]);
    }
  }

  lemma {:induction false} LoadedLookup(saved: seq<Saved>)
    requires FreshFor(saved, EmptyBook())
    ensures var l := LoadAll(EmptyBook(), saved).lookup;
            && (forall k :: 0 <= k < |saved| ==> saved[k].addr in l && l[saved[k].addr] == saved[k].entry)
            && (forall a :: a in l ==> exists k :: 0 <= k < |saved| && saved[k].addr == a)
  {
    assert OfKind(map[], New) == {} && OfKind(map[], Old) == {};
    LoadAllMirrors(EmptyBook(), saved);
  }

  lemma {:induction false} LoadedMembers(saved: seq<Saved>, kind: Kind, i: nat, a: Addr)
    requires FreshFor(saved, EmptyBook())
    ensures Holds(LoadAll(EmptyBook(), saved), kind, a, i) <==> a in Members(saved, kind, i)
  {
    LoadedLookup(saved);
    var l := LoadAll(EmptyBook(), saved).lookup;
    if a in l {
      var k :| 0 <= k < |saved| && saved[k].addr == a;
      assert l[a] == saved[k].entry;
    }
  }

  lemma {:induction false} LoadedBuckets(saved: seq<Saved>)
    requires FreshFor(saved, EmptyBook())
    ensures var b := LoadAll(EmptyBook(), saved);
            && Mirrors(b)
            && (forall i :: 0 <= i < NEW_BUCKETS ==> b.new_[i] == Members(saved, New, i))
            && (forall i :: 0 <= i < OLD_BUCKETS ==> b.old_[i] == Members(saved, Old, i))
  {
    LoadAgreesIff(saved);
    var b := LoadAll(EmptyBook(), saved);
    forall i | 0 <= i < NEW_BUCKETS ensures b.new_[i] == Members(saved, New, i) {
      forall a ensures a in b.new_[i] <==> a in Members(saved, New, i) {
        LoadedMembers(saved, New, i, a);
      }
    }
    forall i | 0 <= i < OLD_BUCKETS ensures b.old_[i] == Members(saved, Old, i) {
      forall a ensures a in b.old_[i] <==> a in Members(saved, Old, i) {
        LoadedMembers(saved, Old, i, a);
      }
    }
  }

  lemma {:induction false} LoadedEntries(saved: seq<Saved>)
    requires FreshFor(saved, EmptyBook())
    ensures EntriesOk(LoadAll(EmptyBook(), saved)) <==> forall k :: 0 <= k < |saved| ==> EntryOk(saved[k].entry)
  {
    LoadedLookup(saved);
    var b := LoadAll(EmptyBook(), saved);
    if EntriesOk(b) {
      forall k | 0 <= k < |saved| ensures EntryOk(saved[k].entry) {
        assert EntryOk(b.lookup[saved[k].addr]);
      }
    }
    if forall k :: 0 <= k < |saved| ==> EntryOk(saved[k].entry) {
      forall a | a in b.lookup ensures EntryOk(b.lookup[a]) {
        var k :| 0 <= k < |saved| && saved[k].addr == a;
        assert EntryOk(saved[k].entry);
      }
    }
  }

  /** Loading a list of entries into an empty book gives a book with the invariant that every later call needs, exactly
      for the loadable lists. */
  lemma {:induction false} LoadOkIff(saved: seq<Saved>)
    ensures Ok(LoadAll(EmptyBook(), saved)) <==> Loadable(saved)
  {
    var b := LoadAll(EmptyBook(), saved);
    OkIff(b);
    LoadAgreesIff(saved);
    if FreshFor(saved, EmptyBook()) {
      LoadedEntries(saved);
      LoadedBuckets(saved);
    }
  }

  ghost predicate Inserted(bs: seq<Bucket>, refs: seq<nat>, ka: KnownAddress, r: seq<Bucket>) {
    && |r| == |bs|
    && forall k :: 0 <= k < |bs| ==> r[k] == if k in refs then bs[k][ka.addr := ka] else bs[k]
  }

  /** The inner loop of loadFromFile. */
  method InsertInto(bs: seq<Bucket>, refs: seq<nat>, ka: KnownAddress) returns (r: seq<Bucket>)
    requires forall i :: i in refs ==> i < |bs|
    ensures Inserted(bs, refs, ka, r)
  {
    r := bs;
    for j := 0 to |refs|
      invariant Inserted(bs, refs[..j], ka, r)
    {
      var i := refs[j];
      assert i in refs;
      r := r[i := r[i][ka.addr := ka]];
      assert refs[..j + 1] == refs[..j] + [i];
    }
    assert refs[..|refs|] == refs;
  }

  lemma InsertedLinked(lookup: Bucket, bs: seq<Bucket>, refs: seq<nat>, ka: KnownAddress, r: seq<Bucket>)
    requires Linked(lookup, bs) && OnlyHolds(bs, ka) && Inserted(bs, refs, ka, r)
    ensures Linked(lookup[ka.addr := ka], r)
    ensures Keys(r) == InsertedKeys(Keys(bs), refs, ka.addr)
  {
    forall i | 0 <= i < |r| ensures SharesWith(r[i], lookup[ka.addr := ka]) {
      assert SharesWith(bs[i], lookup);
    }
    forall i | 0 <= i < |r| ensures Keys(r)[i] == InsertedKeys(Keys(bs), refs, ka.addr)[i] {
      assert bs[i][ka.addr := ka].Keys == bs[i].Keys + {ka.addr};
    }
  }

  /** Bucket indices in range, as any saved book has them. */
  predicate InRange(s: Saved) {
    forall i :: i in s.entry.refs ==> i < if s.entry.kind == New then NEW_BUCKETS else OLD_BUCKETS
  }

  /** One round of loadFromFile for a new entry, once its object is made. */
  method LoadNew(book: AddrBook, ka: KnownAddress)
    requires book.AllLinked() && ka.bucketType == New && ka.addr !in book.addrLookup && InRange(ka.Stored())
    requires OnlyHolds(book.bucketsNew, ka) && OnlyHolds(book.bucketsOld, ka)
    requires |book.bucketsNew| == NEW_BUCKETS && |book.bucketsOld| == OLD_BUCKETS
    modifies book
    ensures book.AllLinked() && book.View() == LoadOne(old(book.View()), ka.Stored())
    ensures book.addrLookup == old(book.addrLookup)[ka.addr := ka]
  {
    ghost var c := LoadOne(book.View(), ka.Stored());
    var r := InsertInto(book.bucketsNew, ka.buckets, ka);
    InsertedLinked(book.addrLookup, book.bucketsNew, ka.buckets, ka, r);
    LinkedPut(book.addrLookup, book.bucketsOld, ka);
    assert Keys(r) == c.new_;
    book.bucketsNew, book.nNew := r, book.nNew + 1;
    book.addrLookup := book.addrLookup[ka.addr := ka];
    book.entries := c.lookup;
    assert Linked(book.addrLookup, book.bucketsNew) && Linked(book.addrLookup, book.bucketsOld);
    assert book.View() == c;
  }

  /** One round of loadFromFile for an old entry, once its object is made. */
  method LoadOld(book: AddrBook, ka: KnownAddress)
    requires book.AllLinked() && ka.bucketType == Old && ka.addr !in book.addrLookup && InRange(ka.Stored())
    requires OnlyHolds(book.bucketsNew, ka) && OnlyHolds(book.bucketsOld, ka)
    requires |book.bucketsNew| == NEW_BUCKETS && |book.bucketsOld| == OLD_BUCKETS
    modifies book
    ensures book.AllLinked() && book.View() == LoadOne(old(book.View()), ka.Stored())
    ensures book.addrLookup == old(book.addrLookup)[ka.addr := ka]
  {
    ghost var c := LoadOne(book.View(), ka.Stored());
    var r := InsertInto(book.bucketsOld, ka.buckets, ka);
    InsertedLinked(book.addrLookup, book.bucketsOld, ka.buckets, ka, r);
    LinkedPut(book.addrLookup, book.bucketsNew, ka);
    assert Keys(r) == c.old_;
    book.bucketsOld, book.nOld := r, book.nOld + 1;
    book.addrLookup := book.addrLookup[ka.addr := ka];
    book.entries := c.lookup;
    assert Linked(book.addrLookup, book.bucketsNew) && Linked(book.addrLookup, book.bucketsOld);
    assert book.View() == c;
  }

  /** One round of loadFromFile. */
  method LoadEntry(book: AddrBook, s: Saved, ghost done: seq<Saved>) returns (ka: KnownAddress)
    requires book.AllLinked() && Mirrors(book.View()) && s.addr !in book.addrLookup && InRange(s)
    requires Restored(book, done)
    modifies book
    ensures Restored(book, done + [s])
    ensures fresh(ka) && ka.Stored() == s
    ensures book.AllLinked() && book.View() == LoadOne(old(book.View()), s)
    ensures book.addrLookup == old(book.addrLookup)[s.addr := ka]
  {
    ka := new KnownAddress.Restore(s);
    NotInBuckets(book, ka);
    if ka.bucketType == New {
      LoadNew(book, ka);
    } else {
      LoadOld(book, ka);
    }
  }

  lemma NotInBuckets(book: AddrBook, ka: KnownAddress)
    requires book.entries.Keys == book.addrLookup.Keys && Mirrors(book.View()) && ka.addr !in book.addrLookup
    ensures OnlyHolds(book.bucketsNew, ka) && OnlyHolds(book.bucketsOld, ka)
  {
    var b := book.View();
    forall k | 0 <= k < NEW_BUCKETS ensures ka.addr !in book.bucketsNew[k] {
      assert ka.addr in b.new_[k] <==> Holds(b, New, ka.addr, k);
    }
    forall k | 0 <= k < OLD_BUCKETS ensures ka.addr !in book.bucketsOld[k] {
      assert ka.addr in b.old_[k] <==> Holds(b, Old, ka.addr, k);
    }
  }

  /** After the first i entries the book is `now`, and loading the rest ends where loading all from b does. */
  ghost predicate Loading(b: Book, saved: seq<Saved>, i: nat, now: Book)
    requires i <= |saved|
  {
    Mirrors(now) && FreshFor(saved[i..], now) && LoadAll(now, saved[i..]) == LoadAll(b, saved)
  }

  lemma {:induction false} LoadingStep(b: Book, saved: seq<Saved>, i: nat, now: Book)
    requires i < |saved| && Loading(b, saved, i, now)
    ensures saved[i].addr !in now.lookup && Loading(b, saved, i + 1, LoadOne(now, saved[i]))
  {
    assert saved[i..][0] == saved[i] && saved[i..][1..] == saved[i + 1..];
    LoadOneMirrors(now, saved[i]);
  }

  /** The book holds each saved entry with all its fields. */
  ghost predicate Restored(book: AddrBook, saved: seq<Saved>)
    reads book, book.addrLookup.Values
  {
    forall k :: 0 <= k < |saved| ==>
      saved[k].addr in book.addrLookup && book.addrLookup[saved[k].addr].Stored() == saved[k]
  }

  /** loadFromFile, from the decoded JSON on. */
  method Load(book: AddrBook, saved: seq<Saved>)
    requires book.AllLinked() && Mirrors(book.View()) && FreshFor(saved, book.View())
    requires forall i :: 0 <= i < |saved| ==> InRange(saved[i])
    modifies book
    ensures book.AllLinked() && book.View() == LoadAll(old(book.View()), saved) && book.OldOrFresh()
    ensures Restored(book, saved)
  {
    for i := 0 to |saved|
      invariant book.AllLinked() && book.OldOrFresh() && Restored(book, saved[..i])
      invariant Loading(old(book.View()), saved, i, book.View())
    {
      LoadingStep(old(book.View()), saved, i, book.View());
      assert saved[..i + 1] == saved[..i] + [saved[i]];
      var ka := LoadEntry(book, saved[i], saved[..i]);
    }
    assert saved[..|saved|] == saved;
  }

  lemma DumpLoads(b: Book, saved: seq<Saved>)
    requires Ok(b) && IsDump(saved, b.lookup)
    ensures Mirrors(EmptyBook()) && FreshFor(saved, EmptyBook())
    ensures forall i :: 0 <= i < |saved| ==> InRange(saved[i])
  {
    assert forall i :: 0 <= i < |saved| ==> EntryOk(b.lookup[saved[i].addr]);
    assert OfKind(map[], New) == {} && OfKind(map[], Old) == {};
  }

  /** A new book from a dump. */
  method Reload(saved: seq<Saved>, strict: bool, ghost b: Book) returns (copy: AddrBook)
    requires Ok(b) && IsDump(saved, b.lookup)
    ensures fresh(copy) && copy.Valid() && copy.View() == b.(ours := {}) && Restored(copy, saved)
    ensures forall a :: a in copy.addrLookup ==> fresh(copy.addrLookup[a])
  {
    copy := new AddrBook(strict);
    ghost var c := b.(ours := {});
    SameButOurs(b, c);
    DumpLoads(c, saved);
    Load(copy, saved);
    LoadUndoesSave(c, saved);
  }

  /** Save, then load into a new book. */
  method SaveAndReload(book: AddrBook) returns (copy: AddrBook)
    requires book.Valid()
    ensures fresh(copy) && copy.Valid()
    ensures copy.View() == book.View().(ours := {}) && forall a :: a in copy.addrLookup ==> fresh(copy.addrLookup[a])
    ensures SameRecords(book, copy)
  {
    var saved := Save(book);
    copy := Reload(saved, book.routabilityStrict, book.View());
    RestoredAlike(book, copy, saved);
  }

  /** The books record the same of every address: source, attempts, times, kind and buckets. */
  ghost predicate SameRecords(book: AddrBook, copy: AddrBook)
    reads book, copy, book.addrLookup.Values, copy.addrLookup.Values
  {
    && copy.addrLookup.Keys == book.addrLookup.Keys
    && forall a :: a in book.addrLookup ==> copy.addrLookup[a].Stored() == book.addrLookup[a].Stored()
  }

  lemma RestoredAlike(book: AddrBook, copy: AddrBook, saved: seq<Saved>)
    requires book.Valid() && copy.Valid() && copy.View().lookup == book.View().lookup
    requires IsDump(saved, book.View().lookup) && Restored(copy, saved)
    requires forall i :: 0 <= i < |saved| ==> saved[i] == book.addrLookup[saved[i].addr].Stored()
    ensures SameRecords(book, copy)
  {
    forall a | a in book.addrLookup
      ensures a in copy.addrLookup && copy.addrLookup[a].Stored() == book.addrLookup[a].Stored()
    {
      assert a in book.View().lookup;
      var i :| 0 <= i < |saved| && saved[i].addr == a;
    }
    assert copy.entries.Keys == book.entries.Keys;
  }
}
