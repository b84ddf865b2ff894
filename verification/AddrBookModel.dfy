/**
 The address book of p2p/pex as a value: which addresses are known, in which buckets, and the two counters.
 Bucket hashes, random draws and the clock appear as arguments.
 */
module AddrBookModel {

  const NEW_BUCKETS: nat := 256
  const OLD_BUCKETS: nat := 64
  const BUCKET_SIZE: nat := 64
  const MAX_REFS: nat := 4

  /** An address is identified by NetAddress.String(). */
  datatype Addr = Addr(text: string)

  datatype Kind = New | Old

  /** BucketType and Buckets of a knownAddress. */
  datatype Entry = Entry(kind: Kind, refs: seq<nat>)

  datatype Book = Book(
    lookup: map<Addr, Entry>,
    new_: seq<set<Addr>>,
    old_: seq<set<Addr>>,
    nNew: int,
    nOld: int,
    ours: set<Addr>)

  function EmptyBook(): Book {
    Book(map[], seq(NEW_BUCKETS, _ => {}), seq(OLD_BUCKETS, _ => {}), 0, 0, {})
  }

  // ---------------------------------------------------------------- bucket references

  ghost predicate Distinct(refs: seq<nat>) {
    forall i, j :: 0 <= i < j < |refs| ==> refs[i] != refs[j]
  }

  /** The references other than i, in order. */
  function Without(refs: seq<nat>, i: nat): seq<nat> {
    if refs == [] then []
    else (if refs[0] != i then [refs[0]] else []) + Without(refs[1..], i)
  }

  lemma {:induction false} WithoutMembers(refs: seq<nat>, i: nat)
    ensures forall k :: k in Without(refs, i) <==> k in refs && k != i
    ensures i !in refs ==> Without(refs, i) == refs
  {
    if refs != [] {
      WithoutMembers(refs[1..], i);
      assert refs == [refs[0]] + refs[1..];
    }
  }

  /** Removing a reference that is there once leaves one reference less, still without repetition. */
  lemma {:induction false} WithoutDistinct(refs: seq<nat>, i: nat)
    requires Distinct(refs)
    ensures Distinct(Without(refs, i))
    ensures |Without(refs, i)| == |refs| - if i in refs then 1 else 0
  {
    WithoutMembers(refs, i);
    if refs != [] {
      WithoutMembers(refs[1..], i);
      WithoutDistinct(refs[1..], i);
      var rest := Without(refs[1..], i);
      assert refs[0] !in rest;
      assert Without(refs, i) == if refs[0] != i then [refs[0]] + rest else rest;
      assert i in refs <==> refs[0] == i || i in refs[1..];
    }
  }

  // ---------------------------------------------------------------- the invariant

  ghost function OfKind(lookup: map<Addr, Entry>, kind: Kind): set<Addr> {
    set a | a in lookup && lookup[a].kind == kind
  }

  lemma KindsPut(lookup: map<Addr, Entry>, a: Addr, e: Entry, kind: Kind)
    requires a in lookup ==> lookup[a].kind == e.kind
    ensures |OfKind(lookup[a := e], kind)|
         == |OfKind(lookup, kind)| + if a !in lookup && kind == e.kind then 1 else 0
  {
    if kind == e.kind {
      assert OfKind(lookup[a := e], kind) == OfKind(lookup, kind) + {a};
      assert a in lookup <==> a in OfKind(lookup, kind);
    } else {
      assert OfKind(lookup[a := e], kind) == OfKind(lookup, kind);
    }
  }

  lemma KindsRemove(lookup: map<Addr, Entry>, a: Addr, kind: Kind)
    requires a in lookup
    ensures |OfKind(lookup - {a}, kind)| == |OfKind(lookup, kind)| - if kind == lookup[a].kind then 1 else 0
  {
    assert OfKind(lookup - {a}, kind) == OfKind(lookup, kind) - {a};
    assert kind == lookup[a].kind <==> a in OfKind(lookup, kind);
  }

  /** One to MAX_REFS distinct new buckets, or exactly one old bucket. */
  ghost predicate EntryOk(e: Entry) {
    && e.refs != [] && Distinct(e.refs)
    && match e.kind
       case New => |e.refs| <= MAX_REFS && forall i :: i in e.refs ==> i < NEW_BUCKETS
       case Old => |e.refs| == 1 && e.refs[0] < OLD_BUCKETS
  }

  predicate Holds(b: Book, kind: Kind, a: Addr, i: nat) {
    a in b.lookup && b.lookup[a].kind == kind && i in b.lookup[a].refs
  }

  ghost predicate BucketOk(b: Book, kind: Kind, i: nat, bucket: set<Addr>) {
    && |bucket| <= BUCKET_SIZE + 1
    && forall a :: a in bucket <==> Holds(b, kind, a, i)
  }

  /** Bucket membership is exactly what the references say, and no bucket exceeds its bound. */
  ghost predicate BucketsOk(b: Book) {
    && |b.new_| == NEW_BUCKETS && |b.old_| == OLD_BUCKETS
    && (forall i :: 0 <= i < NEW_BUCKETS ==> BucketOk(b, New, i, b.new_[i]))
    && (forall i :: 0 <= i < OLD_BUCKETS ==> BucketOk(b, Old, i, b.old_[i]))
  }

  ghost predicate CountsOk(b: Book) {
    b.nNew == |OfKind(b.lookup, New)| && b.nOld == |OfKind(b.lookup, Old)|
  }

  ghost predicate EntriesOk(b: Book) {
    forall a :: a in b.lookup ==> EntryOk(b.lookup[a])
  }

  /** The four structures and the two counters agree. */
  ghost predicate Ok(b: Book) {
    BucketsOk(b) && EntriesOk(b) && CountsOk(b)
  }

  lemma EmptyBookOk()
    ensures Ok(EmptyBook())
  {
    assert OfKind(map[], New) == {} && OfKind(map[], Old) == {};
  }

  // ---------------------------------------------------------------- operations

  function Refs(b: Book, a: Addr): seq<nat> {
    if a in b.lookup then b.lookup[a].refs else []
  }

  /** Put a into new bucket i, where it is not yet. */
  function PutNew(b: Book, a: Addr, i: nat): Book
    requires i < |b.new_|
  {
    b.(new_ := b.new_[i := b.new_[i] + {a}],
       lookup := b.lookup[a := Entry(New, Refs(b, a) + [i])],
       nNew := if Refs(b, a) == [] then b.nNew + 1 else b.nNew)
  }

  /** removeFromBucket, for an address of the new kind. */
  function DropNew(b: Book, a: Addr, i: nat): Book
    requires i < |b.new_| && a in b.lookup
  {
    var left := Without(b.lookup[a].refs, i);
    var c := b.(new_ := b.new_[i := b.new_[i] - {a}]);
    if left == [] then c.(lookup := b.lookup - {a}, nNew := b.nNew - 1)
    else c.(lookup := b.lookup[a := Entry(New, left)])
  }

  /** removeFromBucket: membership goes in any case; the reference, if it is there once; the address, with its last
      reference. */
  function Drop(b: Book, a: Addr, i: nat): Book
    requires a in b.lookup && i < if b.lookup[a].kind == New then |b.new_| else |b.old_|
  {
    var e := b.lookup[a];
    var left := Without(e.refs, i);
    var c := if e.kind == New then b.(new_ := b.new_[i := b.new_[i] - {a}])
             else b.(old_ := b.old_[i := b.old_[i] - {a}]);
    if |left| != |e.refs| - 1 then c
    else if left != [] then c.(lookup := b.lookup[a := Entry(e.kind, left)])
    else if e.kind == New then c.(lookup := b.lookup - {a}, nNew := b.nNew - 1)
    else c.(lookup := b.lookup - {a}, nOld := b.nOld - 1)
  }

  /** addToNewBucket: a full bucket first expires `victim`. */
  function AddToNew(b: Book, a: Addr, i: nat, victim: Addr): Book
    requires i < |b.new_|
    requires |b.new_[i]| > BUCKET_SIZE ==> victim in b.lookup
  {
    if a in b.new_[i] then b
    else PutNew(if |b.new_[i]| > BUCKET_SIZE then DropNew(b, victim, i) else b, a, i)
  }

  /** removeFromAllBuckets. */
  function RemoveAll(b: Book, a: Addr): Book
    requires a in b.lookup
  {
    var e := b.lookup[a];
    match e.kind
    case New =>
      b.(lookup := b.lookup - {a}, nNew := b.nNew - 1,
         new_ := seq(|b.new_|, i requires 0 <= i < |b.new_| => if i in e.refs then b.new_[i] - {a} else b.new_[i]))
    case Old =>
      b.(lookup := b.lookup - {a}, nOld := b.nOld - 1,
         old_ := seq(|b.old_|, i requires 0 <= i < |b.old_| => if i in e.refs then b.old_[i] - {a} else b.old_[i]))
  }

  /** moveToOld: the address leaves its new buckets, and is dropped when the old bucket is full. */
  function MoveToOld(b: Book, a: Addr, i: nat): Book
    requires a in b.lookup && i < |b.old_|
  {
    var c := RemoveAll(b, a);
    if |c.old_[i]| > BUCKET_SIZE then c else PutOld(c, a, i)
  }

  // ---------------------------------------------------------------- each operation keeps the invariant

  lemma PutNewBucket(b: Book, a: Addr, i: nat, k: nat)
    requires Ok(b) && i < NEW_BUCKETS && a !in b.new_[i] && |b.new_[i]| <= BUCKET_SIZE
    requires (a in b.lookup ==> b.lookup[a].kind == New) && k < NEW_BUCKETS
    ensures BucketOk(PutNew(b, a, i), New, k, PutNew(b, a, i).new_[k])
  {
    var c := PutNew(b, a, i);
    assert BucketOk(b, New, k, b.new_[k]);
    forall x ensures x in c.new_[k] <==> Holds(c, New, x, k) {
      assert x in b.new_[k] <==> Holds(b, New, x, k);
    }
  }

  lemma PutNewBuckets(b: Book, a: Addr, i: nat)
    requires Ok(b) && i < NEW_BUCKETS && a !in b.new_[i] && |b.new_[i]| <= BUCKET_SIZE
    requires a in b.lookup ==> b.lookup[a].kind == New
    ensures BucketsOk(PutNew(b, a, i))
  {
    var c := PutNew(b, a, i);
    forall k | 0 <= k < NEW_BUCKETS ensures BucketOk(c, New, k, c.new_[k]) {
      PutNewBucket(b, a, i, k);
    }
    forall k | 0 <= k < OLD_BUCKETS ensures BucketOk(c, Old, k, c.old_[k]) {
      assert BucketOk(b, Old, k, b.old_[k]);
      forall x ensures Holds(c, Old, x, k) <==> Holds(b, Old, x, k) {
      }
    }
  }

  lemma PutNewEntries(b: Book, a: Addr, i: nat)
    requires EntriesOk(b) && i < NEW_BUCKETS && i < |b.new_| && i !in Refs(b, a)
    requires a in b.lookup ==> b.lookup[a].kind == New && |b.lookup[a].refs| < MAX_REFS
    ensures EntriesOk(PutNew(b, a, i))
  {
    var c := PutNew(b, a, i);
    assert Distinct(Refs(b, a) + [i]) by {
      assert a in b.lookup ==> EntryOk(b.lookup[a]);
    }
    assert EntryOk(Entry(New, Refs(b, a) + [i]));
  }

  lemma PutNewOk(b: Book, a: Addr, i: nat)
    requires Ok(b) && i < NEW_BUCKETS && a !in b.new_[i] && |b.new_[i]| <= BUCKET_SIZE
    requires a in b.lookup ==> b.lookup[a].kind == New && |b.lookup[a].refs| < MAX_REFS
    ensures Ok(PutNew(b, a, i))
  {
    var c := PutNew(b, a, i);
    PutNewBuckets(b, a, i);
    assert !Holds(b, New, a, i) by {
      assert BucketOk(b, New, i, b.new_[i]);
    }
    PutNewEntries(b, a, i);
    KindsPut(b.lookup, a, c.lookup[a], New);
    KindsPut(b.lookup, a, c.lookup[a], Old);
    assert a in b.lookup ==> EntryOk(b.lookup[a]);
  }

  lemma DropNewBucket(b: Book, a: Addr, i: nat, k: nat)
    requires Ok(b) && i < NEW_BUCKETS && a in b.lookup && b.lookup[a].kind == New && k < NEW_BUCKETS
    ensures BucketOk(DropNew(b, a, i), New, k, DropNew(b, a, i).new_[k])
  {
    var c := DropNew(b, a, i);
    WithoutMembers(b.lookup[a].refs, i);
    assert BucketOk(b, New, k, b.new_[k]);
    forall x ensures x in c.new_[k] <==> Holds(c, New, x, k) {
      assert x in b.new_[k] <==> Holds(b, New, x, k);
    }
  }

  lemma DropNewOldBucket(b: Book, a: Addr, i: nat, k: nat)
    requires Ok(b) && i < NEW_BUCKETS && a in b.lookup && b.lookup[a].kind == New && k < OLD_BUCKETS
    ensures BucketOk(DropNew(b, a, i), Old, k, DropNew(b, a, i).old_[k])
  {
    assert BucketOk(b, Old, k, b.old_[k]);
  }

  lemma DropNewBuckets(b: Book, a: Addr, i: nat)
    requires Ok(b) && i < NEW_BUCKETS && a in b.lookup && b.lookup[a].kind == New
    ensures BucketsOk(DropNew(b, a, i))
  {
    var c := DropNew(b, a, i);
    forall k | 0 <= k < NEW_BUCKETS ensures BucketOk(c, New, k, c.new_[k]) {
      DropNewBucket(b, a, i, k);
    }
    forall k | 0 <= k < OLD_BUCKETS ensures BucketOk(c, Old, k, c.old_[k]) {
      DropNewOldBucket(b, a, i, k);
    }
  }

  lemma DropNewOk(b: Book, a: Addr, i: nat)
    requires Ok(b) && i < NEW_BUCKETS && a in b.new_[i]
    ensures Ok(DropNew(b, a, i))
    ensures |DropNew(b, a, i).new_[i]| == |b.new_[i]| - 1
  {
    assert BucketOk(b, New, i, b.new_[i]);
    DropNewBuckets(b, a, i);
    var c := DropNew(b, a, i);
    assert EntriesOk(c) by {
      WithoutMembers(b.lookup[a].refs, i);
      WithoutDistinct(b.lookup[a].refs, i);
    }
    if a in c.lookup {
      KindsPut(b.lookup, a, c.lookup[a], New);
      KindsPut(b.lookup, a, c.lookup[a], Old);
    } else {
      KindsRemove(b.lookup, a, New);
      KindsRemove(b.lookup, a, Old);
    }
  }

  lemma DropNewKindOk(b: Book, a: Addr, i: nat)
    requires Ok(b) && a in b.lookup && b.lookup[a].kind == New && i < NEW_BUCKETS
    ensures if i in b.lookup[a].refs then a in b.new_[i] && Drop(b, a, i) == DropNew(b, a, i) else Drop(b, a, i) == b
  {
    var e := b.lookup[a];
    assert EntryOk(e);
    WithoutDistinct(e.refs, i);
    assert BucketOk(b, New, i, b.new_[i]);
    assert Holds(b, New, a, i) <==> i in e.refs;
    if i !in e.refs {
      assert b.new_[i] - {a} == b.new_[i];
      assert b.new_[i := b.new_[i]] == b.new_;
    }
  }

  lemma DropOldKindOk(b: Book, a: Addr, i: nat)
    requires Ok(b) && a in b.lookup && b.lookup[a].kind == Old && i < OLD_BUCKETS
    ensures Drop(b, a, i) == if i in b.lookup[a].refs then RemoveAll(b, a) else b
  {
    var e := b.lookup[a];
    assert EntryOk(e);
    WithoutDistinct(e.refs, i);
    assert BucketOk(b, Old, i, b.old_[i]);
    assert Holds(b, Old, a, i) <==> i in e.refs;
    if i in e.refs {
      assert e.refs == [i];
      assert Drop(b, a, i).old_ == RemoveAll(b, a).old_;
    } else {
      assert b.old_[i] - {a} == b.old_[i];
      assert b.old_[i := b.old_[i]] == b.old_;
    }
  }

  /** removeFromBucket keeps the invariant for addresses of both kinds, whether the reference is there or not: without
      it nothing changes, and an old address, with its only reference, leaves the book. */
  lemma DropOk(b: Book, a: Addr, i: nat)
    requires Ok(b) && a in b.lookup && i < if b.lookup[a].kind == New then NEW_BUCKETS else OLD_BUCKETS
    ensures Ok(Drop(b, a, i))
    ensures i !in b.lookup[a].refs ==> Drop(b, a, i) == b
    ensures i in b.lookup[a].refs && b.lookup[a].kind == Old ==> Drop(b, a, i) == RemoveAll(b, a)
  {
    if b.lookup[a].kind == New {
      DropNewKindOk(b, a, i);
      if i in b.lookup[a].refs {
        DropNewOk(b, a, i);
      }
    } else {
      DropOldKindOk(b, a, i);
      RemoveAllOk(b, a);
    }
  }

  lemma AddToNewOk(b: Book, a: Addr, i: nat, victim: Addr)
    requires Ok(b) && i < NEW_BUCKETS
    requires a in b.lookup ==> b.lookup[a].kind == New && |b.lookup[a].refs| < MAX_REFS
    requires |b.new_[i]| > BUCKET_SIZE ==> victim in b.new_[i]
    ensures Ok(AddToNew(b, a, i, victim))
    ensures a in AddToNew(b, a, i, victim).new_[i]
  {
    if a !in b.new_[i] {
      if |b.new_[i]| > BUCKET_SIZE {
        DropNewOk(b, victim, i);
        PutNewOk(DropNew(b, victim, i), a, i);
      } else {
        PutNewOk(b, a, i);
      }
    }
  }

  lemma RemoveAllBuckets(b: Book, a: Addr)
    requires Ok(b) && a in b.lookup
    ensures BucketsOk(RemoveAll(b, a))
  {
    var c := RemoveAll(b, a);
    forall k | 0 <= k < NEW_BUCKETS ensures BucketOk(c, New, k, c.new_[k]) {
      assert BucketOk(b, New, k, b.new_[k]);
      forall x ensures x in c.new_[k] <==> Holds(c, New, x, k) {
        assert x in b.new_[k] <==> Holds(b, New, x, k);
      }
    }
    forall k | 0 <= k < OLD_BUCKETS ensures BucketOk(c, Old, k, c.old_[k]) {
      assert BucketOk(b, Old, k, b.old_[k]);
      forall x ensures x in c.old_[k] <==> Holds(c, Old, x, k) {
        assert x in b.old_[k] <==> Holds(b, Old, x, k);
      }
    }
  }

  lemma RemoveAllOk(b: Book, a: Addr)
    requires Ok(b) && a in b.lookup
    ensures Ok(RemoveAll(b, a))
  {
    RemoveAllBuckets(b, a);
    KindsRemove(b.lookup, a, New);
    KindsRemove(b.lookup, a, Old);
  }

  /** Put a into old bucket i. */
  function PutOld(b: Book, a: Addr, i: nat): Book
    requires i < |b.old_|
  {
    b.(old_ := b.old_[i := b.old_[i] + {a}], lookup := b.lookup[a := Entry(Old, [i])], nOld := b.nOld + 1)
  }

  lemma PutOldBuckets(b: Book, a: Addr, i: nat)
    requires Ok(b) && i < OLD_BUCKETS && a !in b.lookup && |b.old_[i]| <= BUCKET_SIZE
    ensures BucketsOk(PutOld(b, a, i))
  {
    var c := PutOld(b, a, i);
    forall k | 0 <= k < NEW_BUCKETS ensures BucketOk(c, New, k, c.new_[k]) {
      assert BucketOk(b, New, k, b.new_[k]);
      forall x ensures Holds(c, New, x, k) <==> Holds(b, New, x, k) {
      }
    }
    forall k | 0 <= k < OLD_BUCKETS ensures BucketOk(c, Old, k, c.old_[k]) {
      assert BucketOk(b, Old, k, b.old_[k]);
      forall x ensures x in c.old_[k] <==> Holds(c, Old, x, k) {
        assert x in b.old_[k] <==> Holds(b, Old, x, k);
      }
    }
  }

  lemma PutOldOk(b: Book, a: Addr, i: nat)
    requires Ok(b) && i < OLD_BUCKETS && a !in b.lookup && |b.old_[i]| <= BUCKET_SIZE
    ensures Ok(PutOld(b, a, i))
  {
    PutOldBuckets(b, a, i);
    assert EntryOk(Entry(Old, [i]));
    KindsPut(b.lookup, a, Entry(Old, [i]), New);
    KindsPut(b.lookup, a, Entry(Old, [i]), Old);
  }

  lemma MoveToOldOk(b: Book, a: Addr, i: nat)
    requires Ok(b) && a in b.lookup && i < OLD_BUCKETS
    ensures Ok(MoveToOld(b, a, i))
  {
    RemoveAllOk(b, a);
    var c := RemoveAll(b, a);
    if |c.old_[i]| <= BUCKET_SIZE {
      PutOldOk(c, a, i);
    }
  }

  /** The invariant does not depend on our own addresses. */
  lemma SameButOurs(b: Book, c: Book)
    requires Ok(b) && c == b.(ours := c.ours)
    ensures Ok(c)
  {
    forall i | 0 <= i < NEW_BUCKETS ensures BucketOk(c, New, i, c.new_[i]) {
      assert BucketOk(b, New, i, b.new_[i]);
      assert forall a :: Holds(c, New, a, i) == Holds(b, New, a, i);
    }
    forall i | 0 <= i < OLD_BUCKETS ensures BucketOk(c, Old, i, c.old_[i]) {
      assert BucketOk(b, Old, i, b.old_[i]);
      assert forall a :: Holds(c, Old, a, i) == Holds(b, Old, a, i);
    }
  }
}
