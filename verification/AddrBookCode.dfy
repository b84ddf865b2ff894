/** knownAddress and AddrBook as objects that share pointers, proved against the value model. */
module AddrBookCode {
  import opened Bytes
  import opened AddrBookModel
  import opened AddrBookRuns

  const MINUTE: int := 60
  const DAY: int := 86400

  /** Times are seconds; no last success is Go's zero time. */
  class KnownAddress {
    const addr: Addr
    const src: Addr
    var attempts: int
    var lastAttempt: int
    var lastSuccess: Option<int>
    var bucketType: Kind
    var buckets: seq<nat>

    constructor (addr: Addr, src: Addr, now: int)
      ensures this.addr == addr && this.src == src && attempts == 0 && lastAttempt == now
      ensures lastSuccess == None && bucketType == New && buckets == []
    {
      this.addr, this.src := addr, src;
      attempts, lastAttempt, lastSuccess := 0, now, None;
      bucketType, buckets := New, [];
    }

    /** A stored copy of another entry, as the JSON decoder builds it. */
    constructor Restore(saved: Saved)
      ensures addr == saved.addr && src == saved.src && attempts == saved.attempts && View() == saved.entry
      ensures lastAttempt == saved.lastAttempt && lastSuccess == saved.lastSuccess && Stored() == saved
    {
      addr, src := saved.addr, saved.src;
      attempts, lastAttempt, lastSuccess := saved.attempts, saved.lastAttempt, saved.lastSuccess;
      bucketType, buckets := saved.entry.kind, saved.entry.refs;
    }

    function View(): Entry
      reads this
    {
      Entry(bucketType, buckets)
    }

    function Stored(): Saved
      reads this
    {
      Saved(addr, src, attempts, lastAttempt, lastSuccess, View())
    }

    method AddBucketRef(i: nat) returns (n: int)
      modifies this`buckets
      ensures i in old(buckets) ==> n == -1 && buckets == old(buckets)
      ensures i !in old(buckets) ==> buckets == old(buckets) + [i] && n == |buckets|
    {
      for k := 0 to |buckets|
        invariant buckets == old(buckets) && i !in buckets[..k]
      {
        if buckets[k] == i {
          return -1;
        }
      }
      assert buckets[..|buckets|] == buckets;
      buckets := buckets + [i];
      return |buckets|;
    }

    method RemoveBucketRef(i: nat) returns (n: int)
      modifies this`buckets
      ensures |Without(old(buckets), i)| == |old(buckets)| - 1 ==>
                buckets == Without(old(buckets), i) && n == |buckets|
      ensures |Without(old(buckets), i)| != |old(buckets)| - 1 ==> buckets == old(buckets) && n == -1
    {
      var all, left: seq<nat> := buckets, [];
      assert all[0..] == all && [] + Without(all, i) == Without(all, i);
      for k := 0 to |all|
        invariant buckets == all && left + Without(all[k..], i) == Without(all, i)
      {
        assert all[k..][0] == all[k] && all[k..][1..] == all[k + 1..];
        Assoc(left, [all[k]], Without(all[k + 1..], i));
        assert [] + Without(all[k + 1..], i) == Without(all[k + 1..], i);
        if all[k] != i {
          left := left + [all[k]];
        }
      }
      assert all[|all|..] == [] && left + [] == left;
      if |left| != |buckets| - 1 {
        return -1;
      }
      buckets := left;
      return |buckets|;
    }

    /** isBad; an address attempted within the last minute counts as bad. */
    predicate IsBad(now: int)
      reads this
    {
      && bucketType == New
      && (|| (lastAttempt > now - MINUTE && attempts != 0)
          || lastAttempt < now - 30 * DAY
          || (lastSuccess.None? && attempts >= 3)
          || ((lastSuccess.None? || lastSuccess.value < now - 7 * DAY) && attempts >= 10))
    }

    /** An old address is never bad. A new one that nobody has tried without success since it was last good is bad only
        after thirty days; it is bad within a minute of a failed try, after three tries that never succeeded, and after
        ten without a success in seven days. */
    lemma BadWhen(now: int)
      ensures bucketType == Old ==> !IsBad(now)
      ensures bucketType == New && attempts == 0 ==> (IsBad(now) <==> lastAttempt < now - 2592000)
      ensures bucketType == New && attempts > 0 ==>
                (IsBad(now) <==>
                   || lastAttempt > now - 60 || lastAttempt < now - 2592000
                   || attempts >= (if lastSuccess.None? then 3 else if lastSuccess.value < now - 604800 then 10
                                   else attempts + 1))
    {
    }

    method NoteAttempt(now: int)
      modifies this`attempts, this`lastAttempt
      ensures lastAttempt == now && attempts == old(attempts) + 1
    {
      lastAttempt := now;
      attempts := attempts + 1;
    }

    method NoteGood(now: int)
      modifies this`attempts, this`lastAttempt, this`lastSuccess
      ensures lastAttempt == now && lastSuccess == Some(now) && attempts == 0
    {
      lastAttempt := now;
      lastSuccess := Some(now);
      attempts := 0;
    }
  }

  /** One saved address. */
  datatype Saved = Saved(addr: Addr, src: Addr, attempts: int, lastAttempt: int, lastSuccess: Option<int>, entry: Entry)

  type Bucket = map<Addr, KnownAddress>

  function Keys(bs: seq<Bucket>): (r: seq<set<Addr>>)
    ensures |r| == |bs|
  {
    seq(|bs|, i requires 0 <= i < |bs| => bs[i].Keys)
  }

  lemma KeysUpdate(bs: seq<Bucket>, i: nat, m: Bucket)
    requires i < |bs|
    ensures Keys(bs[i := m]) == Keys(bs)[i := m.Keys]
  {
  }

  /** Where a bucket and the lookup both know an address they hold the same pointer. */
  ghost predicate SharesWith(bucket: Bucket, lookup: Bucket) {
    forall a :: a in bucket && a in lookup ==> bucket[a] == lookup[a]
  }

  /** Lookup and buckets hold the same pointers, each under its own address. */
  ghost predicate Linked(lookup: Bucket, bs: seq<Bucket>) {
    && (forall a :: a in lookup ==> lookup[a].addr == a)
    && (forall i :: 0 <= i < |bs| ==> SharesWith(bs[i], lookup))
  }

  /** Every entry of `now` was there before. */
  ghost predicate Within(now: Bucket, before: Bucket) {
    forall a :: a in now ==> a in before && now[a] == before[a]
  }

  /** Taking an entry out and perhaps putting it back adds nothing. */
  lemma WithinBack(before: Bucket, ka: KnownAddress, out: bool, now: Bucket)
    requires ka.addr in before && before[ka.addr] == ka
    requires now == if out then before - {ka.addr} else (before - {ka.addr})[ka.addr := ka]
    ensures Within(now, before)
  {
  }

  /** Every entry of `now` was there before or is ka. */
  ghost predicate WithinOr(now: Bucket, before: Bucket, ka: KnownAddress) {
    forall a :: a in now ==> now[a] == ka || (a in before && now[a] == before[a])
  }

  /** No bucket holds another pointer under ka's address. */
  ghost predicate OnlyHolds(bs: seq<Bucket>, ka: KnownAddress) {
    forall k :: 0 <= k < |bs| && ka.addr in bs[k] ==> bs[k][ka.addr] == ka
  }

  lemma HoldsAfterDelete(bs: seq<Bucket>, i: nat, a: Addr, ka: KnownAddress)
    requires i < |bs|
    ensures OnlyHolds(bs, ka) ==> OnlyHolds(bs[i := bs[i] - {a}], ka)
  {
  }

  lemma LinkedPut(lookup: Bucket, bs: seq<Bucket>, ka: KnownAddress)
    requires Linked(lookup, bs) && OnlyHolds(bs, ka)
    ensures Linked(lookup[ka.addr := ka], bs)
  {
    forall i | 0 <= i < |bs| ensures SharesWith(bs[i], lookup[ka.addr := ka]) {
      assert SharesWith(bs[i], lookup);
    }
  }

  lemma LinkedPutBoth(lookup: Bucket, bs: seq<Bucket>, ka: KnownAddress, i: nat)
    requires Linked(lookup, bs) && OnlyHolds(bs, ka) && i < |bs|
    ensures Linked(lookup[ka.addr := ka], bs[i := bs[i][ka.addr := ka]])
    ensures Keys(bs[i := bs[i][ka.addr := ka]]) == Keys(bs)[i := Keys(bs)[i] + {ka.addr}]
  {
    LinkedPut(lookup, bs, ka);
    assert bs[i][ka.addr := ka].Keys == bs[i].Keys + {ka.addr};
  }

  /** `r` is `bs` with a deleted from the referenced buckets. */
  ghost predicate Deleted(bs: seq<Bucket>, refs: seq<nat>, a: Addr, r: seq<Bucket>) {
    && |r| == |bs|
    && forall k :: 0 <= k < |bs| ==> r[k] == if k in refs then bs[k] - {a} else bs[k]
  }

  /** The loop of removeFromAllBuckets. */
  method DeleteFrom(bs: seq<Bucket>, refs: seq<nat>, a: Addr) returns (r: seq<Bucket>)
    requires forall i :: i in refs ==> i < |bs|
    ensures Deleted(bs, refs, a, r)
  {
    r := bs;
    for j := 0 to |refs|
      invariant Deleted(bs, refs[..j], a, r)
    {
      var i := refs[j];
      assert i in refs;
      r := r[i := r[i] - {a}];
      assert refs[..j + 1] == refs[..j] + [i];
    }
    assert refs[..|refs|] == refs;
  }

  lemma LinkedDelete(lookup: Bucket, bs: seq<Bucket>, refs: seq<nat>, a: Addr, r: seq<Bucket>)
    requires Linked(lookup, bs) && Deleted(bs, refs, a, r)
    ensures Linked(lookup - {a}, r)
    ensures Keys(r) == seq(|bs|, i requires 0 <= i < |bs| => if i in refs then bs[i].Keys - {a} else bs[i].Keys)
  {
    forall i | 0 <= i < |r| ensures SharesWith(r[i], lookup - {a}) {
      assert SharesWith(bs[i], lookup);
    }
  }

  lemma LinkedFewer(lookup: Bucket, bs: seq<Bucket>, a: Addr)
    requires Linked(lookup, bs)
    ensures Linked(lookup - {a}, bs)
  {
    forall i | 0 <= i < |bs| ensures SharesWith(bs[i], lookup - {a}) {
      assert SharesWith(bs[i], lookup);
    }
  }

  lemma LinkedShrunk(lookup: Bucket, bs: seq<Bucket>, i: nat, a: Addr)
    requires Linked(lookup, bs) && i < |bs|
    ensures Linked(lookup, bs[i := bs[i] - {a}]) && Linked(lookup - {a}, bs[i := bs[i] - {a}])
  {
    var r := bs[i := bs[i] - {a}];
    forall k | 0 <= k < |r| ensures SharesWith(r[k], lookup) {
      assert SharesWith(bs[k], lookup);
    }
    LinkedFewer(lookup, r, a);
  }

  /** The draw of Int31n in addAddress, made only for a known new address with fewer than four references. */
  function DrawOf(b: Book, a: Addr, rnd: nat): nat {
    if a in b.lookup && b.lookup[a].kind == New && 0 < |b.lookup[a].refs| < MAX_REFS
    then rnd % (2 * |b.lookup[a].refs|)
    else 0
  }

  /** addAddress leaves a known address as it is if it is old, is in four buckets already, or the draw among twice as
      many as its buckets is not zero. */
  predicate LeftAlone(b: Book, a: Addr, rnd: nat) {
    && a in b.lookup
    && var n := |b.lookup[a].refs|;
       b.lookup[a].kind == Old || n == 4 || (n > 0 && rnd % (2 * n) != 0)
  }

  lemma LeftAloneIff(b: Book, a: Addr, rnd: nat, op: Op)
    requires Ok(b) && a !in b.ours && op.Add? && op.a == a && op.allowed && op.draw == DrawOf(b, a, rnd)
    ensures LeftAlone(b, a, rnd) <==> Declined(b, op)
  {
    assert a in b.lookup ==> EntryOk(b.lookup[a]);
  }

  /** Whether an address is bad, and when it was last tried. */
  datatype Note = Note(bad: bool, lastAttempt: int)

  /** Whom a full bucket may lose: a bad address, or if none is bad the one tried longest ago. */
  predicate Evictable(notes: map<Addr, Note>, victim: Addr) {
    && victim in notes
    && (|| notes[victim].bad
        || forall a :: a in notes ==> !notes[a].bad && notes[victim].lastAttempt <= notes[a].lastAttempt)
  }

  /** If the address is to go into a full bucket, the victim is such an address. */
  predicate MakesWay(notes: map<Addr, Note>, addr: Addr, victim: Addr) {
    |notes.Keys| > 64 && addr !in notes ==> Evictable(notes, victim)
  }

  datatype OldError = NotOld | InBucket | BucketFull | AlreadyOld | InNoBucket

  datatype AddError = NilAddress | OurAddress | NotRoutable

  class AddrBook {
    const routabilityStrict: bool
    var ourAddrs: set<Addr>
    var addrLookup: map<Addr, KnownAddress>
    var bucketsNew: seq<Bucket>
    var bucketsOld: seq<Bucket>
    var nNew: int
    var nOld: int
    /** BucketType and Buckets of every known address, as a value. */
    ghost var entries: map<Addr, Entry>

    constructor (strict: bool)
      ensures Valid() && View() == EmptyBook() && routabilityStrict == strict
    {
      routabilityStrict := strict;
      ourAddrs, addrLookup := {}, map[];
      bucketsNew := seq(NEW_BUCKETS, _ => map[]);
      bucketsOld := seq(OLD_BUCKETS, _ => map[]);
      nNew, nOld := 0, 0;
      entries := map[];
      new;
      EmptyBookOk();
      assert forall i :: 0 <= i < NEW_BUCKETS ==> Keys(bucketsNew)[i] == {};
      assert forall i :: 0 <= i < OLD_BUCKETS ==> Keys(bucketsOld)[i] == {};
      assert Keys(bucketsNew) == EmptyBook().new_ && Keys(bucketsOld) == EmptyBook().old_;
    }

    ghost function View(): Book
      reads this
    {
      Book(entries, Keys(bucketsNew), Keys(bucketsOld), nNew, nOld, ourAddrs)
    }

    ghost predicate Reflects()
      reads this, addrLookup.Values
    {
      && entries.Keys == addrLookup.Keys
      && forall a :: a in addrLookup ==> addrLookup[a].View() == entries[a]
    }

    ghost predicate AllLinked()
      reads this, addrLookup.Values
    {
      Linked(addrLookup, bucketsNew) && Linked(addrLookup, bucketsOld) && Reflects()
    }

    ghost predicate Valid()
      reads this, addrLookup.Values
    {
      AllLinked() && Ok(View())
    }

    ghost predicate InBook(ka: KnownAddress)
      reads this
    {
      ka.addr in addrLookup && addrLookup[ka.addr] == ka
    }

    /** Every address known now was known before or has just been made. */
    twostate predicate OldOrFresh()
      reads this
    {
      forall a :: a in addrLookup ==> fresh(addrLookup[a]) || addrLookup[a] in old(addrLookup.Values)
    }

    /** removeFromBucket for an address of the new kind. */
    method RemoveFromNewBucket(ka: KnownAddress, i: nat)
      requires AllLinked() && InBook(ka) && ka.bucketType == New && i < |bucketsNew|
      modifies this`addrLookup, this`entries, this`bucketsNew, this`nNew, ka`buckets
      ensures AllLinked() && View() == Drop(old(View()), ka.addr, i) && Within(addrLookup, old(addrLookup))
      ensures bucketsNew == old(bucketsNew)[i := old(bucketsNew)[i] - {ka.addr}]
    {
      ghost var c := Drop(View(), ka.addr, i);
      KeysUpdate(bucketsNew, i, bucketsNew[i] - {ka.addr});
      LinkedShrunk(addrLookup, bucketsNew, i, ka.addr);
      LinkedFewer(addrLookup, bucketsOld, ka.addr);
      bucketsNew := bucketsNew[i := bucketsNew[i] - {ka.addr}];
      var left := ka.RemoveBucketRef(i);
      entries := c.lookup;
      if left == 0 {
        addrLookup := addrLookup - {ka.addr};
        nNew := nNew - 1;
      }
      forall a | a in addrLookup ensures addrLookup[a].View() == entries[a] {
        assert a != ka.addr ==> addrLookup[a] != ka && entries[a] == old(entries)[a];
      }
      assert View() == c;
    }

    /** removeFromBucket for an address of the old kind. */
    method RemoveFromOldBucket(ka: KnownAddress, i: nat)
      requires AllLinked() && InBook(ka) && ka.bucketType == Old && i < |bucketsOld|
      modifies this`addrLookup, this`entries, this`bucketsOld, this`nOld, ka`buckets
      ensures AllLinked() && View() == Drop(old(View()), ka.addr, i) && Within(addrLookup, old(addrLookup))
    {
      ghost var c := Drop(View(), ka.addr, i);
      KeysUpdate(bucketsOld, i, bucketsOld[i] - {ka.addr});
      LinkedShrunk(addrLookup, bucketsOld, i, ka.addr);
      LinkedFewer(addrLookup, bucketsNew, ka.addr);
      bucketsOld := bucketsOld[i := bucketsOld[i] - {ka.addr}];
      var left := ka.RemoveBucketRef(i);
      entries := c.lookup;
      if left == 0 {
        addrLookup := addrLookup - {ka.addr};
        nOld := nOld - 1;
      }
      forall a | a in addrLookup ensures addrLookup[a].View() == entries[a] {
        assert a != ka.addr ==> addrLookup[a] != ka && entries[a] == old(entries)[a];
      }
      assert View() == c;
    }

    /** removeFromBucket. */
    method RemoveFromBucket(ka: KnownAddress, i: nat)
      requires Valid() && InBook(ka) && i < if ka.bucketType == New then NEW_BUCKETS else OLD_BUCKETS
      modifies this`addrLookup, this`entries, this`bucketsNew, this`bucketsOld, this`nNew, this`nOld, ka`buckets
      ensures Valid() && View() == Drop(old(View()), ka.addr, i) && Within(addrLookup, old(addrLookup))
    {
      DropOk(View(), ka.addr, i);
      if ka.bucketType == New {
        RemoveFromNewBucket(ka, i);
      } else {
        RemoveFromOldBucket(ka, i);
      }
    }

    /** pickOldest over a new bucket: the map is walked in any order. */
    method PickOldest(i: nat) returns (oldest: KnownAddress)
      requires i < |bucketsNew| && bucketsNew[i] != map[]
      ensures exists a :: a in bucketsNew[i] && bucketsNew[i][a] == oldest
      ensures forall a :: a in bucketsNew[i] ==> oldest.lastAttempt <= bucketsNew[i][a].lastAttempt
    {
      var bucket := bucketsNew[i];
      var rest := bucket.Keys;
      assert rest != {};
      var first :| first in rest;
      oldest := bucket[first];
      while rest != {}
        invariant rest <= bucket.Keys
        invariant exists a :: a in bucket && bucket[a] == oldest
        invariant forall a :: a in bucket && a !in rest ==> oldest.lastAttempt <= bucket[a].lastAttempt
        decreases rest
      {
        var a :| a in rest;
        if bucket[a].lastAttempt < oldest.lastAttempt {
          oldest := bucket[a];
        }
        rest := rest - {a};
      }
    }

    /** What expireNew looks at in a bucket. */
    ghost function Notes(i: nat, now: int): (n: map<Addr, Note>)
      requires i < |bucketsNew|
      reads this, bucketsNew[i].Values
      ensures n.Keys == bucketsNew[i].Keys
    {
      map a | a in bucketsNew[i] :: Note(bucketsNew[i][a].IsBad(now), bucketsNew[i][a].lastAttempt)
    }

    /** Whom expireNew throws out: some bad address if there is one, else the one attempted longest ago. */
    method ChooseVictim(i: nat, now: int) returns (victim: KnownAddress)
      requires i < |bucketsNew| && bucketsNew[i] != map[]
      ensures exists a :: a in bucketsNew[i] && bucketsNew[i][a] == victim
      ensures victim.IsBad(now)
           || forall a :: a in bucketsNew[i] ==>
                !bucketsNew[i][a].IsBad(now) && victim.lastAttempt <= bucketsNew[i][a].lastAttempt
    {
      var bucket := bucketsNew[i];
      var rest := bucket.Keys;
      while rest != {}
        invariant rest <= bucket.Keys
        invariant forall a :: a in bucket && a !in rest ==> !bucket[a].IsBad(now)
        decreases rest
      {
        var a :| a in rest;
        if bucket[a].IsBad(now) {
          return bucket[a];
        }
        rest := rest - {a};
      }
      victim := PickOldest(i);
    }

    method FindVictim(i: nat, now: int) returns (ka: KnownAddress)
      requires Valid() && i < NEW_BUCKETS && bucketsNew[i] != map[]
      ensures InBook(ka) && ka.addr in bucketsNew[i] && ka.bucketType == New
      ensures Drop(View(), ka.addr, i) == DropNew(View(), ka.addr, i) && Evictable(Notes(i, now), ka.addr)
    {
      ka := ChooseVictim(i, now);
      VictimInBook(ka, i);
      VictimEvictable(ka, i, now);
    }

    /** expireNew; an address outside the bucket is not touched. */
    method ExpireNew(i: nat, now: int, ghost keep: KnownAddress) returns (victim: Addr)
      requires Valid() && i < NEW_BUCKETS && bucketsNew[i] != map[]
      requires keep.addr !in bucketsNew[i]
      modifies this`addrLookup, this`entries, this`bucketsNew, this`nNew, addrLookup.Values`buckets
      ensures AllLinked() && victim in old(bucketsNew[i]) && victim in old(entries)
      ensures Evictable(old(Notes(i, now)), victim)
      ensures View() == DropNew(old(View()), victim, i) && Within(addrLookup, old(addrLookup))
      ensures keep.buckets == old(keep.buckets)
      ensures OnlyHolds(old(bucketsNew), keep) ==> OnlyHolds(bucketsNew, keep)
    {
      var ka := FindVictim(i, now);
      victim := ka.addr;
      HoldsAfterDelete(bucketsNew, i, victim, keep);
      RemoveFromNewBucket(ka, i);
    }

    lemma {:induction false} VictimInBook(ka: KnownAddress, i: nat)
      requires Valid() && i < NEW_BUCKETS
      requires exists a :: a in bucketsNew[i] && bucketsNew[i][a] == ka
      ensures InBook(ka) && ka.addr in bucketsNew[i] && bucketsNew[i][ka.addr] == ka && ka.bucketType == New
      ensures |Without(ka.buckets, i)| == |ka.buckets| - 1
    {
      var a :| a in bucketsNew[i] && bucketsNew[i][a] == ka;
      var b := View();
      assert BucketOk(b, New, i, b.new_[i]);
      assert a in b.new_[i] && Holds(b, New, a, i);
      assert SharesWith(bucketsNew[i], addrLookup);
      assert EntryOk(b.lookup[a]);
      WithoutDistinct(ka.buckets, i);
    }

    lemma VictimEvictable(ka: KnownAddress, i: nat, now: int)
      requires i < |bucketsNew| && ka.addr in bucketsNew[i] && bucketsNew[i][ka.addr] == ka
      requires ka.IsBad(now)
            || forall a :: a in bucketsNew[i] ==>
                 !bucketsNew[i][a].IsBad(now) && ka.lastAttempt <= bucketsNew[i][a].lastAttempt
      ensures Evictable(Notes(i, now), ka.addr)
    {
    }

    /** The second half of addToNewBucket. */
    method PutInNewBucket(ka: KnownAddress, i: nat)
      requires AllLinked() && i < |bucketsNew| && ka.bucketType == New && i !in ka.buckets
      requires Refs(View(), ka.addr) == ka.buckets
      requires OnlyHolds(bucketsNew, ka) && OnlyHolds(bucketsOld, ka)
      modifies this`addrLookup, this`entries, this`bucketsNew, this`nNew, ka`buckets
      ensures AllLinked() && View() == PutNew(old(View()), ka.addr, i) && addrLookup == old(addrLookup)[ka.addr := ka]
    {
      ghost var c := PutNew(View(), ka.addr, i);
      LinkedPutBoth(addrLookup, bucketsNew, ka, i);
      LinkedPut(addrLookup, bucketsOld, ka);
      bucketsNew := bucketsNew[i := bucketsNew[i][ka.addr := ka]];
      addrLookup := addrLookup[ka.addr := ka];
      var n := ka.AddBucketRef(i);
      entries := c.lookup;
      if n == 1 {
        nNew := nNew + 1;
      }
      forall a | a in addrLookup ensures addrLookup[a].View() == entries[a] {
        assert a != ka.addr ==> addrLookup[a] != ka && entries[a] == old(entries)[a];
      }
      assert View() == c;
    }

    /** An address that the lookup does not know is in no bucket. */
    lemma PlacesOf(ka: KnownAddress)
      requires Valid() && (ka.addr in addrLookup ==> InBook(ka))
      ensures OnlyHolds(bucketsNew, ka) && OnlyHolds(bucketsOld, ka)
    {
      var b := View();
      forall k | 0 <= k < NEW_BUCKETS && ka.addr in bucketsNew[k] ensures bucketsNew[k][ka.addr] == ka {
        assert BucketOk(b, New, k, b.new_[k]);
        assert ka.addr in b.new_[k] && Holds(b, New, ka.addr, k);
        assert SharesWith(bucketsNew[k], addrLookup);
      }
      forall k | 0 <= k < OLD_BUCKETS && ka.addr in bucketsOld[k] ensures bucketsOld[k][ka.addr] == ka {
        assert BucketOk(b, Old, k, b.old_[k]);
        assert ka.addr in b.old_[k] && Holds(b, Old, ka.addr, k);
        assert SharesWith(bucketsOld[k], addrLookup);
      }
    }

    lemma RefsOf(ka: KnownAddress, i: nat)
      requires Valid() && i < NEW_BUCKETS && ka.bucketType == New && ka.addr !in bucketsNew[i]
      requires if ka.addr in addrLookup then InBook(ka) else ka.buckets == []
      ensures Refs(View(), ka.addr) == ka.buckets && i !in ka.buckets
    {
      var b := View();
      assert BucketOk(b, New, i, b.new_[i]);
      assert !Holds(b, New, ka.addr, i);
    }

    lemma DropNewKeepsRefs(b: Book, victim: Addr, i: nat, a: Addr)
      requires i < |b.new_| && victim in b.lookup && a != victim
      ensures Refs(DropNew(b, victim, i), a) == Refs(b, a)
    {
    }

    /** The eviction in addToNewBucket: only a full bucket loses an address, and ka is not touched. */
    method MakeRoom(ka: KnownAddress, i: nat, now: int) returns (ghost victim: Addr)
      requires Valid() && i < NEW_BUCKETS && ka.addr !in bucketsNew[i]
      requires OnlyHolds(bucketsNew, ka) && OnlyHolds(bucketsOld, ka)
      modifies this`addrLookup, this`entries, this`bucketsNew, this`nNew, addrLookup.Values`buckets
      ensures AllLinked() && OnlyHolds(bucketsNew, ka) && ka.buckets == old(ka.buckets)
      ensures var b := old(View());
              if |b.new_[i]| > BUCKET_SIZE
              then && victim in b.new_[i] && victim in b.lookup && victim != ka.addr && View() == DropNew(b, victim, i)
                   && Evictable(old(Notes(i, now)), victim)
              else victim == ka.addr && View() == b
      ensures Refs(View(), ka.addr) == old(Refs(View(), ka.addr)) && Within(addrLookup, old(addrLookup))
    {
      victim := ka.addr;
      assert |View().new_[i]| == |bucketsNew[i]|;
      if |bucketsNew[i]| > BUCKET_SIZE {
        ghost var b := View();
        victim := ExpireNew(i, now, ka);
        DropNewKeepsRefs(b, victim, i, ka.addr);
      }
    }

    /** addToNewBucket for an address of the new kind. The invariant needs what its caller checks: that the address has
        fewer than four references. */
    method InsertNew(ka: KnownAddress, i: nat, now: int) returns (ghost victim: Addr)
      requires Valid() && i < NEW_BUCKETS && ka.bucketType == New
      requires if ka.addr in addrLookup then InBook(ka) else ka.buckets == []
      modifies this`addrLookup, this`entries, this`bucketsNew, this`nNew, addrLookup.Values`buckets, ka`buckets
      ensures AllLinked() && (old(|ka.buckets|) < MAX_REFS ==> Valid())
      ensures InBook(ka) && WithinOr(addrLookup, old(addrLookup), ka)
      ensures |old(View()).new_[i]| > BUCKET_SIZE ==> victim in old(View()).new_[i] && victim in old(View()).lookup
      ensures MakesWay(old(Notes(i, now)), ka.addr, victim)
      ensures View() == AddToNew(old(View()), ka.addr, i, victim)
    {
      victim := ka.addr;
      if ka.addr in bucketsNew[i] {
        assert BucketOk(View(), New, i, View().new_[i]);
        assert ka.addr in View().new_[i] && Holds(View(), New, ka.addr, i);
        return;
      }
      ghost var b, few := View(), |ka.buckets| < MAX_REFS;
      victim := InsertAbsent(ka, i, now);
      if few {
        AddToNewOk(b, ka.addr, i, victim);
      }
    }

    /** addToNewBucket for an address of the new kind that is not yet in the bucket. */
    method InsertAbsent(ka: KnownAddress, i: nat, now: int) returns (ghost victim: Addr)
      requires Valid() && i < NEW_BUCKETS && ka.bucketType == New && ka.addr !in bucketsNew[i]
      requires if ka.addr in addrLookup then InBook(ka) else ka.buckets == []
      modifies this`addrLookup, this`entries, this`bucketsNew, this`nNew, addrLookup.Values`buckets, ka`buckets
      ensures AllLinked() && InBook(ka) && WithinOr(addrLookup, old(addrLookup), ka)
      ensures |old(View()).new_[i]| > BUCKET_SIZE ==> victim in old(View()).new_[i] && victim in old(View()).lookup
      ensures MakesWay(old(Notes(i, now)), ka.addr, victim)
      ensures ka.addr !in old(View()).new_[i] && View() == AddToNew(old(View()), ka.addr, i, victim)
    {
      ghost var b := View();
      RefsOf(ka, i);
      PlacesOf(ka);
      victim := MakeRoom(ka, i, now);
      assert AddToNew(b, ka.addr, i, victim) == PutNew(View(), ka.addr, i);
      PutInNewBucket(ka, i);
    }

    /** addToNewBucket; an old address is an error. */
    method AddToNewBucket(ka: KnownAddress, i: nat, now: int) returns (err: bool, ghost victim: Addr)
      requires Valid() && i < NEW_BUCKETS
      requires ka.bucketType == New ==> if ka.addr in addrLookup then InBook(ka) else ka.buckets == []
      modifies this`addrLookup, this`entries, this`bucketsNew, this`nNew, addrLookup.Values`buckets, ka`buckets
      ensures AllLinked() && (err || InBook(ka)) && WithinOr(addrLookup, old(addrLookup), ka)
      ensures err || old(|ka.buckets|) < MAX_REFS ==> Valid()
      ensures err == (ka.bucketType == Old) && (err ==> View() == old(View()))
      ensures !err && |old(View()).new_[i]| > BUCKET_SIZE ==>
                victim in old(View()).new_[i] && victim in old(View()).lookup
      ensures !err ==> MakesWay(old(Notes(i, now)), ka.addr, victim)
      ensures !err ==> View() == AddToNew(old(View()), ka.addr, i, victim)
    {
      err, victim := ka.bucketType == Old, ka.addr;
      if !err {
        victim := InsertNew(ka, i, now);
      }
    }

    /** removeFromAllBuckets. */
    method RemoveFromAllBuckets(ka: KnownAddress)
      requires AllLinked() && InBook(ka)
      requires forall i :: i in ka.buckets ==> i < if ka.bucketType == New then |bucketsNew| else |bucketsOld|
      modifies this`addrLookup, this`entries, this`bucketsNew, this`bucketsOld, this`nNew, this`nOld, ka`buckets
      ensures AllLinked() && View() == RemoveAll(old(View()), ka.addr)
      ensures ka.buckets == [] && addrLookup == old(addrLookup) - {ka.addr}
    {
      ghost var c := RemoveAll(View(), ka.addr);
      if ka.bucketType == New {
        var left := DeleteFrom(bucketsNew, ka.buckets, ka.addr);
        LinkedDelete(addrLookup, bucketsNew, ka.buckets, ka.addr, left);
        assert Keys(left) == c.new_;
        bucketsNew, nNew := left, nNew - 1;
      } else {
        var left := DeleteFrom(bucketsOld, ka.buckets, ka.addr);
        LinkedDelete(addrLookup, bucketsOld, ka.buckets, ka.addr, left);
        assert Keys(left) == c.old_;
        bucketsOld, nOld := left, nOld - 1;
      }
      addrLookup, entries := addrLookup - {ka.addr}, c.lookup;
      ka.buckets := [];
    }

    /** The second half of addToOldBucket. */
    method PutInOldBucket(ka: KnownAddress, i: nat)
      requires AllLinked() && i < |bucketsOld| && ka.addr !in addrLookup
      requires ka.bucketType == Old && ka.buckets == []
      requires OnlyHolds(bucketsNew, ka) && OnlyHolds(bucketsOld, ka)
      modifies this`addrLookup, this`entries, this`bucketsOld, this`nOld, ka`buckets
      ensures AllLinked() && View() == PutOld(old(View()), ka.addr, i) && addrLookup == old(addrLookup)[ka.addr := ka]
    {
      ghost var c := PutOld(View(), ka.addr, i);
      LinkedPutBoth(addrLookup, bucketsOld, ka, i);
      LinkedPut(addrLookup, bucketsNew, ka);
      bucketsOld := bucketsOld[i := bucketsOld[i][ka.addr := ka]];
      addrLookup := addrLookup[ka.addr := ka];
      var n := ka.AddBucketRef(i);
      entries := c.lookup;
      if n == 1 {
        nOld := nOld + 1;
      }
      forall a | a in addrLookup ensures addrLookup[a].View() == entries[a] {
        assert a != ka.addr ==> addrLookup[a] != ka && entries[a] == old(entries)[a];
      }
      assert View() == c;
    }

    /** The part of addToOldBucket after its checks of the address. */
    method PutIfRoom(ka: KnownAddress, i: nat) returns (full: bool)
      requires Valid() && i < OLD_BUCKETS && ka.addr !in addrLookup && ka.bucketType == Old && ka.buckets == []
      modifies this`addrLookup, this`entries, this`bucketsOld, this`nOld, ka`buckets
      ensures Valid() && full == (|old(View()).old_[i]| > BUCKET_SIZE)
      ensures addrLookup == if full then old(addrLookup) else old(addrLookup)[ka.addr := ka]
      ensures View() == if full then old(View()) else PutOld(old(View()), ka.addr, i)
    {
      if |bucketsOld[i]| > BUCKET_SIZE {
        return true;
      }
      PutOldOk(View(), ka.addr, i);
      PlacesOf(ka);
      PutInOldBucket(ka, i);
      return false;
    }

    /** addToOldBucket. The errors leave the book alone. */
    method AddToOldBucket(ka: KnownAddress, i: nat) returns (err: Option<OldError>)
      requires Valid() && i < OLD_BUCKETS
      requires ka.bucketType == Old && ka.buckets == [] ==> ka.addr !in addrLookup
      modifies this`addrLookup, this`entries, this`bucketsOld, this`nOld, ka`buckets
      ensures Valid() && WithinOr(addrLookup, old(addrLookup), ka)
      ensures err == if ka.bucketType == New then Some(NotOld) else if old(ka.buckets) != [] then Some(InBucket)
                     else if |old(View()).old_[i]| > BUCKET_SIZE then Some(BucketFull) else None
      ensures View() == if err.Some? then old(View()) else PutOld(old(View()), ka.addr, i)
    {
      if ka.bucketType == New {
        return Some(NotOld);
      }
      if |ka.buckets| != 0 {
        return Some(InBucket);
      }
      var full := PutIfRoom(ka, i);
      return if full then Some(BucketFull) else None;
    }

    /** moveToOld takes the address out of its new buckets and makes it an old one. */
    method Detach(ka: KnownAddress)
      requires Valid() && InBook(ka) && ka.bucketType == New
      modifies this`addrLookup, this`entries, this`bucketsNew, this`bucketsOld, this`nNew, this`nOld
      modifies ka`buckets, ka`bucketType
      ensures Valid() && View() == RemoveAll(old(View()), ka.addr) && addrLookup == old(addrLookup) - {ka.addr}
      ensures ka.bucketType == Old && ka.buckets == []
    {
      RemoveAllOk(View(), ka.addr);
      assert EntryOk(entries[ka.addr]);
      RemoveFromAllBuckets(ka);
      assert forall a :: a in addrLookup ==> addrLookup[a] != ka;
      ka.bucketType := Old;
    }

    /** The part of moveToOld that changes the book; the address it has just made an old one without buckets passes the
        checks of addToOldBucket. */
    method Promote(ka: KnownAddress, i: nat) returns (full: bool)
      requires Valid() && InBook(ka) && ka.bucketType == New && i < OLD_BUCKETS
      modifies this`addrLookup, this`entries, this`bucketsNew, this`bucketsOld, this`nNew, this`nOld
      modifies ka`buckets, ka`bucketType
      ensures Valid() && View() == MoveToOld(old(View()), ka.addr, i) && Within(addrLookup, old(addrLookup))
      ensures full == (|old(View()).old_[i]| > BUCKET_SIZE)
    {
      ghost var before := addrLookup;
      Detach(ka);
      full := PutIfRoom(ka, i);
      WithinBack(before, ka, full, addrLookup);
    }

    /** moveToOld. `hash` is the bucket hash before reduction. An address that is old or in no bucket is an error and
        changes nothing; a full old bucket is an error after the address has left its new buckets. */
    method MoveToOldBucket(ka: KnownAddress, hash: nat) returns (err: Option<OldError>)
      requires Valid() && (ka.bucketType == New && ka.buckets != [] ==> InBook(ka))
      modifies this`addrLookup, this`entries, this`bucketsNew, this`bucketsOld, this`nNew, this`nOld
      modifies ka`buckets, ka`bucketType
      ensures Valid() && Within(addrLookup, old(addrLookup))
      ensures err == if old(ka.bucketType) == Old then Some(AlreadyOld)
                     else if old(ka.buckets) == [] then Some(InNoBucket)
                     else if |old(View()).old_[hash % OLD_BUCKETS]| > BUCKET_SIZE then Some(BucketFull) else None
      ensures err == Some(AlreadyOld) || err == Some(InNoBucket) ==> View() == old(View())
      ensures err == None || err == Some(BucketFull) ==>
                ka.addr in old(View()).lookup && View() == MoveToOld(old(View()), ka.addr, hash % OLD_BUCKETS)
    {
      if ka.bucketType == Old {
        return Some(AlreadyOld);
      }
      if |ka.buckets| == 0 {
        return Some(InNoBucket);
      }
      var full := Promote(ka, hash % OLD_BUCKETS);
      return if full then Some(BucketFull) else None;
    }

    // -------------------------------------------------------------- the exported operations

    /** Whether addAddress leaves a known address as it is: an old one, one in four buckets, or one unlucky in the draw.
        `rnd` feeds Int31n. */
    method Declines(ka: KnownAddress, rnd: nat) returns (declined: bool)
      requires Valid() && InBook(ka) && ka.addr !in ourAddrs
      ensures declined <==> LeftAlone(View(), ka.addr, rnd)
    {
      assert EntryOk(entries[ka.addr]);
      if ka.bucketType == Old || |ka.buckets| == MAX_REFS {
        return true;
      }
      return rnd % (2 * |ka.buckets|) != 0;
    }

    /** The last line of addAddress. */
    method AddAccepted(ka: KnownAddress, ghost draw: nat, bucket: nat, now: int) returns (ghost op: Op)
      requires Valid() && bucket < NEW_BUCKETS && Accepts(View(), Add(ka.addr, true, draw, bucket, ka.addr))
      requires if ka.addr in addrLookup then InBook(ka) else ka.bucketType == New && ka.buckets == []
      modifies this`addrLookup, this`entries, this`bucketsNew, this`nNew, addrLookup.Values`buckets, ka`buckets
      ensures Valid() && InBook(ka) && WithinOr(addrLookup, old(addrLookup), ka)
      ensures op.Add? && op == Add(ka.addr, true, draw, bucket, op.victim)
      ensures MakesWay(old(Notes(bucket, now)), ka.addr, op.victim)
      ensures Possible(old(View()), op) && View() == Step(old(View()), op)
    {
      assert ka.addr in addrLookup ==> EntryOk(entries[ka.addr]);
      var err;
      ghost var victim;
      err, victim := AddToNewBucket(ka, bucket, now);
      op := Add(ka.addr, true, draw, bucket, victim);
    }

    /** The address is known as one that nobody has tried yet. */
    ghost predicate Unseen(addr: Addr, src: Addr, now: int)
      reads this, addrLookup.Values
    {
      && addr in addrLookup
      && var ka := addrLookup[addr];
         ka.src == src && ka.attempts == 0 && ka.lastAttempt == now && ka.lastSuccess == None
    }

    /** The part of addAddress for a known address. */
    method AddKnown(ka: KnownAddress, rnd: nat, bucket: nat, now: int) returns (ghost op: Op)
      requires Valid() && bucket < NEW_BUCKETS && InBook(ka) && ka.addr !in ourAddrs
      modifies this`addrLookup, this`entries, this`bucketsNew, this`nNew, addrLookup.Values`buckets
      ensures Valid() && WithinOr(addrLookup, old(addrLookup), ka)
      ensures op.Add? && op == Add(ka.addr, true, DrawOf(old(View()), ka.addr, rnd), bucket, op.victim)
      ensures Possible(old(View()), op) && View() == Step(old(View()), op)
      ensures !Declined(old(View()), op) ==> MakesWay(old(Notes(bucket, now)), ka.addr, op.victim)
    {
      op := Add(ka.addr, true, DrawOf(View(), ka.addr, rnd), bucket, ka.addr);
      LeftAloneIff(View(), ka.addr, rnd, op);
      DeclinedIff(View(), op);
      var declined := Declines(ka, rnd);
      if !declined {
        op := AddAccepted(ka, op.draw, bucket, now);
      }
    }

    /** The part of addAddress for an unknown address. */
    method AddUnknown(addr: Addr, src: Addr, bucket: nat, now: int) returns (ghost op: Op)
      requires Valid() && bucket < NEW_BUCKETS && addr !in ourAddrs && addr !in addrLookup
      modifies this`addrLookup, this`entries, this`bucketsNew, this`nNew, addrLookup.Values`buckets
      ensures Valid() && OldOrFresh() && Unseen(addr, src, now)
      ensures op.Add? && op == Add(addr, true, 0, bucket, op.victim)
      ensures Possible(old(View()), op) && View() == Step(old(View()), op)
      ensures MakesWay(old(Notes(bucket, now)), addr, op.victim)
    {
      ghost var notes := Notes(bucket, now);
      var ka := new KnownAddress(addr, src, now);
      assert Notes(bucket, now) == notes;
      op := AddAccepted(ka, 0, bucket, now);
    }

    /** addAddress, once the address has been let in. */
    method AddAllowed(addr: Addr, src: Addr, rnd: nat, bucket: nat, now: int) returns (ghost op: Op)
      requires Valid() && bucket < NEW_BUCKETS && addr !in ourAddrs
      modifies this`addrLookup, this`entries, this`bucketsNew, this`nNew, addrLookup.Values`buckets
      ensures Valid() && OldOrFresh()
      ensures op.Add? && op == Add(addr, true, DrawOf(old(View()), addr, rnd), bucket, op.victim)
      ensures Possible(old(View()), op) && View() == Step(old(View()), op)
      ensures addr !in old(addrLookup) ==> Unseen(addr, src, now)
      ensures !Declined(old(View()), op) ==> MakesWay(old(Notes(bucket, now)), addr, op.victim)
    {
      if addr in addrLookup {
        op := AddKnown(addrLookup[addr], rnd, bucket, now);
      } else {
        op := AddUnknown(addr, src, bucket, now);
      }
    }

    /** The address is a new one in the given bucket. */
    ghost predicate Placed(addr: Addr, i: nat)
      requires i < |bucketsNew|
      reads this, addrLookup.Values
    {
      && addr in addrLookup && addr in bucketsNew[i]
      && addrLookup[addr].bucketType == New && i in addrLookup[addr].buckets
    }

    /** addAddress. `hash` is the bucket hash before reduction. The result says which step of the value model the call
        was; an error is a step that changes nothing. An address that is let in and not left as it is ends up in the
        hashed bucket, where a full bucket has lost a bad address or its oldest one. */
    method AddAddress(addr: Option<Addr>, src: Option<Addr>, routable: bool, rnd: nat, hash: nat, now: int)
      returns (err: Option<AddError>, ghost op: Op)
      requires Valid()
      modifies this`addrLookup, this`entries, this`bucketsNew, this`nNew, addrLookup.Values`buckets
      ensures Valid() && OldOrFresh()
      ensures err == if addr.None? || src.None? then Some(NilAddress)
                     else if addr.value in ourAddrs then Some(OurAddress)
                     else if routabilityStrict && !routable then Some(NotRoutable)
                     else None
      ensures err.Some? ==> View() == old(View())
      ensures op.Add? && op.allowed == (addr.Some? && src.Some? && (routabilityStrict ==> routable))
      ensures op.draw == DrawOf(old(View()), op.a, rnd) && op.bucket == hash % NEW_BUCKETS
      ensures (addr.Some? ==> op.a == addr.value) && Possible(old(View()), op) && View() == Step(old(View()), op)
      ensures err.None? && LeftAlone(old(View()), addr.value, rnd) ==> View() == old(View())
      ensures err.None? && !LeftAlone(old(View()), addr.value, rnd) ==> Placed(addr.value, hash % NEW_BUCKETS)
      ensures err.None? && addr.value !in old(addrLookup) ==> Unseen(addr.value, src.value, now)
      ensures err.None? && !LeftAlone(old(View()), addr.value, rnd) ==>
                MakesWay(old(Notes(hash % NEW_BUCKETS, now)), addr.value, op.victim)
    {
      ghost var a := if addr.Some? then addr.value else Addr("");
      ghost var allowed := addr.Some? && src.Some? && (routabilityStrict ==> routable);
      op := Add(a, allowed, DrawOf(View(), a, rnd), hash % NEW_BUCKETS, a);
      if addr.None? || src.None? {
        return Some(NilAddress), op;
      }
      if addr.value in ourAddrs {
        return Some(OurAddress), op;
      }
      if routabilityStrict && !routable {
        return Some(NotRoutable), op;
      }
      ghost var b := View();
      op := AddAllowed(addr.value, src.value, rnd, hash % NEW_BUCKETS, now);
      LeftAloneIff(b, addr.value, rnd, op);
      AdditionOutcome(b, op);
      return None, op;
    }

    method RemoveAddress(addr: Addr)
      requires Valid()
      modifies this`addrLookup, this`entries, this`bucketsNew, this`bucketsOld, this`nNew, this`nOld
      modifies addrLookup.Values`buckets
      ensures Valid() && View() == Step(old(View()), Remove(addr)) && addrLookup == old(addrLookup) - {addr}
      ensures Gone(View(), addr) && OthersStay(old(View()), View(), addr)
    {
      RemovalOutcome(View(), addr);
      if addr in addrLookup {
        RemoveAllOk(View(), addr);
        assert EntryOk(entries[addr]);
        RemoveFromAllBuckets(addrLookup[addr]);
      }
    }

    /** What a call notes about one address leaves the book's structures alone. */
    method NoteKnownGood(ka: KnownAddress, now: int)
      requires Valid() && InBook(ka)
      modifies ka`attempts, ka`lastAttempt, ka`lastSuccess
      ensures Valid() && ka.lastAttempt == now && ka.lastSuccess == Some(now) && ka.attempts == 0
    {
      ka.NoteGood(now);
    }

    lemma HasBuckets(ka: KnownAddress)
      requires Valid() && InBook(ka)
      ensures ka.buckets != [] && entries[ka.addr].kind == ka.bucketType
    {
      assert EntryOk(entries[ka.addr]);
    }

    /** A new address moves to the old ones. */
    method PromoteIfNew(ka: KnownAddress, hash: nat)
      requires Valid() && InBook(ka)
      modifies this`addrLookup, this`entries, this`bucketsNew, this`bucketsOld, this`nNew, this`nOld
      modifies ka`buckets, ka`bucketType
      ensures Valid() && View() == Step(old(View()), MarkGood(ka.addr, hash % OLD_BUCKETS))
      ensures Within(addrLookup, old(addrLookup))
    {
      HasBuckets(ka);
      MarkGoodSteps(View(), ka.addr, hash % OLD_BUCKETS);
      if ka.bucketType == New {
        var err := MoveToOldBucket(ka, hash);
      }
    }

    /** MarkGood for a known address. */
    method MarkKnownGood(ka: KnownAddress, hash: nat, now: int)
      requires Valid() && InBook(ka)
      modifies this`addrLookup, this`entries, this`bucketsNew, this`bucketsOld, this`nNew, this`nOld, ka
      ensures Valid() && View() == Step(old(View()), MarkGood(ka.addr, hash % OLD_BUCKETS))
      ensures Within(addrLookup, old(addrLookup))
      ensures ka.lastAttempt == now && ka.lastSuccess == Some(now) && ka.attempts == 0
    {
      NoteKnownGood(ka, now);
      PromoteIfNew(ka, hash);
    }

    method MarkGoodAddress(addr: Addr, hash: nat, now: int)
      requires Valid()
      modifies this`addrLookup, this`entries, this`bucketsNew, this`bucketsOld, this`nNew, this`nOld
      modifies addrLookup.Values
      ensures Valid() && View() == Step(old(View()), MarkGood(addr, hash % OLD_BUCKETS))
      ensures Within(addrLookup, old(addrLookup))
      ensures var known := old(addrLookup);
              addr in known ==>
                known[addr].lastAttempt == now && known[addr].lastSuccess == Some(now) && known[addr].attempts == 0
      ensures var known := old(addrLookup); forall a :: a in known && a != addr ==> unchanged(known[a])
    {
      if addr in addrLookup {
        MarkKnownGood(addrLookup[addr], hash, now);
      }
    }

    method MarkAttemptOn(addr: Addr, now: int)
      requires Valid()
      modifies addrLookup.Values
      ensures Valid() && View() == Step(old(View()), MarkAttempt(addr))
      ensures addr in addrLookup ==>
                var ka := addrLookup[addr];
                ka.lastAttempt == now && ka.attempts == old(ka.attempts) + 1 && ka.lastSuccess == old(ka.lastSuccess)
      ensures forall a :: a in addrLookup && a != addr ==> unchanged(addrLookup[a])
    {
      if addr in addrLookup {
        addrLookup[addr].NoteAttempt(now);
      }
    }

    method AddOurAddress(addr: Addr)
      requires Valid()
      modifies this`ourAddrs
      ensures Valid() && View() == Step(old(View()), AddOurs(addr)) && ourAddrs == old(ourAddrs) + {addr}
    {
      StepOk(View(), AddOurs(addr));
      ourAddrs := ourAddrs + {addr};
    }
  }

  /** A call to the book, with what its randomness, its bucket hash and its clock give it. */
  datatype Call =
    | Adding(addr: Option<Addr>, src: Option<Addr>, routable: bool, rnd: nat, hash: nat, now: int)
    | Removing(a: Addr)
    | Good(a: Addr, hash: nat, now: int)
    | Attempted(a: Addr, now: int)
    | AddingOurs(a: Addr)

  /** The step is the one the call asks for, in a book of this strictness. */
  predicate Matches(call: Call, strict: bool, op: Op) {
    match call
    case Adding(addr, src, routable, _, hash, _) =>
      && op.Add? && op.allowed == (addr.Some? && src.Some? && (strict ==> routable))
      && (addr.Some? ==> op.a == addr.value) && op.bucket == hash % NEW_BUCKETS
    case Removing(a) => op == Remove(a)
    case Good(a, hash, _) => op == MarkGood(a, hash % OLD_BUCKETS)
    case Attempted(a, _) => op == MarkAttempt(a)
    case AddingOurs(a) => op == AddOurs(a)
  }

  method Perform(book: AddrBook, call: Call) returns (ghost op: Op)
    requires book.Valid()
    modifies book, book.addrLookup.Values
    ensures book.Valid() && book.OldOrFresh() && Matches(call, book.routabilityStrict, op)
    ensures Possible(old(book.View()), op) && book.View() == Step(old(book.View()), op)
  {
    match call
    case Adding(addr, src, routable, rnd, hash, now) =>
      var err;
      err, op := book.AddAddress(addr, src, routable, rnd, hash, now);
    case Removing(a) =>
      op := Remove(a);
      book.RemoveAddress(a);
    case Good(a, hash, now) =>
      op := MarkGood(a, hash % OLD_BUCKETS);
      book.MarkGoodAddress(a, hash, now);
    case Attempted(a, now) =>
      op := MarkAttempt(a);
      book.MarkAttemptOn(a, now);
    case AddingOurs(a) =>
      op := AddOurs(a);
      book.AddOurAddress(a);
  }

  /** The first k calls have led from b to `now`, one step for each. */
  predicate Performed(b: Book, calls: seq<Call>, k: nat, strict: bool, ops: seq<Op>, now: Book)
    requires k <= |calls|
  {
    && |ops| == k && (forall i :: 0 <= i < k ==> Matches(calls[i], strict, ops[i]))
    && ValidRun(b, ops) && now == Final(b, ops)
  }

  lemma PerformedStep(b: Book, calls: seq<Call>, k: nat, strict: bool, ops: seq<Op>, now: Book, op: Op)
    requires k < |calls| && Performed(b, calls, k, strict, ops, now)
    requires Matches(calls[k], strict, op) && Possible(now, op)
    ensures Performed(b, calls, k + 1, strict, ops + [op], Step(now, op))
  {
    RunSnoc(b, ops, op);
  }

  /** Calls one after another: the shared objects go through a run of the value model, one step for each call. */
  method PerformAll(book: AddrBook, calls: seq<Call>) returns (ghost ops: seq<Op>)
    requires book.Valid()
    modifies book, book.addrLookup.Values
    ensures book.Valid() && book.OldOrFresh()
    ensures |ops| == |calls| && forall i :: 0 <= i < |calls| ==> Matches(calls[i], book.routabilityStrict, ops[i])
    ensures ValidRun(old(book.View()), ops) && book.View() == Final(old(book.View()), ops)
  {
    ops := [];
    for k := 0 to |calls|
      invariant book.Valid() && book.OldOrFresh()
      invariant Performed(old(book.View()), calls, k, book.routabilityStrict, ops, book.View())
    {
      ghost var now := book.View();
      ghost var op := Perform(book, calls[k]);
      PerformedStep(old(book.View()), calls, k, book.routabilityStrict, ops, now, op);
      ops := ops + [op];
    }
  }
}
