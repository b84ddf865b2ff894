/** Whole runs of the address book, and what the invariant gives its readers. */
module AddrBookRuns {
  import opened AddrBookModel

  /**
   One call by the outside. `allowed` says that neither pointer is nil and that a strict book finds the
   address routable; `draw` is what Int31n returned; `bucket` is the hashed bucket; `victim` is the address
   that a full bucket expires.
   */
  datatype Op =
    | Add(a: Addr, allowed: bool, draw: nat, bucket: nat, victim: Addr)
    | MarkGood(a: Addr, bucket: nat)
    | MarkAttempt(a: Addr)
    | Remove(a: Addr)
    | AddOurs(a: Addr)

  /** addAddress gets past its early returns. */
  predicate Accepts(b: Book, op: Op)
    requires op.Add?
  {
    && op.allowed && op.a !in b.ours
    && (op.a in b.lookup ==>
          b.lookup[op.a].kind == New && |b.lookup[op.a].refs| != MAX_REFS && op.draw == 0)
  }

  /** The hashes and the victim are ones the code could have come up with. */
  predicate Possible(b: Book, op: Op) {
    match op
    case Add(_, _, _, bucket, victim) =>
      && bucket < NEW_BUCKETS && bucket < |b.new_|
      && (Accepts(b, op) && |b.new_[bucket]| > BUCKET_SIZE ==> victim in b.new_[bucket] && victim in b.lookup)
    case MarkGood(_, bucket) => bucket < OLD_BUCKETS && bucket < |b.old_|
    case _ => true
  }

  function Step(b: Book, op: Op): Book
    requires Possible(b, op)
  {
    match op
    case Add(a, _, _, bucket, victim) => if Accepts(b, op) then AddToNew(b, a, bucket, victim) else b
    case MarkGood(a, bucket) => if a in b.lookup && b.lookup[a].kind == New then MoveToOld(b, a, bucket) else b
    case MarkAttempt(a) => b
    case Remove(a) => if a in b.lookup then RemoveAll(b, a) else b
    case AddOurs(a) => b.(ours := b.ours + {a})
  }

  lemma MarkGoodSteps(b: Book, a: Addr, i: nat)
    requires a in b.lookup && i < OLD_BUCKETS && i < |b.old_|
    ensures Step(b, MarkGood(a, i)) == if b.lookup[a].kind == New then MoveToOld(b, a, i) else b
  {
  }

  /** The argument of Int31n is positive whenever it is drawn from. */
  lemma DrawArgumentPositive(b: Book, a: Addr)
    requires Ok(b) && a in b.lookup
    ensures 2 * |b.lookup[a].refs| > 0
  {
    assert EntryOk(b.lookup[a]);
  }

  lemma StepOk(b: Book, op: Op)
    requires Ok(b) && Possible(b, op)
    ensures Ok(Step(b, op))
  {
    match op
    case Add(a, _, _, bucket, victim) =>
      if Accepts(b, op) {
        assert a in b.lookup ==> EntryOk(b.lookup[a]);
        AddToNewOk(b, a, bucket, victim);
      }
    case MarkGood(a, bucket) =>
      if a in b.lookup && b.lookup[a].kind == New {
        MoveToOldOk(b, a, bucket);
      }
    case Remove(a) =>
      if a in b.lookup {
        RemoveAllOk(b, a);
      }
    case AddOurs(a) =>
      SameButOurs(b, Step(b, op));
    case _ =>
  }

  predicate ValidRun(b: Book, ops: seq<Op>)
    decreases |ops|
  {
    ops != [] ==> Possible(b, ops[0]) && ValidRun(Step(b, ops[0]), ops[1..])
  }

  function Final(b: Book, ops: seq<Op>): Book
    requires ValidRun(b, ops)
    decreases |ops|
  {
    if ops == [] then b else Final(Step(b, ops[0]), ops[1..])
  }

  lemma {:induction false} RunSnoc(b: Book, ops: seq<Op>, op: Op)
    requires ValidRun(b, ops) && Possible(Final(b, ops), op)
    ensures ValidRun(b, ops + [op]) && Final(b, ops + [op]) == Step(Final(b, ops), op)
    decreases |ops|
  {
    if ops == [] {
      assert [op][1..] == [];
    } else {
      RunSnoc(Step(b, ops[0]), ops[1..], op);
      assert (ops + [op])[1..] == ops[1..] + [op];
    }
  }

  /** Every run keeps lookup, buckets, references and counters in agreement. */
  lemma {:induction false} RunKeepsInvariant(b: Book, ops: seq<Op>)
    requires Ok(b) && ValidRun(b, ops)
    ensures Ok(Final(b, ops))
    decreases |ops|
  {
    if ops != [] {
      StepOk(b, ops[0]);
      RunKeepsInvariant(Step(b, ops[0]), ops[1..]);
    }
  }

  // ---------------------------------------------------------------- what each call does to the known addresses

  /** The call leaves the book as it is: a refused address, or a known one that is old, has four references, or was
      unlucky in the draw. */
  predicate Declined(b: Book, op: Op)
    requires op.Add?
  {
    || !op.allowed || op.a in b.ours
    || (op.a in b.lookup && (b.lookup[op.a].kind == Old || |b.lookup[op.a].refs| == 4 || op.draw != 0))
  }

  lemma DeclinedIff(b: Book, op: Op)
    requires Ok(b) && op.Add? && op.bucket < NEW_BUCKETS
    ensures Declined(b, op) <==> !Accepts(b, op)
    ensures Declined(b, op) ==> Possible(b, op) && Step(b, op) == b
  {
  }

  /** The known addresses without one reference of a new one; the last reference takes the address with it. */
  function Unreferenced(l: map<Addr, Entry>, a: Addr, i: nat): map<Addr, Entry>
    requires a in l
  {
    var left := Without(l[a].refs, i);
    if left == [] then l - {a} else l[a := Entry(New, left)]
  }

  /** The known addresses after a call, from those before it alone, up to which buckets hold more than 64. */
  function LookupAfter(b: Book, op: Op): map<Addr, Entry>
    requires Possible(b, op)
  {
    var l := b.lookup;
    match op
    case Remove(a) => l - {a}
    case AddOurs(_) => l
    case MarkAttempt(_) => l
    case MarkGood(a, i) =>
      if a !in l || l[a].kind == Old then l else if |b.old_[i]| > 64 then l - {a} else l[a := Entry(Old, [i])]
    case Add(a, _, _, i, victim) =>
      if Declined(b, op) || i in Refs(b, a) then l
      else
        var l' := if |b.new_[i]| > 64 && victim in l then Unreferenced(l, victim, i) else l;
        l'[a := Entry(New, Refs(b, a) + [i])]
  }

  /** addToNewBucket on the known addresses, for an address that is not yet in the bucket. */
  lemma PlacedByLookup(b: Book, a: Addr, i: nat, victim: Addr)
    requires i < |b.new_| && a !in b.new_[i]
    requires |b.new_[i]| > 64 ==> victim in b.new_[i] && victim in b.lookup
    ensures var l := if |b.new_[i]| > 64 then Unreferenced(b.lookup, victim, i) else b.lookup;
            AddToNew(b, a, i, victim).lookup == l[a := Entry(New, Refs(b, a) + [i])]
  {
    if |b.new_[i]| > 64 {
      assert victim != a;
      var c := DropNew(b, victim, i);
      assert c.lookup == Unreferenced(b.lookup, victim, i);
      assert Refs(c, a) == Refs(b, a);
    }
  }

  lemma AddByLookup(b: Book, op: Op)
    requires Ok(b) && Possible(b, op) && op.Add?
    ensures Step(b, op).lookup == LookupAfter(b, op)
  {
    var a, i := op.a, op.bucket;
    assert a in b.lookup ==> EntryOk(b.lookup[a]);
    if !Declined(b, op) {
      assert BucketOk(b, New, i, b.new_[i]);
      assert a in b.new_[i] <==> Holds(b, New, a, i);
      if a !in b.new_[i] {
        PlacedByLookup(b, a, i, op.victim);
      }
    }
  }

  lemma RemoveByLookup(b: Book, a: Addr)
    ensures Step(b, Remove(a)).lookup == b.lookup - {a}
  {
    if a !in b.lookup {
      assert b.lookup - {a} == b.lookup;
    }
  }

  lemma MarkGoodByLookup(b: Book, a: Addr, i: nat)
    requires Ok(b) && Possible(b, MarkGood(a, i))
    ensures Step(b, MarkGood(a, i)).lookup == LookupAfter(b, MarkGood(a, i))
  {
    if a in b.lookup && b.lookup[a].kind == New {
      assert (b.lookup - {a})[a := Entry(Old, [i])] == b.lookup[a := Entry(Old, [i])];
    }
  }

  /** Every call does to the known addresses what LookupAfter says, and to our own what its name says; the invariant
      makes buckets, references and counters follow. */
  lemma StepByLookup(b: Book, op: Op)
    requires Ok(b) && Possible(b, op)
    ensures Step(b, op).lookup == LookupAfter(b, op) && Ok(Step(b, op))
    ensures Step(b, op).ours == if op.AddOurs? then b.ours + {op.a} else b.ours
  {
    StepOk(b, op);
    match op
    case Add(_, _, _, _, _) => AddByLookup(b, op);
    case Remove(a) => RemoveByLookup(b, a);
    case MarkGood(a, i) => MarkGoodByLookup(b, a, i);
    case _ =>
  }

  /** Neither known nor in a bucket. */
  ghost predicate Gone(b: Book, a: Addr) {
    && a !in b.lookup
    && (forall i :: 0 <= i < |b.new_| ==> a !in b.new_[i])
    && (forall i :: 0 <= i < |b.old_| ==> a !in b.old_[i])
  }

  /** Every other address is where it was. */
  ghost predicate OthersStay(b: Book, c: Book, a: Addr) {
    && |c.new_| == |b.new_| && |c.old_| == |b.old_| && c.lookup - {a} == b.lookup - {a}
    && (forall i, x :: 0 <= i < |b.new_| && x != a ==> (x in c.new_[i] <==> x in b.new_[i]))
    && (forall i, x :: 0 <= i < |b.old_| && x != a ==> (x in c.old_[i] <==> x in b.old_[i]))
  }

  /** Two good books that know the others alike have them in the same buckets. */
  lemma SameOthers(b: Book, c: Book, a: Addr)
    requires Ok(b) && Ok(c) && c.lookup - {a} == b.lookup - {a}
    ensures OthersStay(b, c, a)
  {
    forall i, x | 0 <= i < |b.new_| && x != a ensures x in c.new_[i] <==> x in b.new_[i] {
      assert BucketOk(b, New, i, b.new_[i]) && BucketOk(c, New, i, c.new_[i]);
      SameEntry(b, c, a, x);
      assert Holds(b, New, x, i) <==> Holds(c, New, x, i);
    }
    forall i, x | 0 <= i < |b.old_| && x != a ensures x in c.old_[i] <==> x in b.old_[i] {
      assert BucketOk(b, Old, i, b.old_[i]) && BucketOk(c, Old, i, c.old_[i]);
      SameEntry(b, c, a, x);
      assert Holds(b, Old, x, i) <==> Holds(c, Old, x, i);
    }
  }

  lemma SameEntry(b: Book, c: Book, a: Addr, x: Addr)
    requires c.lookup - {a} == b.lookup - {a} && x != a
    ensures x in b.lookup <==> x in c.lookup
    ensures x in b.lookup ==> b.lookup[x] == c.lookup[x]
  {
    assert x in b.lookup <==> x in b.lookup - {a};
    assert x in c.lookup <==> x in c.lookup - {a};
  }

  /** Removal, of an address of either kind or an unknown one: it is in no lookup and in no bucket afterwards, and every
      other address is where it was. */
  lemma RemovalOutcome(b: Book, a: Addr)
    requires Ok(b)
    ensures var c := Step(b, Remove(a)); Gone(c, a) && OthersStay(b, c, a) && c.ours == b.ours
  {
    var c := Step(b, Remove(a));
    StepByLookup(b, Remove(a));
    assert c.lookup - {a} == b.lookup - {a};
    SameOthers(b, c, a);
    forall i | 0 <= i < |c.new_| ensures a !in c.new_[i] {
      assert BucketOk(c, New, i, c.new_[i]);
    }
    forall i | 0 <= i < |c.old_| ensures a !in c.old_[i] {
      assert BucketOk(c, Old, i, c.old_[i]);
    }
  }

  /** An addition that is not declined puts the address into the bucket, as a new one, with one more reference unless it
      was there. */
  lemma AdditionOutcome(b: Book, op: Op)
    requires Ok(b) && Possible(b, op) && op.Add?
    ensures var c := Step(b, op);
            if Declined(b, op) then c == b
            else
              && op.a in c.lookup && c.lookup[op.a].kind == New && op.a in c.new_[op.bucket]
              && c.lookup[op.a].refs == Refs(b, op.a) + if op.bucket in Refs(b, op.a) then [] else [op.bucket]
  {
    var c := Step(b, op);
    StepByLookup(b, op);
    assert op.a in b.lookup ==> EntryOk(b.lookup[op.a]);
    if !Declined(b, op) {
      assert Refs(b, op.a) + [] == Refs(b, op.a);
      assert BucketOk(c, New, op.bucket, c.new_[op.bucket]);
      assert Holds(c, New, op.a, op.bucket);
    }
  }

  // ---------------------------------------------------------------- our own addresses

  /** An address of our own that is in the book at the end was in it at the start. */
  lemma {:induction false} OursNeverEnter(b: Book, ops: seq<Op>, a: Addr)
    requires ValidRun(b, ops) && a in b.ours
    ensures a in Final(b, ops).ours && (a in Final(b, ops).lookup ==> a in b.lookup)
    decreases |ops|
  {
    if ops != [] {
      OursNeverEnter(Step(b, ops[0]), ops[1..], a);
    }
  }

  lemma {:induction false} RunConcat(b: Book, ops: seq<Op>, more: seq<Op>)
    requires ValidRun(b, ops + more)
    ensures ValidRun(b, ops) && ValidRun(Final(b, ops), more) && Final(b, ops + more) == Final(Final(b, ops), more)
    decreases |ops|
  {
    if ops == [] {
      assert ops + more == more;
    } else {
      assert (ops + more)[1..] == ops[1..] + more;
      RunConcat(Step(b, ops[0]), ops[1..], more);
    }
  }

  /** The law in terms of the calls: after AddOurAddress(a) no later call brings a into the book. If it was not known at
      that time, it is in no later lookup; if it was, it stays out from the time it leaves. */
  lemma {:induction false} RegisteredStaysOut(b: Book, before: seq<Op>, a: Addr, after: seq<Op>, more: seq<Op>)
    requires ValidRun(b, before + [AddOurs(a)] + after + more)
    ensures ValidRun(b, before) && ValidRun(b, before + [AddOurs(a)] + after)
    ensures a !in Final(b, before).lookup || a !in Final(b, before + [AddOurs(a)] + after).lookup ==>
              a !in Final(b, before + [AddOurs(a)] + after + more).lookup
  {
    var own := [AddOurs(a)];
    RunConcat(b, before + own + after, more);
    RunConcat(b, before + own, after);
    RunConcat(b, before, own);
    var c := Final(b, before);
    assert own[1..] == [];
    assert Final(c, own) == Step(c, AddOurs(a));
    OursNeverEnter(Final(b, before + own), after, a);
    OursNeverEnter(Final(b, before + own + after), more, a);
  }

  /** An address of our own that is not in the book never enters it again. */
  lemma {:induction false} OursNeverReturn(b: Book, ops: seq<Op>, a: Addr)
    requires ValidRun(b, ops) && a in b.ours && a !in b.lookup
    ensures a in Final(b, ops).ours && a !in Final(b, ops).lookup
    decreases |ops|
  {
    if ops != [] {
      OursNeverReturn(Step(b, ops[0]), ops[1..], a);
    }
  }

  /** Promotion into a full old bucket throws the address out of the book; otherwise it ends in exactly that
      bucket and in no new one. */
  lemma PromotionOutcome(b: Book, a: Addr, i: nat)
    requires Ok(b) && a in b.lookup && b.lookup[a].kind == New && i < OLD_BUCKETS
    ensures var c := MoveToOld(b, a, i);
            && (forall k :: 0 <= k < NEW_BUCKETS ==> a !in c.new_[k])
            && (|b.old_[i]| > BUCKET_SIZE ==> a !in c.lookup && forall k :: 0 <= k < OLD_BUCKETS ==> a !in c.old_[k])
            && (|b.old_[i]| <= BUCKET_SIZE ==> forall k :: 0 <= k < OLD_BUCKETS ==> (a in c.old_[k] <==> k == i))
  {
    MoveToOldOk(b, a, i);
    var c := MoveToOld(b, a, i);
    forall k | 0 <= k < NEW_BUCKETS ensures a !in c.new_[k] {
      assert BucketOk(c, New, k, c.new_[k]);
    }
    forall k | 0 <= k < OLD_BUCKETS ensures a in c.old_[k] <==> Holds(c, Old, a, k) {
      assert BucketOk(c, Old, k, c.old_[k]);
    }
  }

  /** Adding an unknown address without an eviction and removing it again restores the book. */
  lemma RemoveUndoesAdd(b: Book, a: Addr, i: nat, victim: Addr)
    requires Ok(b) && a !in b.lookup && i < NEW_BUCKETS && |b.new_[i]| <= BUCKET_SIZE
    ensures a in AddToNew(b, a, i, victim).lookup
    ensures RemoveAll(AddToNew(b, a, i, victim), a) == b
  {
    assert a !in b.new_[i] by {
      assert BucketOk(b, New, i, b.new_[i]);
    }
    var c := AddToNew(b, a, i, victim);
    var d := RemoveAll(c, a);
    assert c.lookup[a].refs == [] + [i];
    assert d.lookup == b.lookup;
    assert d.new_ == b.new_;
  }

  // ---------------------------------------------------------------- consequences for readers

  lemma KindsPartition(lookup: map<Addr, Entry>)
    ensures |OfKind(lookup, New)| + |OfKind(lookup, Old)| == |lookup.Keys|
  {
    var news, olds := OfKind(lookup, New), OfKind(lookup, Old);
    forall a ensures a in lookup.Keys <==> a in news + olds {
      assert a in lookup ==> lookup[a].kind == New || lookup[a].kind == Old;
    }
    assert lookup.Keys == news + olds;
    assert |news + olds| == |news| + |olds|;
  }

  /** size() is the number of known addresses. */
  lemma SizeIsLookup(b: Book)
    requires CountsOk(b)
    ensures b.nNew + b.nOld == |b.lookup|
  {
    KindsPartition(b.lookup);
    assert |b.lookup.Keys| == |b.lookup|;
  }

  /** PickAddress finds a bucket: a kind has addresses exactly when one of its buckets is not empty. */
  lemma KindHasBucket(b: Book)
    requires Ok(b)
    ensures b.nNew > 0 <==> exists i :: 0 <= i < NEW_BUCKETS && b.new_[i] != {}
    ensures b.nOld > 0 <==> exists i :: 0 <= i < OLD_BUCKETS && b.old_[i] != {}
  {
    if b.nNew > 0 {
      var a :| a in OfKind(b.lookup, New);
      var i := b.lookup[a].refs[0];
      assert EntryOk(b.lookup[a]) && Holds(b, New, a, i);
      assert BucketOk(b, New, i, b.new_[i]) && a in b.new_[i];
    }
    if i :| 0 <= i < NEW_BUCKETS && b.new_[i] != {} {
      var a :| a in b.new_[i];
      assert BucketOk(b, New, i, b.new_[i]) && a in OfKind(b.lookup, New);
    }
    if b.nOld > 0 {
      var a :| a in OfKind(b.lookup, Old);
      var i := b.lookup[a].refs[0];
      assert EntryOk(b.lookup[a]) && Holds(b, Old, a, i);
      assert BucketOk(b, Old, i, b.old_[i]) && a in b.old_[i];
    }
    if i :| 0 <= i < OLD_BUCKETS && b.old_[i] != {} {
      var a :| a in b.old_[i];
      assert BucketOk(b, Old, i, b.old_[i]) && a in OfKind(b.lookup, Old);
    }
  }

  function Min(x: int, y: int): int { if x < y then x else y }
  function Max(x: int, y: int): int { if x < y then y else x }

  /** How many addresses GetSelection returns. */
  function SelectionSize(size: nat): nat {
    Min(250, Max(Min(32, size), size * 23 / 100))
  }

  /** All of up to 32 addresses, then 32 while that is more than 23 percent, then 23 percent, and never over 250. */
  lemma SelectionRanges(size: nat)
    ensures SelectionSize(size) == if size <= 32 then size else if size < 140 then 32
                                   else if size < 1087 then size * 23 / 100 else 250
  {
  }

  lemma SelectionFits(size: nat)
    ensures SelectionSize(size) <= size && (size > 0 ==> SelectionSize(size) > 0)
  {
  }
}
