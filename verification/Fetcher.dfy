/**
 The block fetcher of netsync/fetcher.go: a queue ordered by single-precision priorities and a map that keeps
 a hash from being imported twice. What the chain answers is an input of every step.
 */
module Fetcher {
  import opened Bytes
  import opened Hash
  import opened Float32

  const MAX_QUEUE_DIST: int := 1024
  const MAX_HEIGHT: Word := 0xffff_ffff_ffff_ffff

  datatype Block = Block(hash: Hash, previous: Hash, height: Word)

  datatype Pending = Pending(peer: string, block: Block)

  /** A block handed to ProcessBlock, with the best hash the chain reported just before. */
  datatype Import = Import(hash: Hash, previous: Hash, best: Hash)

  datatype State = State(queue: seq<Pending>, queued: map<Hash, Pending>, imports: seq<Import>)

  const Start := State([], map[], [])

  // ---------------------------------------------------------------- steps

  /** A difference of two uint64 values converted to int64, as int64. */
  function Signed64(x: int): int {
    var m := x % 0x1_0000_0000_0000_0000;
    if m < 0x8000_0000_0000_0000 then m else m - 0x1_0000_0000_0000_0000
  }

  /** uint64 addition of one. */
  function Next(height: Word): Word {
    if height == MAX_HEIGHT then 0 else height + 1
  }

  function Enqueue(s: State, op: Pending, best: Word): State {
    var dist := Signed64(op.block.height - best);
    if dist < 0 || dist > MAX_QUEUE_DIST || op.block.hash in s.queued then s
    else State(s.queue + [op], s.queued[op.block.hash := op], s.imports)
  }

  function Priority(op: Pending): nat {
    ToFloat32(op.block.height)
  }

  /** The queue may give out any item whose priority, the negated height, no other exceeds. */
  predicate First(queue: seq<Pending>, i: nat) {
    i < |queue| && forall j :: 0 <= j < |queue| ==> Priority(queue[i]) <= Priority(queue[j])
  }

  function Without(queue: seq<Pending>, i: nat): seq<Pending>
    requires i < |queue|
  {
    queue[..i] + queue[i + 1..]
  }

  /** One turn of the loop over the queue: `known` and `best` are what the chain answers about the block. */
  function Take(s: State, i: nat, height: Word, known: bool, best: Hash): State
    requires i < |s.queue|
  {
    var op, rest := s.queue[i], Without(s.queue, i);
    if op.block.height > Next(height) then s.(queue := rest + [op])
    else if known || op.block.previous != best then s.(queue := rest, queued := s.queued - {op.block.hash})
    else s.(queue := rest, imports := s.imports + [Import(op.block.hash, op.block.previous, best)])
  }

  datatype Event = Announced(op: Pending, bestHeight: Word) | Taken(i: nat, height: Word, known: bool, best: Hash)

  predicate Enabled(s: State, e: Event) {
    e.Taken? ==> First(s.queue, e.i)
  }

  function Step(s: State, e: Event): State
    requires Enabled(s, e)
  {
    match e
    case Announced(op, best) => Enqueue(s, op, best)
    case Taken(i, height, known, best) => Take(s, i, height, known, best)
  }

  predicate ValidRun(s: State, es: seq<Event>)
    decreases |es|
  {
    es != [] ==> Enabled(s, es[0]) && ValidRun(Step(s, es[0]), es[1..])
  }

  function Final(s: State, es: seq<Event>): State
    requires ValidRun(s, es)
    decreases |es|
  {
    if es == [] then s else Final(Step(s, es[0]), es[1..])
  }

  lemma {:induction false} RunSnoc(s: State, es: seq<Event>, e: Event)
    requires ValidRun(s, es) && Enabled(Final(s, es), e)
    ensures ValidRun(s, es + [e]) && Final(s, es + [e]) == Step(Final(s, es), e)
    decreases |es|
  {
    if es == [] {
      assert [e][1..] == [];
    } else {
      RunSnoc(Step(s, es[0]), es[1..], e);
      assert (es + [e])[1..] == es[1..] + [e];
    }
  }

  // ---------------------------------------------------------------- imported at most once

  ghost predicate QueueInv(s: State) {
    && (forall i, j :: 0 <= i < j < |s.queue| ==> s.queue[i].block.hash != s.queue[j].block.hash)
    && (forall i :: 0 <= i < |s.queue| ==>
          s.queue[i].block.hash in s.queued && s.queued[s.queue[i].block.hash] == s.queue[i])
  }

  /** Imported hashes stay in the map and never return to the queue. */
  ghost predicate ImportInv(s: State) {
    && (forall i, j :: 0 <= i < j < |s.imports| ==> s.imports[i].hash != s.imports[j].hash)
    && (forall i :: 0 <= i < |s.imports| ==>
          s.imports[i].hash in s.queued && s.imports[i].previous == s.imports[i].best)
    && (forall i, j :: 0 <= i < |s.imports| && 0 <= j < |s.queue| ==> s.imports[i].hash != s.queue[j].block.hash)
  }

  ghost predicate Inv(s: State) {
    QueueInv(s) && ImportInv(s)
  }

  lemma EnqueueKeeps(s: State, op: Pending, best: Word)
    requires Inv(s)
    ensures Inv(Enqueue(s, op, best))
  {
  }

  lemma WithoutSound(s: State, i: nat)
    requires Inv(s) && i < |s.queue|
    ensures var rest := Without(s.queue, i);
            && (forall j :: 0 <= j < |rest| ==> rest[j] in s.queue && rest[j].block.hash != s.queue[i].block.hash)
            && (forall j, k :: 0 <= j < k < |rest| ==> rest[j].block.hash != rest[k].block.hash)
  {
    var rest := Without(s.queue, i);
    forall j | 0 <= j < |rest| ensures rest[j] in s.queue && rest[j].block.hash != s.queue[i].block.hash {
      assert rest[j] == s.queue[if j < i then j else j + 1];
    }
    forall j, k | 0 <= j < k < |rest| ensures rest[j].block.hash != rest[k].block.hash {
      assert rest[j] == s.queue[if j < i then j else j + 1];
      assert rest[k] == s.queue[if k < i then k else k + 1];
    }
  }

  lemma TakeKeeps(s: State, i: nat, height: Word, known: bool, best: Hash)
    requires Inv(s) && i < |s.queue|
    ensures Inv(Take(s, i, height, known, best))
  {
    WithoutSound(s, i);
  }

  lemma {:induction false} RunKeeps(s: State, es: seq<Event>)
    requires Inv(s) && ValidRun(s, es)
    ensures Inv(Final(s, es))
    decreases |es|
  {
    if es != [] {
      var e := es[0];
      if e.Announced? {
        EnqueueKeeps(s, e.op, e.bestHeight);
      } else {
        TakeKeeps(s, e.i, e.height, e.known, e.best);
      }
      RunKeeps(Step(s, e), es[1..]);
    }
  }

  // ---------------------------------------------------------------- the fate of every block

  /** A turn may import the block: it is no higher than the next height, unknown to the chain, and its parent is the
      best block. */
  predicate Imports(op: Pending, height: Word, known: bool, best: Hash) {
    op.block.height <= Next(height) && !known && op.block.previous == best
  }

  /** A turn forgets the block: it is due, but known or not on the best block. */
  predicate Refuses(op: Pending, height: Word, known: bool, best: Hash) {
    op.block.height <= Next(height) && (known || op.block.previous != best)
  }

  /** A block is queued if it lies at most 1024 above the best height, the distance taken as int64, and its hash is not
      in the map. */
  predicate Admits(s: State, op: Pending, best: Word) {
    0 <= Signed64(op.block.height - best) <= 1024 && op.block.hash !in s.queued
  }

  /** The int64 that is congruent to x. */
  lemma SignedIs(x: int)
    ensures -0x8000_0000_0000_0000 <= Signed64(x) < 0x8000_0000_0000_0000
    ensures (Signed64(x) - x) % 0x1_0000_0000_0000_0000 == 0
  {
  }

  lemma AdmittedIff(s: State, op: Pending, best: Word)
    ensures var t := Enqueue(s, op, best);
            if Admits(s, op, best) then t == State(s.queue + [op], s.queued[op.block.hash := op], s.imports) else t == s
  {
  }

  lemma WithoutOne(queue: seq<Pending>, i: nat)
    requires i < |queue|
    ensures multiset(Without(queue, i)) + multiset{queue[i]} == multiset(queue)
  {
    assert queue == queue[..i] + ([queue[i]] + queue[i + 1..]);
  }

  /** One turn takes the item out, imports it exactly if it may, forgets its hash exactly if it refuses it, and
      otherwise puts it back. */
  lemma TurnOutcome(s: State, i: nat, height: Word, known: bool, best: Hash)
    requires i < |s.queue|
    ensures var op, t := s.queue[i], Take(s, i, height, known, best);
            && (Imports(op, height, known, best) || Refuses(op, height, known, best) || op.block.height > Next(height))
            && t.imports == s.imports + (if Imports(op, height, known, best)
                                         then [Import(op.block.hash, op.block.previous, op.block.previous)] else [])
            && t.queued == (if Refuses(op, height, known, best) then s.queued - {op.block.hash} else s.queued)
            && multiset(t.queue) + (if op.block.height <= Next(height) then multiset{op} else multiset{})
               == multiset(s.queue)
  {
    WithoutOne(s.queue, i);
    assert s.imports + [] == s.imports;
  }

  /** The imports of blocks, each made with its parent as the best block. */
  function ImportsOf(ops: seq<Pending>): seq<Import> {
    seq(|ops|, k requires 0 <= k < |ops| =>
      Import(ops[k].block.hash, ops[k].block.previous, ops[k].block.previous))
  }

  lemma ImportsOfBoth(a: seq<Pending>, b: seq<Pending>)
    ensures ImportsOf(a + b) == ImportsOf(a) + ImportsOf(b)
  {
  }

  /** The queue before and what was queued are the queue after, what was imported and what was refused. */
  ghost predicate Balanced(before: seq<Pending>, queued: seq<Pending>, after: seq<Pending>, imported: seq<Pending>,
                           refused: seq<Pending>) {
    multiset(before) + multiset(queued) == multiset(after) + multiset(imported) + multiset(refused)
  }

  lemma BalancedChain(q0: seq<Pending>, a: seq<Pending>, q1: seq<Pending>, b: seq<Pending>, c: seq<Pending>,
                      a': seq<Pending>, q2: seq<Pending>, b': seq<Pending>, c': seq<Pending>)
    requires Balanced(q0, a, q1, b, c) && Balanced(q1, a', q2, b', c')
    ensures Balanced(q0, a + a', q2, b + b', c + c')
  {
    var l, r := multiset(q0) + multiset(a), multiset(q1) + multiset(b) + multiset(c);
    var l', r' := multiset(q1) + multiset(a'), multiset(q2) + multiset(b') + multiset(c');
    forall x: Pending ensures multiset(q0 + (a + a'))[x] == multiset(q2 + ((b + b') + (c + c')))[x] {
      assert l[x] == r[x] && l'[x] == r'[x];
    }
    assert multiset(q0 + (a + a')) == multiset(q2 + ((b + b') + (c + c')));
  }

  function QueuedBy(s: State, e: Event): seq<Pending> {
    if e.Announced? && Admits(s, e.op, e.bestHeight) then [e.op] else []
  }

  function ImportedBy(s: State, e: Event): seq<Pending>
    requires Enabled(s, e)
  {
    if e.Taken? && Imports(s.queue[e.i], e.height, e.known, e.best) then [s.queue[e.i]] else []
  }

  function RefusedBy(s: State, e: Event): seq<Pending>
    requires Enabled(s, e)
  {
    if e.Taken? && Refuses(s.queue[e.i], e.height, e.known, e.best) then [s.queue[e.i]] else []
  }

  lemma StepAccounts(s: State, e: Event)
    requires Enabled(s, e)
    ensures Balanced(s.queue, QueuedBy(s, e), Step(s, e).queue, ImportedBy(s, e), RefusedBy(s, e))
    ensures Step(s, e).imports == s.imports + ImportsOf(ImportedBy(s, e))
  {
    match e
    case Announced(op, best) => AdmittedIff(s, op, best);
    case Taken(i, height, known, best) => TurnOutcome(s, i, height, known, best);
  }

  /** The blocks that the run queues, imports and refuses, in turn. */
  function QueuedIn(s: State, es: seq<Event>): seq<Pending>
    requires ValidRun(s, es)
    decreases |es|
  {
    if es == [] then [] else QueuedBy(s, es[0]) + QueuedIn(Step(s, es[0]), es[1..])
  }

  function ImportedIn(s: State, es: seq<Event>): seq<Pending>
    requires ValidRun(s, es)
    decreases |es|
  {
    if es == [] then [] else ImportedBy(s, es[0]) + ImportedIn(Step(s, es[0]), es[1..])
  }

  function RefusedIn(s: State, es: seq<Event>): seq<Pending>
    requires ValidRun(s, es)
    decreases |es|
  {
    if es == [] then [] else RefusedBy(s, es[0]) + RefusedIn(Step(s, es[0]), es[1..])
  }

  lemma {:induction false} RunBalanced(s: State, es: seq<Event>)
    requires ValidRun(s, es)
    ensures Balanced(s.queue, QueuedIn(s, es), Final(s, es).queue, ImportedIn(s, es), RefusedIn(s, es))
    decreases |es|
  {
    if es != [] {
      var e, t, rest := es[0], Step(s, es[0]), es[1..];
      StepAccounts(s, e);
      RunBalanced(t, rest);
      BalancedChain(s.queue, QueuedBy(s, e), t.queue, ImportedBy(s, e), RefusedBy(s, e),
                    QueuedIn(t, rest), Final(t, rest).queue, ImportedIn(t, rest), RefusedIn(t, rest));
    }
  }

  lemma {:induction false} RunImports(s: State, es: seq<Event>)
    requires ValidRun(s, es)
    ensures Final(s, es).imports == s.imports + ImportsOf(ImportedIn(s, es))
    decreases |es|
  {
    if es == [] {
      assert s.imports + [] == s.imports;
    } else {
      var e, t, rest := es[0], Step(s, es[0]), es[1..];
      StepAccounts(s, e);
      RunImports(t, rest);
      ImportsOfBoth(ImportedBy(s, e), ImportedIn(t, rest));
      Assoc(s.imports, ImportsOf(ImportedBy(s, e)), ImportsOf(ImportedIn(t, rest)));
    }
  }

  /** Over every run nothing is lost and nothing made up: the blocks that were queued are, one for one, those still in
      the queue, those imported, in the order of `imports`, and those taken when due that were known or not on the best
      block. */
  lemma {:induction false} EveryBlockAccounted(es: seq<Event>)
    requires ValidRun(Start, es)
    ensures var s := Final(Start, es);
            && multiset(QueuedIn(Start, es))
               == multiset(s.queue) + multiset(ImportedIn(Start, es)) + multiset(RefusedIn(Start, es))
            && s.imports == ImportsOf(ImportedIn(Start, es))
  {
    RunBalanced(Start, es);
    RunImports(Start, es);
    assert [] + ImportsOf(ImportedIn(Start, es)) == ImportsOf(ImportedIn(Start, es));
  }

  /** Over every run: queued hashes are distinct and in the map; the imports are, in order, those of the blocks whose
      turn allowed it; no hash is imported twice, whether or not its import succeeded; and every import was made with
      the block's parent as the best block reported. */
  lemma {:induction false} ImportedOnceOnBest(es: seq<Event>)
    requires ValidRun(Start, es)
    ensures var s := Final(Start, es);
            && QueueInv(s) && s.imports == ImportsOf(ImportedIn(Start, es))
            && (forall i, j :: 0 <= i < j < |s.imports| ==> s.imports[i].hash != s.imports[j].hash)
            && (forall i :: 0 <= i < |s.imports| ==> s.imports[i].previous == s.imports[i].best)
  {
    RunKeeps(Start, es);
    EveryBlockAccounted(es);
  }

  function QueueHashes(queue: seq<Pending>): set<Hash> {
    set op | op in queue :: op.block.hash
  }

  function ImportHashes(imports: seq<Import>): set<Hash> {
    set m | m in imports :: m.hash
  }

  /** The map holds the hashes that are queued or imported, and no others. */
  ghost predicate MapInv(s: State) {
    s.queued.Keys == QueueHashes(s.queue) + ImportHashes(s.imports)
  }

  lemma MapStep(s: State, e: Event)
    requires Inv(s) && MapInv(s) && Enabled(s, e)
    ensures MapInv(Step(s, e))
  {
    if e.Announced? {
      assert QueueHashes(s.queue + [e.op]) == QueueHashes(s.queue) + {e.op.block.hash};
    } else {
      TakeKeepsMap(s, e.i, e.height, e.known, e.best);
    }
  }

  lemma QueueHashesSame(a: seq<Pending>, b: seq<Pending>)
    requires multiset(a) == multiset(b)
    ensures QueueHashes(a) == QueueHashes(b)
  {
    assert forall op :: op in a <==> op in multiset(a);
    assert forall op :: op in b <==> op in multiset(b);
  }

  lemma RestHashes(s: State, i: nat)
    requires Inv(s) && i < |s.queue|
    ensures var h := s.queue[i].block.hash;
            QueueHashes(Without(s.queue, i)) == QueueHashes(s.queue) - {h} && h !in ImportHashes(s.imports)
  {
    WithoutSound(s, i);
    var rest, h := Without(s.queue, i), s.queue[i].block.hash;
    forall x | x in QueueHashes(s.queue) && x != h ensures x in QueueHashes(rest) {
      var j :| 0 <= j < |s.queue| && s.queue[j].block.hash == x;
      assert s.queue[j] == rest[if j < i then j else j - 1];
      assert s.queue[j] in rest;
    }
  }

  lemma TakeKeepsMap(s: State, i: nat, height: Word, known: bool, best: Hash)
    requires Inv(s) && MapInv(s) && i < |s.queue|
    ensures MapInv(Take(s, i, height, known, best))
  {
    var op, rest := s.queue[i], Without(s.queue, i);
    RestHashes(s, i);
    if op.block.height > Next(height) {
      WithoutOne(s.queue, i);
      QueueHashesSame(rest + [op], s.queue);
    } else if Imports(op, height, known, best) {
      var m := Import(op.block.hash, op.block.previous, best);
      assert ImportHashes(s.imports + [m]) == ImportHashes(s.imports) + {m.hash};
    }
  }

  lemma {:induction false} RunKeepsMap(s: State, es: seq<Event>)
    requires Inv(s) && MapInv(s) && ValidRun(s, es)
    ensures MapInv(Final(s, es))
    decreases |es|
  {
    if es != [] {
      var e := es[0];
      MapStep(s, e);
      if e.Announced? {
        EnqueueKeeps(s, e.op, e.bestHeight);
      } else {
        TakeKeeps(s, e.i, e.height, e.known, e.best);
      }
      RunKeepsMap(Step(s, e), es[1..]);
    }
  }

  /** A block can be queued again exactly if it is neither in the queue nor ever imported: a refused one can, one whose
      import failed cannot. */
  lemma {:induction false} MapExact(es: seq<Event>)
    requires ValidRun(Start, es)
    ensures var s := Final(Start, es); s.queued.Keys == QueueHashes(s.queue) + ImportHashes(s.imports)
  {
    RunKeepsMap(Start, es);
  }

  // ---------------------------------------------------------------- what is left when the loop stops

  ghost predicate AllAbove(queue: seq<Pending>, height: Word) {
    forall i :: 0 <= i < |queue| ==> queue[i].block.height > Next(height)
  }

  /** Single precision tells the next height from the one after it (there is none after the last). */
  predicate Separates(height: Word) {
    Next(height) == MAX_HEIGHT || ToFloat32(Next(height)) < ToFloat32(Next(height) + 1)
  }

  lemma FirstTooHigh(queue: seq<Pending>, i: nat, height: Word)
    requires Separates(height) && First(queue, i) && queue[i].block.height > Next(height)
    ensures AllAbove(queue, height)
  {
    forall j | 0 <= j < |queue| ensures queue[j].block.height > Next(height) {
      var n := Next(height);
      assert Priority(queue[i]) <= Priority(queue[j]);
      Float32Monotone(n + 1, queue[i].block.height);
      if queue[j].block.height <= n {
        Float32Monotone(queue[j].block.height, n);
      }
    }
  }

  /** The two blocks above the best height, the higher one announced first. */
  function TwoAnnounced(height: Word): seq<Event>
    requires height + 2 <= MAX_HEIGHT
  {
    [Announced(Pending("", Block(ZeroHash, ZeroHash, height + 2)), height),
     Announced(Pending("", Block(Hash(1, 0, 0, 0), ZeroHash, height + 1)), height)]
  }

  lemma TwoQueued(height: Word)
    requires height + 2 <= MAX_HEIGHT
    ensures var es := TwoAnnounced(height);
            && ValidRun(Start, es)
            && |Final(Start, es).queue| == 2
            && Final(Start, es).queue[0].block.height == height + 2
            && Final(Start, es).queue[1].block.height == height + 1
  {
    var es := TwoAnnounced(height);
    assert es[1..] == [es[1]] && es[1..][1..] == [];
    assert Signed64(2) == 2 && Signed64(1) == 1;
    var s := Step(Start, es[0]);
    assert s.queue == [es[0].op];
    var t := Step(s, es[1]);
    assert t.queue == [es[0].op, es[1].op];
    assert Final(s, es[1..]) == Final(t, []) == t;
    assert Final(Start, es) == Final(s, es[1..]);
  }

  /** After the run, the queue may give out item i first, and the loop stops at it. */
  predicate StopsAt(es: seq<Event>, i: nat, height: Word) {
    && ValidRun(Start, es)
    && First(Final(Start, es).queue, i)
    && Final(Start, es).queue[i].block.height > Next(height)
  }

  /** The last heights are separated: after the wrap-around the next one is zero. */
  lemma SeparatesLast(height: Word)
    ensures height + 2 <= MAX_HEIGHT || Separates(height)
  {
    if height == MAX_HEIGHT {
      Float32Exact(0);
      Float32Exact(1);
    }
  }

  lemma FirstOfTwo(queue: seq<Pending>, height: Word)
    requires |queue| == 2 && height + 2 <= MAX_HEIGHT && ToFloat32(height + 2) <= ToFloat32(height + 1)
    requires queue[0].block.height == height + 2 && queue[1].block.height == height + 1
    ensures First(queue, 0) && queue[0].block.height > Next(height) && !AllAbove(queue, height)
  {
    assert queue[1].block.height == Next(height);
  }

  /** Where single precision does not separate them, announcing the two blocks above the best height is enough for the
      loop, at that same height, to stop over a block that is due. */
  lemma StopsEarly(height: Word)
    requires !Separates(height)
    ensures height + 2 <= MAX_HEIGHT
    ensures var es := TwoAnnounced(height); StopsAt(es, 0, height) && !AllAbove(Final(Start, es).queue, height)
  {
    SeparatesLast(height);
    Float32Monotone(height + 1, height + 2);
    TwoQueued(height);
    var queue := Final(Start, TwoAnnounced(height)).queue;
    FirstOfTwo(queue, height);
  }

  /** The loop stops at the first item that is too high. In every run, and whichever item the queue may give out
      first, that leaves only such items: exactly when single precision separates the two heights. */
  lemma StopsRightIff(height: Word)
    ensures Separates(height) <==>
            forall es: seq<Event>, i: nat :: StopsAt(es, i, height) ==> AllAbove(Final(Start, es).queue, height)
  {
    if Separates(height) {
      forall es: seq<Event>, i: nat | StopsAt(es, i, height) ensures AllAbove(Final(Start, es).queue, height) {
        FirstTooHigh(Final(Start, es).queue, i, height);
      }
    } else {
      StopsEarly(height);
    }
  }

  /** All heights below 2^24 - 1 are separated; the next one is not, so there the loop can stop too early. */
  lemma SeparatesSmallHeights(height: Word)
    ensures height < 0xff_ffff ==> Separates(height)
    ensures height == 0xff_ffff ==> !Separates(height)
  {
    if height < 0xff_ffff {
      Float32Exact(height + 1);
      Float32Exact(height + 2);
    } else if height == 0xff_ffff {
      FirstInexact();
    }
  }

  // ---------------------------------------------------------------- the fetcher itself

  lemma {:induction false} FirstExists(queue: seq<Pending>) returns (i: nat)
    requires queue != []
    ensures First(queue, i)
  {
    if |queue| == 1 {
      i := 0;
    } else {
      var n := |queue| - 1;
      var k := FirstExists(queue[..n]);
      assert forall j :: 0 <= j < n ==> queue[..n][j] == queue[j];
      i := if Priority(queue[k]) <= Priority(queue[n]) then k else n;
      assert forall j :: 0 <= j < n ==> Priority(queue[k]) <= Priority(queue[j]);
    }
  }

  /** The events are turns at one height, with the given answers in turn. */
  predicate AnsweredBy(es: seq<Event>, height: Word, observe: nat -> (bool, Hash)) {
    forall k :: 0 <= k < |es| ==> es[k].Taken? && es[k] == Taken(es[k].i, height, observe(k).0, observe(k).1)
  }

  /** The turns so far have led from s to `now`. */
  ghost predicate Underway(s: State, es: seq<Event>, now: State, height: Word, observe: nat -> (bool, Hash)) {
    ValidRun(s, es) && now == Final(s, es) && Inv(now) && AnsweredBy(es, height, observe)
  }

  lemma UnderwayStep(s: State, es: seq<Event>, now: State, height: Word, observe: nat -> (bool, Hash), i: nat)
    requires Underway(s, es, now, height, observe) && First(now.queue, i)
    ensures var (known, best) := observe(|es|);
            Underway(s, es + [Taken(i, height, known, best)], Take(now, i, height, known, best), height, observe)
  {
    var (known, best) := observe(|es|);
    RunSnoc(s, es, Taken(i, height, known, best));
    TakeKeeps(now, i, height, known, best);
  }

  /** Putting back a block that is too high leaves only blocks that were there. */
  lemma SameItems(s: State, i: nat, height: Word, known: bool, best: Hash)
    requires i < |s.queue| && s.queue[i].block.height > Next(height) && AllAbove(s.queue, height)
    ensures AllAbove(Take(s, i, height, known, best).queue, height)
  {
  }

  class FetcherLoop {
    var queue: seq<Pending>
    var queued: map<Hash, Pending>
    ghost var imports: seq<Import>

    ghost function View(): State
      reads this
    {
      State(queue, queued, imports)
    }

    constructor ()
      ensures View() == Start
    {
      queue, queued, imports := [], map[], [];
    }

    method EnqueueBlock(op: Pending, best: Word)
      modifies this
      ensures View() == Enqueue(old(View()), op, best)
      ensures if Admits(old(View()), op, best)
              then queue == old(queue) + [op] && queued == old(queued)[op.block.hash := op] else View() == old(View())
    {
      var dist := Signed64(op.block.height - best);
      if dist < 0 || dist > MAX_QUEUE_DIST {
        return;
      }
      if op.block.hash !in queued {
        queued := queued[op.block.hash := op];
        queue := queue + [op];
      }
    }

    /** PopItem: any item that may come first. */
    method PopItem() returns (op: Pending, ghost i: nat)
      requires queue != []
      modifies this`queue
      ensures First(old(queue), i) && op == old(queue)[i] && queue == Without(old(queue), i)
    {
      ghost var k := FirstExists(queue);
      var least :| 0 <= least < |queue| && First(queue, least);
      op, i := queue[least], least;
      queue := queue[..least] + queue[least + 1..];
    }

    /** One turn of the loop over the queue; it ends the loop at a block that is too high. */
    method TakeTurn(height: Word, known: bool, best: Hash) returns (stop: bool, ghost i: nat)
      requires queue != []
      modifies this
      ensures First(old(queue), i) && View() == Take(old(View()), i, height, known, best)
      ensures stop <==> old(queue)[i].block.height > Next(height)
      ensures |queue| == |old(queue)| - if stop then 0 else 1
    {
      var op;
      op, i := PopItem();
      if op.block.height > Next(height) {
        queue := queue + [op];
        return true, i;
      }
      if known || op.block.previous != best {
        queued := queued - {op.block.hash};
      } else {
        imports := imports + [Import(op.block.hash, op.block.previous, best)];
      }
      return false, i;
    }

    /** The loop over the queue after one sampling of the height; `observe` gives the chain's answers in turn. The
        turns are a run with those answers, which imports what they allow; when it ends the queue is empty or, where
        single precision separates the heights, holds only blocks above the next height. */
    method ImportQueued(height: Word, observe: nat -> (bool, Hash)) returns (ghost es: seq<Event>)
      requires Inv(View())
      modifies this
      ensures ValidRun(old(View()), es) && View() == Final(old(View()), es) && Inv(View())
      ensures AnsweredBy(es, height, observe)
      ensures imports == old(imports) + ImportsOf(ImportedIn(old(View()), es))
      ensures Separates(height) ==> AllAbove(queue, height)
    {
      es := [];
      var turn := 0;
      while queue != []
        invariant Underway(old(View()), es, View(), height, observe) && turn == |es|
        decreases |queue|
      {
        ghost var s := View();
        var (known, best) := observe(turn);
        turn := turn + 1;
        var stop;
        ghost var i;
        stop, i := TakeTurn(height, known, best);
        UnderwayStep(old(View()), es, s, height, observe, i);
        es := es + [Taken(i, height, known, best)];
        if stop {
          if Separates(height) {
            FirstTooHigh(s.queue, i, height);
            SameItems(s, i, height, known, best);
          }
          break;
        }
      }
      RunImports(old(View()), es);
    }
  }
}
