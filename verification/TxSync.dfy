/**
 The transaction-sync loop of netsync/sync.go: one pack of transactions in flight at a time, packs of bounded
 size, and every peer's list sent once and in order.
 */
module TxSync {
  import opened Bytes

  const PACK_SIZE: nat := 100 * 1024

  type Key = string

  datatype Tx = Tx(id: nat, serializedSize: nat)

  /** The loop's variables at a wait point. `inFlight` counts sends started whose results have not been taken. */
  datatype Loop = Loop(pending: map<Key, seq<Tx>>, sending: bool, packPeer: Key, pack: seq<Tx>, inFlight: nat)

  /** A list for a peer, or the result of a send. `choice` is the pending sync picked at random afterwards. */
  datatype Event = Arrive(key: Key, txs: seq<Tx>) | Done(failed: bool, choice: Key)

  const Start := Loop(map[], false, "", [], 0)

  // ---------------------------------------------------------------- steps

  /** How many transactions of the list go into a pack that already holds `size` bytes. */
  function Fill(txs: seq<Tx>, size: nat): (n: nat)
    ensures n <= |txs|
  {
    if txs == [] || size >= PACK_SIZE then 0 else 1 + Fill(txs[1..], size + txs[0].serializedSize)
  }

  /** The send closure, for the pending sync of k. */
  function Send(s: Loop, k: Key): Loop
    requires k in s.pending
  {
    var txs := s.pending[k];
    var n := Fill(txs, 0);
    var pending := if n == |txs| then s.pending - {k} else s.pending[k := txs[n..]];
    Loop(pending, true, k, txs[..n], s.inFlight + 1)
  }

  function AfterDone(s: Loop, failed: bool): Loop
    requires s.inFlight > 0
  {
    s.(sending := false, inFlight := s.inFlight - 1, pending := if failed then s.pending - {s.packPeer} else s.pending)
  }

  predicate Enabled(s: Loop, e: Event) {
    match e
    case Arrive(_, _) => true
    case Done(failed, choice) =>
      s.inFlight > 0 && (AfterDone(s, failed).pending != map[] ==> choice in AfterDone(s, failed).pending)
  }

  function Step(s: Loop, e: Event): Loop
    requires Enabled(s, e)
  {
    match e
    case Arrive(k, txs) =>
      var s' := s.(pending := s.pending[k := txs]);
      if s.sending then s' else Send(s', k)
    case Done(failed, choice) =>
      var s' := AfterDone(s, failed);
      if s'.pending == map[] then s' else Send(s', choice)
  }

  predicate ValidRun(s: Loop, es: seq<Event>)
    decreases |es|
  {
    es != [] ==> Enabled(s, es[0]) && ValidRun(Step(s, es[0]), es[1..])
  }

  function Final(s: Loop, es: seq<Event>): Loop
    requires ValidRun(s, es)
    decreases |es|
  {
    if es == [] then s else Final(Step(s, es[0]), es[1..])
  }

  lemma {:induction false} RunSnoc(s: Loop, es: seq<Event>, e: Event)
    requires ValidRun(s, es) && Enabled(Final(s, es), e)
    ensures ValidRun(s, es + [e]) && Final(s, es + [e]) == Step(Final(s, es), e)
    decreases |es|
  {
    if es == [] {
      assert [e][1..] == [];
    } else {
      RunSnoc(Step(s, es[0]), es[1..], e);
      assert (es + [e])[1..] == es[1..] + [e];
    }
  }

  // ---------------------------------------------------------------- one send in flight

  /** At a wait point: work implies an active send, and `sending` tells exactly whether one is in flight. */
  ghost predicate WaitInv(s: Loop) {
    && (s.pending != map[] ==> s.sending)
    && s.inFlight == (if s.sending then 1 else 0)
  }

  lemma StepKeepsWaitInv(s: Loop, e: Event)
    requires WaitInv(s) && Enabled(s, e)
    ensures WaitInv(Step(s, e))
    ensures e.Arrive? && s.sending ==> Step(s, e).pack == s.pack && Step(s, e).packPeer == s.packPeer
  {
  }

  /** In every reachable state work implies an active send and at most one is in flight. */
  lemma {:induction false} AlwaysSending(s: Loop, es: seq<Event>)
    requires WaitInv(s) && ValidRun(s, es)
    ensures WaitInv(Final(s, es))
    decreases |es|
  {
    if es != [] {
      StepKeepsWaitInv(s, es[0]);
      AlwaysSending(Step(s, es[0]), es[1..]);
    }
  }

  /** At every wait point of every run, a pending list means a send is active, and at most one is in flight. */
  lemma {:induction false} ReachableWaits(es: seq<Event>)
    requires ValidRun(Start, es)
    ensures var s := Final(Start, es); (s.pending != map[] ==> s.sending) && s.inFlight <= 1
  {
    AlwaysSending(Start, es);
  }

  // ---------------------------------------------------------------- pack size

  function ByteSize(txs: seq<Tx>): nat {
    if txs == [] then 0 else txs[0].serializedSize + ByteSize(txs[1..])
  }

  lemma {:induction false} FillBounds(txs: seq<Tx>, size: nat)
    ensures var n := Fill(txs, size);
            && (size < PACK_SIZE && txs != [] ==> n > 0)
            && (n > 0 ==> size + ByteSize(txs[..n - 1]) < PACK_SIZE)
            && (n < |txs| ==> size + ByteSize(txs[..n]) >= PACK_SIZE)
  {
    var n := Fill(txs, size);
    if txs != [] && size < PACK_SIZE {
      FillBounds(txs[1..], size + txs[0].serializedSize);
      assert txs[..n][1..] == txs[1..][..n - 1];
      if n > 1 {
        assert txs[..n - 1][1..] == txs[1..][..n - 2];
      }
    }
  }

  /** A pack is a non-empty prefix of a non-empty list; without its last transaction it is below the target
      size; and it stops short of the end only once it has reached the target. */
  lemma PackBounds(s: Loop, k: Key)
    requires k in s.pending
    ensures var txs, pack := s.pending[k], Send(s, k).pack;
            && pack <= txs
            && (txs != [] ==> pack != [])
            && (pack != [] ==> ByteSize(pack[..|pack| - 1]) < PACK_SIZE)
            && (pack != txs ==> ByteSize(pack) >= PACK_SIZE)
  {
    var txs := s.pending[k];
    var n := Fill(txs, 0);
    FillBounds(txs, 0);
    if n > 0 {
      assert txs[..n][..n - 1] == txs[..n - 1];
    }
  }

  // ---------------------------------------------------------------- everything sent once, in order

  function Rest(s: Loop, k: Key): seq<Tx> {
    if k in s.pending then s.pending[k] else []
  }

  /** What the step starts to send to k. */
  function SentIn(s: Loop, e: Event, k: Key): seq<Tx>
    requires Enabled(s, e)
  {
    if Step(s, e).inFlight > (if e.Done? then s.inFlight - 1 else s.inFlight) && Step(s, e).packPeer == k
    then Step(s, e).pack else []
  }

  function SentTo(s: Loop, es: seq<Event>, k: Key): seq<Tx>
    requires ValidRun(s, es)
    decreases |es|
  {
    if es == [] then [] else SentIn(s, es[0], k) + SentTo(Step(s, es[0]), es[1..], k)
  }

  /** The run neither replaces k's list nor reports a failed send to k. */
  predicate Undisturbed(s: Loop, es: seq<Event>, k: Key)
    requires ValidRun(s, es)
    decreases |es|
  {
    es == [] || (!Disturbs(s, es[0], k) && Undisturbed(Step(s, es[0]), es[1..], k))
  }

  predicate Disturbs(s: Loop, e: Event, k: Key) {
    match e
    case Arrive(key, _) => key == k
    case Done(failed, _) => failed && s.packPeer == k
  }

  lemma SendConserves(s: Loop, j: Key, k: Key)
    requires j in s.pending
    ensures (if j == k then Send(s, j).pack else []) + Rest(Send(s, j), k) == Rest(s, k)
  {
    if j == k {
      var txs := s.pending[j];
      var n := Fill(txs, 0);
      assert txs[..n] + txs[n..] == txs;
    }
  }

  lemma StepConserves(s: Loop, e: Event, k: Key)
    requires Enabled(s, e) && !Disturbs(s, e, k)
    ensures SentIn(s, e, k) + Rest(Step(s, e), k) == Rest(s, k)
  {
    match e
    case Arrive(j, txs) =>
      var s' := s.(pending := s.pending[j := txs]);
      if !s.sending {
        SendConserves(s', j, k);
      }
    case Done(failed, choice) =>
      var s' := AfterDone(s, failed);
      if s'.pending != map[] {
        SendConserves(s', choice, k);
      }
  }

  lemma {:induction false} RunConserves(s: Loop, es: seq<Event>, k: Key)
    requires ValidRun(s, es) && Undisturbed(s, es, k)
    ensures SentTo(s, es, k) + Rest(Final(s, es), k) == Rest(s, k)
    decreases |es|
  {
    if es != [] {
      var s' := Step(s, es[0]);
      StepConserves(s, es[0], k);
      RunConserves(s', es[1..], k);
      Assoc(SentIn(s, es[0], k), SentTo(s', es[1..], k), Rest(Final(s', es[1..]), k));
    }
  }

  /** From the arrival of k's list on, as long as it is not replaced and no send to k fails, the packs sent to k
      followed by what is still pending for k are that list: nothing twice, nothing lost, nothing out of order.
      Once nothing is pending for k, the packs are the list. */
  lemma {:induction false} ListSentOnceInOrder(s: Loop, k: Key, txs: seq<Tx>, es: seq<Event>)
    requires WaitInv(s)
    requires ValidRun(Step(s, Arrive(k, txs)), es) && Undisturbed(Step(s, Arrive(k, txs)), es, k)
    ensures var s' := Step(s, Arrive(k, txs));
            var sent := SentIn(s, Arrive(k, txs), k) + SentTo(s', es, k);
            && sent + Rest(Final(s', es), k) == txs
            && (k !in Final(s', es).pending ==> sent == txs)
  {
    var e := Arrive(k, txs);
    var s' := Step(s, e);
    assert SentIn(s, e, k) + Rest(s', k) == txs by {
      var t := s.(pending := s.pending[k := txs]);
      if !s.sending {
        SendConserves(t, k, k);
      }
    }
    RunConserves(s', es, k);
    Assoc(SentIn(s, e, k), SentTo(s', es, k), Rest(Final(s', es), k));
  }

  // ---------------------------------------------------------------- a failed send

  /** A list that is neither that of the peer of the pack in flight nor the one picked next. */
  predicate Untouched(k: Key, s: Loop, choice: Key, t: Loop) {
    k != s.packPeer && k != choice ==> (k in s.pending <==> k in t.pending) && Rest(s, k) == Rest(t, k)
  }

  /** A failed send drops its peer, starts nothing for it, and leaves all other lists but the one picked next alone; of
      that one, the pack and what is left make up the list. */
  lemma FailureDropsPeer(s: Loop, choice: Key)
    requires Enabled(s, Done(true, choice))
    ensures var e := Done(true, choice);
            var t := Step(s, e);
            && s.packPeer !in t.pending && SentIn(s, e, s.packPeer) == []
            && (forall k :: Untouched(k, s, choice, t))
            && (choice != s.packPeer ==> SentIn(s, e, choice) + Rest(t, choice) == Rest(s, choice))
  {
    if choice != s.packPeer {
      StepConserves(s, Done(true, choice), choice);
    }
  }

  predicate NoArrivalOf(k: Key, es: seq<Event>) {
    forall i :: 0 <= i < |es| && es[i].Arrive? ==> es[i].key != k
  }

  lemma {:induction false} NothingWithoutArrival(s: Loop, es: seq<Event>, k: Key)
    requires ValidRun(s, es) && k !in s.pending && NoArrivalOf(k, es)
    ensures SentTo(s, es, k) == [] && k !in Final(s, es).pending
    decreases |es|
  {
    if es != [] {
      assert es[0].Arrive? ==> es[0].key != k;
      NothingWithoutArrival(Step(s, es[0]), es[1..], k);
    }
  }

  /** After a failed send, until a new list arrives for that peer, nothing more is sent to it and it is not pending. */
  lemma {:induction false} NothingAfterFailure(s: Loop, choice: Key, es: seq<Event>)
    requires Enabled(s, Done(true, choice)) && ValidRun(Step(s, Done(true, choice)), es) && NoArrivalOf(s.packPeer, es)
    ensures var t := Step(s, Done(true, choice));
            SentTo(t, es, s.packPeer) == [] && s.packPeer !in Final(t, es).pending
  {
    FailureDropsPeer(s, choice);
    NothingWithoutArrival(Step(s, Done(true, choice)), es, s.packPeer);
  }

  // ---------------------------------------------------------------- draining

  /** Transactions still to be sent, and one more for every list. */
  ghost function Work(m: map<Key, seq<Tx>>): nat
    decreases |m|
  {
    if m == map[] then 0
    else
      var k :| k in m;
      |m[k]| + 1 + Work(m - {k})
  }

  lemma {:induction false} WorkWithout(m: map<Key, seq<Tx>>, k: Key)
    requires k in m
    ensures Work(m) == |m[k]| + 1 + Work(m - {k})
    decreases |m|
  {
    var j :| j in m && Work(m) == |m[j]| + 1 + Work(m - {j});
    if j != k {
      WorkWithout(m - {j}, k);
      WorkWithout(m - {k}, j);
      assert m - {j} - {k} == m - {k} - {j};
    }
  }

  /** Every send leaves strictly less to do. */
  lemma SendShrinks(s: Loop, k: Key)
    requires k in s.pending
    ensures Work(Send(s, k).pending) < Work(s.pending)
  {
    var txs := s.pending[k];
    var n := Fill(txs, 0);
    FillBounds(txs, 0);
    WorkWithout(s.pending, k);
    if n < |txs| {
      var m := s.pending[k := txs[n..]];
      WorkWithout(m, k);
      assert m - {k} == s.pending - {k};
    }
  }

  lemma {:induction false} DropShrinks(m: map<Key, seq<Tx>>, k: Key)
    ensures Work(m - {k}) <= Work(m)
  {
    if k in m {
      WorkWithout(m, k);
    } else {
      assert m - {k} == m;
    }
  }

  predicate NoArrivals(es: seq<Event>) {
    forall i :: 0 <= i < |es| ==> es[i].Done?
  }

  /** Once arrivals stop, at most Work + 1 further results are taken, and when no send is left in flight nothing
      is pending: the loop drains. */
  lemma {:induction false} Drains(s: Loop, es: seq<Event>)
    requires WaitInv(s) && ValidRun(s, es) && NoArrivals(es)
    ensures |es| <= Work(s.pending) + s.inFlight
    ensures Final(s, es).inFlight == 0 ==> Final(s, es).pending == map[]
    decreases |es|
  {
    AlwaysSending(s, es);
    if es != [] {
      var s' := Step(s, es[0]);
      var mid := AfterDone(s, es[0].failed);
      DropShrinks(s.pending, s.packPeer);
      StepKeepsWaitInv(s, es[0]);
      if mid.pending != map[] {
        SendShrinks(mid, es[0].choice);
      }
      Drains(s', es[1..]);
    }
  }

  // ---------------------------------------------------------------- the loop itself

  /** A txsync: the slice txs[..len] of transactions still to be sent to its peer. */
  class SyncList {
    const txs: array<Tx>
    var len: nat

    constructor (list: seq<Tx>)
      ensures fresh(txs) && len == |list| == txs.Length && txs[..] == list
    {
      txs := new Tx[|list|](i requires 0 <= i < |list| => list[i]);
      len := |list|;
    }

    ghost predicate Valid()
      reads this
    {
      len <= txs.Length
    }

    ghost function Contents(): seq<Tx>
      requires Valid()
      reads this, txs
    {
      txs[..len]
    }

    /** Remove the first n in place: the rest is copied down over itself, front to back. */
    method DropFirst(n: nat)
      requires Valid() && n <= len
      modifies this`len, txs
      ensures Valid() && len == old(len) - n && Contents() == old(Contents())[n..]
    {
      ghost var all := Contents();
      var left := len - n;
      for i := 0 to left
        invariant len == old(len)
        invariant forall j :: 0 <= j < i ==> txs[j] == all[n + j]
        invariant forall j :: i <= j < len ==> txs[j] == all[j]
      {
        txs[i] := txs[n + i];
      }
      len := left;
      assert forall j :: 0 <= j < left ==> txs[..left][j] == all[n..][j];
    }
  }

  class TxSyncLoop {
    var pending: map<Key, SyncList>
    var sending: bool
    var packPeer: Key
    var pack: seq<Tx>
    ghost var inFlight: nat

    /** What the pending syncs hold, and the objects they are or were made of, each the property of one peer. */
    ghost var lists: map<Key, seq<Tx>>
    ghost var owner: map<object, Key>

    ghost predicate Owns(k: Key, o: object)
      reads `owner
    {
      o in owner && owner[o] == k
    }

    ghost predicate Holds(k: Key)
      reads `pending, `lists, `owner, owner.Keys
    {
      && k in pending && k in lists && Owns(k, pending[k]) && Owns(k, pending[k].txs)
      && pending[k].Valid() && pending[k].Contents() == lists[k]
    }

    ghost predicate Valid()
      reads `pending, `lists, `owner, owner.Keys
    {
      this !in owner && lists.Keys == pending.Keys && forall k :: k in pending ==> Holds(k)
    }

    ghost function View(): Loop
      reads this
    {
      Loop(lists, sending, packPeer, pack, inFlight)
    }

    constructor ()
      ensures Valid() && View() == Start && owner == map[]
    {
      pending, sending, packPeer, pack, inFlight, lists, owner := map[], false, "", [], 0, map[], map[];
    }

    /** The filling loop of the send closure. */
    method FillPack(k: Key)
      requires Holds(k)
      modifies this`pack, this`packPeer
      ensures packPeer == k && pack == lists[k][..Fill(lists[k], 0)]
    {
      var list := pending[k];
      ghost var txs := list.Contents();
      var size := 0;
      packPeer, pack := k, [];
      assert txs[0..] == txs;
      var i := 0;
      while i < list.len && size < PACK_SIZE
        invariant 0 <= i <= list.len && 0 <= size
        invariant pack == txs[..i] && packPeer == k
        invariant i + Fill(txs[i..], size) == Fill(txs, 0)
      {
        assert list.txs[i] == txs[i] == txs[i..][0] && txs[i..][1..] == txs[i + 1..];
        pack := pack + [list.txs[i]];
        size := size + list.txs[i].serializedSize;
        i := i + 1;
      }
    }

    /** Takes the first n transactions off k's list. */
    method Shorten(k: Key, n: nat)
      requires Valid() && k in pending && n <= |lists[k]|
      modifies this`lists, owner.Keys
      ensures Valid() && lists == old(lists)[k := old(lists)[k][n..]]
      ensures n == |old(lists)[k]| <==> pending[k].len == 0
    {
      assert Holds(k);
      var list := pending[k];
      list.DropFirst(n);
      lists := lists[k := lists[k][n..]];
      forall j | j in pending ensures Holds(j) {
        assert j != k ==> old(Holds(j)) && pending[j] != list && pending[j].txs != list.txs;
      }
    }

    /** delete(pending, k), with or without an entry. */
    method Forget(k: Key)
      requires Valid()
      modifies this`pending, this`lists
      ensures Valid() && lists == old(lists) - {k}
    {
      pending, lists := pending - {k}, lists - {k};
      forall j | j in pending ensures Holds(j) {
        assert old(Holds(j));
      }
    }

    /** Takes the pack off k's list, and k off the map when nothing is left. */
    method TakePack(k: Key)
      requires Valid() && k in pending && |pack| <= |lists[k]|
      modifies this`pending, this`lists, owner.Keys
      ensures Valid()
      ensures lists == if |pack| == |old(lists)[k]| then old(lists) - {k} else old(lists)[k := old(lists)[k][|pack|..]]
    {
      ghost var before := lists;
      Shorten(k, |pack|);
      if pending[k].len == 0 {
        Forget(k);
        assert lists == before - {k};
      }
    }

    /** The send closure. */
    method SendPack(k: Key)
      requires Valid() && k in pending
      modifies this`pending, this`lists, this`sending, this`packPeer, this`pack, this`inFlight, owner.Keys
      ensures Valid() && View() == Send(old(View()), k)
    {
      assert Holds(k);
      FillPack(k);
      TakePack(k);
      sending := true;
      inFlight := inFlight + 1;
    }

    /** The pick closure: the n-th pending sync in the map's order, which is arbitrary; never none while there is
        one. */
    method Pick(random: nat) returns (k: Option<Key>)
      ensures pending == map[] ==> k == None
      ensures pending != map[] ==> k.Some? && k.value in pending
    {
      if |pending| == 0 {
        return None;
      }
      var n := random % |pending| + 1;
      var keys := pending.Keys;
      while keys != {}
        invariant keys <= pending.Keys
        invariant 1 <= n <= |keys|
        decreases |keys|
      {
        var next :| next in keys;
        keys := keys - {next};
        n := n - 1;
        if n == 0 {
          return Some(next);
        }
      }
      assert false;
      return None;
    }

    /** The sync takes its peer's place in the map. */
    method Register(k: Key, list: SyncList)
      requires Valid() && list.Valid() && list !in owner && list.txs !in owner
      modifies this`pending, this`lists, this`owner
      ensures Valid() && k in pending && lists == old(lists)[k := list.Contents()]
      ensures owner.Keys == old(owner.Keys) + {list, list.txs}
    {
      pending, lists := pending[k := list], lists[k := list.Contents()];
      owner := owner[list := k][list.txs := k];
      forall j | j in pending ensures Holds(j) {
        assert j != k ==> old(Holds(j));
      }
    }

    /** A new sync arrives on the channel. */
    method OnArrive(k: Key, list: SyncList)
      requires Valid() && WaitInv(View()) && list.Valid() && list !in owner && list.txs !in owner
      modifies this, owner.Keys, list, list.txs
      ensures Valid() && View() == Step(old(View()), Arrive(k, old(list.Contents()))) && WaitInv(View())
      ensures owner.Keys == old(owner.Keys) + {list, list.txs}
    {
      StepKeepsWaitInv(View(), Arrive(k, list.Contents()));
      Register(k, list);
      if !sending {
        SendPack(k);
      }
    }

    /** Schedules the next send, if there is one to schedule. */
    method SendNext(random: nat) returns (choice: Key)
      requires Valid()
      modifies this`pending, this`lists, this`sending, this`packPeer, this`pack, this`inFlight, owner.Keys
      ensures Valid() && (old(lists) != map[] ==> choice in old(lists))
      ensures View() == if old(lists) == map[] then old(View()) else Send(old(View()), choice)
    {
      var next := Pick(random);
      if next.Some? {
        assert next.value in lists;
        choice := next.value;
        SendPack(choice);
      } else {
        assert lists.Keys == {};
        choice := "";
      }
    }

    method OnDone(failed: bool, random: nat) returns (choice: Key)
      requires Valid() && WaitInv(View()) && inFlight > 0
      modifies this`pending, this`lists, this`sending, this`packPeer, this`pack, this`inFlight, owner.Keys
      ensures Valid() && Enabled(old(View()), Done(failed, choice))
      ensures View() == Step(old(View()), Done(failed, choice)) && WaitInv(View())
      ensures failed ==> old(packPeer) !in pending && forall k :: Untouched(k, old(View()), choice, View())
    {
      ghost var s := View();
      Finish(failed);
      assert lists == AfterDone(s, failed).pending;
      choice := SendNext(random);
      StepKeepsWaitInv(s, Done(failed, choice));
      if failed {
        FailureDropsPeer(s, choice);
      }
    }

    /** A result is taken; a peer whose send failed is no longer tracked. */
    method Finish(failed: bool)
      requires Valid() && inFlight > 0
      modifies this`pending, this`lists, this`sending, this`inFlight
      ensures Valid() && View() == AfterDone(old(View()), failed)
      ensures !sending && lists == if failed then old(lists) - {packPeer} else old(lists)
    {
      sending := false;
      inFlight := inFlight - 1;
      if failed {
        Forget(packPeer);
      }
    }
  }

  /** What the loop's channels bring: a peer's transactions, or the result of the send in flight. */
  datatype Input = NewPeer(key: Key, txs: seq<Tx>) | Result(failed: bool, random: nat)

  predicate EventOf(input: Input, e: Event) {
    match input
    case NewPeer(key, txs) => e == Arrive(key, txs)
    case Result(failed, _) => e.Done? && e.failed == failed
  }

  /** The events are the inputs' in turn, except that there is no result to take while no send is in flight. */
  predicate Answers(s: Loop, inputs: seq<Input>, es: seq<Event>)
    requires ValidRun(s, es)
    decreases |inputs|
  {
    if inputs == [] then es == []
    else if inputs[0].Result? && !s.sending then Answers(s, inputs[1..], es)
    else es != [] && EventOf(inputs[0], es[0]) && Answers(Step(s, es[0]), inputs[1..], es[1..])
  }

  lemma {:induction false} AnswersSnoc(s: Loop, inputs: seq<Input>, es: seq<Event>, input: Input, e: Event)
    requires ValidRun(s, es) && Answers(s, inputs, es) && Enabled(Final(s, es), e) && EventOf(input, e)
    requires input.Result? ==> Final(s, es).sending
    ensures ValidRun(s, es + [e]) && Answers(s, inputs + [input], es + [e])
    ensures Final(s, es + [e]) == Step(Final(s, es), e)
    decreases |inputs|
  {
    RunSnoc(s, es, e);
    if inputs == [] {
      assert inputs + [input] == [input] && [input][1..] == [] && es + [e] == [e] && [e][1..] == [];
    } else {
      assert (inputs + [input])[1..] == inputs[1..] + [input];
      if inputs[0].Result? && !s.sending {
        AnswersSnoc(s, inputs[1..], es, input, e);
      } else {
        AnswersSnoc(Step(s, es[0]), inputs[1..], es[1..], input, e);
        assert (es + [e])[1..] == es[1..] + [e];
      }
    }
  }

  lemma {:induction false} AnswersSkip(s: Loop, inputs: seq<Input>, es: seq<Event>, input: Input)
    requires ValidRun(s, es) && Answers(s, inputs, es) && input.Result? && !Final(s, es).sending
    ensures Answers(s, inputs + [input], es)
    decreases |inputs|
  {
    if inputs == [] {
      assert inputs + [input] == [input] && [input][1..] == [];
    } else {
      assert (inputs + [input])[1..] == inputs[1..] + [input];
      if inputs[0].Result? && !s.sending {
        AnswersSkip(s, inputs[1..], es, input);
      } else {
        AnswersSkip(Step(s, es[0]), inputs[1..], es[1..], input);
      }
    }
  }

  /** One input; no event if it is a result and no send is in flight. */
  method TakeInput(loop: TxSyncLoop, input: Input) returns (ghost e: Option<Event>)
    requires loop.Valid() && WaitInv(loop.View())
    modifies loop, loop.owner.Keys
    ensures loop.Valid() && WaitInv(loop.View()) && fresh(loop.owner.Keys - old(loop.owner.Keys))
    ensures e.None? <==> input.Result? && !old(loop.View()).sending
    ensures e.None? ==> loop.View() == old(loop.View())
    ensures e.Some? ==>
              && EventOf(input, e.value) && Enabled(old(loop.View()), e.value)
              && loop.View() == Step(old(loop.View()), e.value)
  {
    e := None;
    match input
    case NewPeer(key, txs) =>
      var list := new SyncList(txs);
      assert list.Contents() == txs;
      loop.OnArrive(key, list);
      e := Some(Arrive(key, txs));
    case Result(failed, random) =>
      if loop.sending {
        var choice := loop.OnDone(failed, random);
        e := Some(Done(failed, choice));
      }
  }

  /** After the first i inputs, from s on, the events so far have led to `now`. */
  predicate Answered(s: Loop, inputs: seq<Input>, i: nat, es: seq<Event>, now: Loop)
    requires i <= |inputs|
  {
    ValidRun(s, es) && Answers(s, inputs[..i], es) && now == Final(s, es)
  }

  lemma AnsweredStep(s: Loop, inputs: seq<Input>, i: nat, es: seq<Event>, now: Loop, e: Option<Event>)
    requires i < |inputs| && Answered(s, inputs, i, es, now) && (e.None? <==> inputs[i].Result? && !now.sending)
    requires e.Some? ==> EventOf(inputs[i], e.value) && Enabled(now, e.value)
    ensures e.None? ==> Answered(s, inputs, i + 1, es, now)
    ensures e.Some? ==> Answered(s, inputs, i + 1, es + [e.value], Step(now, e.value))
  {
    assert inputs[..i + 1] == inputs[..i] + [inputs[i]];
    if e.Some? {
      AnswersSnoc(s, inputs[..i], es, inputs[i], e.value);
    } else {
      AnswersSkip(s, inputs[..i], es, inputs[i]);
    }
  }

  /** The loop on the heap. Whatever its channels bring, it goes through the run of the model that answers it. */
  method Serve(loop: TxSyncLoop, inputs: seq<Input>) returns (ghost es: seq<Event>)
    requires loop.Valid() && WaitInv(loop.View())
    modifies loop, loop.owner.Keys
    ensures loop.Valid() && fresh(loop.owner.Keys - old(loop.owner.Keys))
    ensures ValidRun(old(loop.View()), es) && Answers(old(loop.View()), inputs, es)
    ensures loop.View() == Final(old(loop.View()), es) && WaitInv(loop.View())
  {
    es := [];
    for i := 0 to |inputs|
      modifies loop, loop.owner.Keys
      invariant loop.Valid() && WaitInv(loop.View()) && fresh(loop.owner.Keys - old(loop.owner.Keys))
      invariant Answered(old(loop.View()), inputs, i, es, loop.View())
    {
      ghost var now := loop.View();
      ghost var e := TakeInput(loop, inputs[i]);
      AnsweredStep(old(loop.View()), inputs, i, es, now, e);
      es := if e.Some? then es + [e.value] else es;
    }
    assert inputs[..|inputs|] == inputs;
  }
}
