/**
 Byte-exact, in-order delivery over every interleaving.

 The invariant says where each accepted message is: already delivered, complete on the wire,
 cut in two between the wire and `sending`, or still queued.
 */
module MuxDelivery {
  import opened Bytes
  import opened MuxModel

  /** The packets of channel c, in wire order. */
  function OnChannel(wire: seq<Packet>, c: nat): seq<Packet> {
    if wire == [] then []
    else if wire[0].chan == c then [wire[0]] + OnChannel(wire[1..], c)
    else OnChannel(wire[1..], c)
  }

  /** What a receiver holding `recving` makes of the packets: complete messages and a remainder. */
  function Reassemble(recving: ByteString, ps: seq<Packet>): (seq<ByteString>, ByteString)
    decreases |ps|
  {
    if ps == [] then ([], recving)
    else if ps[0].eof then
      var (ms, rest) := Reassemble([], ps[1..]);
      ([recving + ps[0].bytes] + ms, rest)
    else Reassemble(recving + ps[0].bytes, ps[1..])
  }

  lemma {:induction false} OnChannelSnoc(wire: seq<Packet>, p: Packet, c: nat)
    ensures OnChannel(wire + [p], c) == OnChannel(wire, c) + if p.chan == c then [p] else []
  {
    if wire == [] {
      assert wire + [p] == [p];
    } else {
      assert (wire + [p])[1..] == wire[1..] + [p];
      OnChannelSnoc(wire[1..], p, c);
    }
  }

  lemma {:induction false} ReassembleSnoc(recving: ByteString, ps: seq<Packet>, p: Packet)
    ensures var (ms, rest) := Reassemble(recving, ps);
            Reassemble(recving, ps + [p]) ==
            if p.eof then (ms + [rest + p.bytes], []) else (ms, rest + p.bytes)
    decreases |ps|
  {
    if ps == [] {
      assert ps + [p] == [p];
      assert [p][1..] == [];
      assert [recving + p.bytes] + [] == [recving + p.bytes];
      assert [] + [recving + p.bytes] == [recving + p.bytes];
    } else {
      assert (ps + [p])[1..] == ps[1..] + [p];
      if ps[0].eof {
        ReassembleSnoc([], ps[1..], p);
        var (ms, rest) := Reassemble([], ps[1..]);
        var first := recving + ps[0].bytes;
        assert [first] + (ms + [rest + p.bytes]) == ([first] + ms) + [rest + p.bytes];
      } else {
        ReassembleSnoc(recving + ps[0].bytes, ps[1..], p);
      }
    }
  }

  /** The message of which `rest` is on the wire and `sending` is not. */
  function InProgress(rest: ByteString, sending: ByteString): seq<ByteString> {
    if sending == [] then [] else [rest + sending]
  }

  ghost predicate NonEmptyMessages(msgs: seq<ByteString>) {
    forall k :: 0 <= k < |msgs| ==> msgs[k] != []
  }

  ghost predicate FittingMessages(msgs: seq<ByteString>, cap: nat) {
    forall k :: 0 <= k < |msgs| ==> |msgs[k]| <= cap
  }

  /** Messages complete on the wire, and the piece of the next one that follows them. */
  function OnWire(s: State, c: nat): (seq<ByteString>, ByteString)
    requires c < |s.recving|
  {
    Reassemble(s.recving[c], OnChannel(s.wire, c))
  }

  /** Nothing lost, duplicated or reordered on channel c. */
  ghost predicate Conserved(s: State, c: nat)
    requires c < |s.ch| == |s.recving| == |s.accepted| == |s.delivered|
  {
    var (ms, rest) := OnWire(s, c);
    && s.accepted[c] == s.delivered[c] + ms + InProgress(rest, s.ch[c].sending) + s.ch[c].queue
    && (s.ch[c].sending == [] ==> rest == [])
  }

  /** What survives a failed write on c: everything before the lost packet is intact. */
  ghost predicate PrefixIntact(s: State, c: nat)
    requires c < |s.ch| == |s.recving| == |s.accepted| == |s.delivered|
  {
    var (ms, rest) := OnWire(s, c);
    var k := |s.delivered[c]| + |ms|;
    && s.delivered[c] + ms <= s.accepted[c]
    && (rest != [] ==> k < |s.accepted[c]| && rest <= s.accepted[c][k])
  }

  /** sendQueueSize, plus the increments still owed, counts the messages not yet fully sent. */
  predicate SizeCounts(s: State, c: nat)
    requires c < |s.ch| == |s.uncounted|
  {
    s.ch[c].size + s.uncounted[c] == |s.ch[c].queue| + if s.ch[c].sending != [] then 1 else 0
  }

  /** A channel that a finished or running scan has chosen has bytes to send. */
  predicate ChosenLoaded(s: State, c: nat)
    requires c < |s.ch|
  {
    s.routine.Scanning? && s.routine.best == Some(c) ==> s.ch[c].sending != []
  }

  /** The invariant of channel c, for channels that were only given non-empty messages. */
  ghost predicate ChannelInv(s: State, c: nat)
    requires c < |s.ch| == |s.uncounted| == |s.recving| == |s.accepted| == |s.delivered|
  {
    && (s.failed.Some? ==> s.routine.Stopped?)
    && (NonEmptyMessages(s.accepted[c]) ==>
          && PrefixIntact(s, c)
          && NonEmptyMessages(s.ch[c].queue)
          && SizeCounts(s, c)
          && ChosenLoaded(s, c)
          && (s.failed != Some(c) ==> Conserved(s, c)))
  }

  lemma ConservedGivesPrefix(s: State, c: nat)
    requires c < |s.ch| == |s.recving| == |s.accepted| == |s.delivered|
    requires Conserved(s, c)
    ensures PrefixIntact(s, c)
  {
    var (ms, rest) := OnWire(s, c);
    var k := |s.delivered[c]| + |ms|;
    assert (s.delivered[c] + ms) == s.accepted[c][..k];
    if rest != [] {
      assert s.accepted[c][k] == rest + s.ch[c].sending;
    }
  }

  lemma InitInv(cfg: seq<Descriptor>, c: nat)
    requires c < |cfg|
    ensures ChannelInv(Init(cfg), c)
  {
  }

  lemma EnqueueKeeps(cfg: seq<Descriptor>, s: State, a: Action, c: nat)
    requires Shape(cfg, s) && c < |cfg| && Enabled(cfg, s, a) && a.Enqueue?
    requires ChannelInv(s, c)
    ensures ChannelInv(Apply(cfg, s, a), c)
  {
    var t := Apply(cfg, s, a);
    if a.c == c && NonEmptyMessages(t.accepted[c]) {
      assert forall k :: 0 <= k < |s.accepted[c]| ==> s.accepted[c][k] == t.accepted[c][k];
      assert t.accepted[c][|s.accepted[c]|] == a.msg;
      var (ms, rest) := OnWire(s, c);
      if s.failed != Some(c) {
        assert t.accepted[c] == s.delivered[c] + ms + InProgress(rest, s.ch[c].sending) + t.ch[c].queue;
      }
    }
  }

  /** Loading a message moves it from the queue to `sending`, between the same neighbours. */
  lemma ScanConserves(cfg: seq<Descriptor>, s: State, c: nat)
    requires Shape(cfg, s) && c < |cfg| && Enabled(cfg, s, Scan)
    requires NonEmptyMessages(s.ch[c].queue) && Conserved(s, c)
    ensures Conserved(Apply(cfg, s, Scan), c)
  {
    var t := Apply(cfg, s, Scan);
    if s.routine.next == c && s.ch[c].sending == [] && s.ch[c].queue != [] {
      var (ms, rest) := OnWire(s, c);
      assert t.ch[c].sending == s.ch[c].queue[0] != [];
      assert rest + t.ch[c].sending == s.ch[c].queue[0];
      assert InProgress(rest, t.ch[c].sending) + t.ch[c].queue == s.ch[c].queue;
    }
  }

  lemma ScanKeeps(cfg: seq<Descriptor>, s: State, c: nat)
    requires Shape(cfg, s) && c < |cfg| && Enabled(cfg, s, Scan)
    requires ChannelInv(s, c)
    ensures ChannelInv(Apply(cfg, s, Scan), c)
  {
    if NonEmptyMessages(s.accepted[c]) && s.failed != Some(c) {
      ScanConserves(cfg, s, c);
    }
  }

  lemma CutKeepsCount(s: State, t: State, c: nat)
    requires c < |s.ch| == |s.uncounted| && c < |t.ch| == |t.uncounted|
    requires SizeCounts(s, c) && s.ch[c].sending != []
    requires t.uncounted == s.uncounted && t.ch[c].queue == s.ch[c].queue
    requires t.ch[c].sending == AfterCut(s.ch[c]).sending && t.ch[c].size == AfterCut(s.ch[c]).size
    ensures SizeCounts(t, c)
  {
  }

  /** The bytes a write moves from `sending` to the wire stay in the same message. */
  lemma WriteConserves(cfg: seq<Descriptor>, s: State, size: nat, c: nat)
    requires Shape(cfg, s) && c < |cfg| && Enabled(cfg, s, Write(size))
    requires s.routine.best == Some(c) && s.ch[c].sending != [] && Conserved(s, c)
    ensures Conserved(Apply(cfg, s, Write(size)), c)
  {
    var t := Apply(cfg, s, Write(size));
    var p := CutPacket(c, s.ch[c]);
    var (ms, rest) := OnWire(s, c);
    OnChannelSnoc(s.wire, p, c);
    ReassembleSnoc(s.recving[c], OnChannel(s.wire, c), p);
    if p.eof {
      assert OnWire(t, c) == (ms + [rest + s.ch[c].sending], []);
    } else {
      assert s.ch[c].sending == p.bytes + t.ch[c].sending;
      assert rest + s.ch[c].sending == (rest + p.bytes) + t.ch[c].sending;
    }
  }

  lemma WriteKeeps(cfg: seq<Descriptor>, s: State, size: nat, c: nat)
    requires Shape(cfg, s) && c < |cfg| && Enabled(cfg, s, Write(size))
    requires ChannelInv(s, c)
    ensures ChannelInv(Apply(cfg, s, Write(size)), c)
  {
    var t := Apply(cfg, s, Write(size));
    if s.routine.best == Some(c) {
      if NonEmptyMessages(s.accepted[c]) {
        WriteConserves(cfg, s, size, c);
        ConservedGivesPrefix(t, c);
        CutKeepsCount(s, t, c);
      }
    } else {
      OnChannelSnoc(s.wire, t.wire[|s.wire|], c);
      assert OnChannel(t.wire, c) == OnChannel(s.wire, c);
    }
  }

  lemma WriteFailsKeeps(cfg: seq<Descriptor>, s: State, c: nat)
    requires Shape(cfg, s) && c < |cfg| && Enabled(cfg, s, WriteFails)
    requires ChannelInv(s, c)
    ensures ChannelInv(Apply(cfg, s, WriteFails), c)
  {
    if s.routine.best == Some(c) && NonEmptyMessages(s.accepted[c]) {
      CutKeepsCount(s, Apply(cfg, s, WriteFails), c);
    }
  }

  /** Receiving moves the head of the wire into `recving` and leaves what the wire means alone. */
  lemma ReceiveOnWire(cfg: seq<Descriptor>, s: State, c: nat)
    requires Shape(cfg, s) && c < |cfg| && Enabled(cfg, s, Receive)
    ensures var t := Apply(cfg, s, Receive);
            s.delivered[c] + OnWire(s, c).0 == t.delivered[c] + OnWire(t, c).0 && OnWire(s, c).1 == OnWire(t, c).1
  {
    var t := Apply(cfg, s, Receive);
    var p := s.wire[0];
    if !t.overflowed && p.chan == c {
      assert OnChannel(s.wire, c) == [p] + OnChannel(t.wire, c);
      assert ([p] + OnChannel(t.wire, c))[1..] == OnChannel(t.wire, c);
      if p.eof {
        var (ms, rest) := OnWire(t, c);
        var msg := s.recving[c] + p.bytes;
        assert OnWire(s, c) == ([msg] + ms, rest);
        assert s.delivered[c] + ([msg] + ms) == (s.delivered[c] + [msg]) + ms;
      }
    }
  }

  lemma ReceiveKeeps(cfg: seq<Descriptor>, s: State, c: nat)
    requires Shape(cfg, s) && c < |cfg| && Enabled(cfg, s, Receive)
    requires ChannelInv(s, c)
    ensures ChannelInv(Apply(cfg, s, Receive), c)
  {
    ReceiveOnWire(cfg, s, c);
    var t := Apply(cfg, s, Receive);
    assert |s.delivered[c]| + |OnWire(s, c).0| == |s.delivered[c] + OnWire(s, c).0|;
    assert |t.delivered[c]| + |OnWire(t, c).0| == |t.delivered[c] + OnWire(t, c).0|;
  }

  /** The actions that move no message: counters, token, waking, waiting, statistics, stopping. */
  predicate Bookkeeping(a: Action) {
    a.Count? || a.Signal? || a.Wake? || a.Exhausted? || a.Rearm? || a.UpdateStats? || a.Stop?
  }

  lemma BookkeepingMovesNothing(cfg: seq<Descriptor>, s: State, a: Action, c: nat)
    requires Shape(cfg, s) && c < |cfg| && Enabled(cfg, s, a) && Bookkeeping(a)
    ensures var t := Apply(cfg, s, a);
            && |t.ch| == |t.uncounted| == |cfg|
            && t.ch[c].sending == s.ch[c].sending && t.ch[c].queue == s.ch[c].queue
            && t.ch[c].size + t.uncounted[c] == s.ch[c].size + s.uncounted[c]
            && t.wire == s.wire && t.recving == s.recving
            && t.delivered == s.delivered && t.accepted == s.accepted && t.failed == s.failed
            && (t.routine.Scanning? ==> t.routine.best == None || t.routine == s.routine)
            && (s.routine.Stopped? ==> t.routine.Stopped?)
  {
    match a
    case UpdateStats => assert Apply(cfg, s, a).ch[c] == Decay(s.ch[c]);
    case _ =>
  }

  lemma BookkeepingKeeps(cfg: seq<Descriptor>, s: State, a: Action, c: nat)
    requires Shape(cfg, s) && c < |cfg| && Enabled(cfg, s, a) && Bookkeeping(a)
    requires ChannelInv(s, c)
    ensures |Apply(cfg, s, a).ch| == |Apply(cfg, s, a).uncounted| == |cfg| && ChannelInv(Apply(cfg, s, a), c)
  {
    BookkeepingMovesNothing(cfg, s, a, c);
    assert OnWire(Apply(cfg, s, a), c) == OnWire(s, c);
  }

  /** Every action of every party keeps the invariant of every channel. */
  lemma StepKeeps(cfg: seq<Descriptor>, s: State, a: Action, c: nat)
    requires Shape(cfg, s) && c < |cfg| && Enabled(cfg, s, a)
    requires ChannelInv(s, c)
    ensures ChannelInv(Apply(cfg, s, a), c)
  {
    match a
    case Enqueue(_, _) => EnqueueKeeps(cfg, s, a, c);
    case Scan => ScanKeeps(cfg, s, c);
    case Write(size) => WriteKeeps(cfg, s, size, c);
    case WriteFails => WriteFailsKeeps(cfg, s, c);
    case Receive => ReceiveKeeps(cfg, s, c);
    case _ => BookkeepingKeeps(cfg, s, a, c);
  }

  lemma {:induction false} RunKeeps(cfg: seq<Descriptor>, s: State, run: seq<Action>, c: nat)
    requires ValidRun(cfg, s, run) && c < |cfg|
    requires ChannelInv(s, c)
    ensures Shape(cfg, Final(cfg, s, run)) && ChannelInv(Final(cfg, s, run), c)
    decreases |run|
  {
    if run != [] {
      StepKeeps(cfg, s, run[0], c);
      RunKeeps(cfg, Apply(cfg, s, run[0]), run[1..], c);
    }
  }

  /** In every run, a channel that is only given non-empty messages delivers a byte-exact prefix of them
      in order; unless a write failed on it, the rest lies exactly on the wire, in `sending` and in the
      queue; and sendQueueSize counts that rest. */
  lemma {:induction false} DeliveryTheorem(cfg: seq<Descriptor>, run: seq<Action>, c: nat)
    requires ValidRun(cfg, Init(cfg), run) && c < |cfg|
    requires NonEmptyMessages(Final(cfg, Init(cfg), run).accepted[c])
    ensures var s := Final(cfg, Init(cfg), run);
            && s.delivered[c] <= s.accepted[c]
            && (s.failed != Some(c) ==> Conserved(s, c))
            && SizeCounts(s, c)
  {
    InitInv(cfg, c);
    RunKeeps(cfg, Init(cfg), run, c);
  }

  /** What the receiver holds is a prefix of whatever it will make of the packets that follow. */
  lemma {:induction false} ReassembleExtends(recving: ByteString, ps: seq<Packet>)
    ensures var (ms, rest) := Reassemble(recving, ps);
            if ms == [] then recving <= rest else recving <= ms[0]
    decreases |ps|
  {
    if ps != [] && !ps[0].eof {
      ReassembleExtends(recving + ps[0].bytes, ps[1..]);
    }
  }

  ghost predicate Deliverable(cfg: seq<Descriptor>, s: State)
    requires Shape(cfg, s)
  {
    forall c :: 0 <= c < |cfg| ==> NonEmptyMessages(s.accepted[c]) && FittingMessages(s.accepted[c], cfg[c].recvCap)
  }

  lemma ReceiveFits(cfg: seq<Descriptor>, s: State)
    requires Shape(cfg, s) && Enabled(cfg, s, Receive) && Deliverable(cfg, s)
    requires forall c :: 0 <= c < |cfg| ==> ChannelInv(s, c)
    ensures !Apply(cfg, s, Receive).overflowed
  {
    var p := s.wire[0];
    var c := p.chan;
    assert ChannelInv(s, c);
    var rest := OnChannel(s.wire[1..], c);
    assert OnChannel(s.wire, c) == [p] + rest;
    assert ([p] + rest)[1..] == rest;
    var k := |s.delivered[c]|;
    var msgs := s.delivered[c] + OnWire(s, c).0;
    if p.eof {
      assert msgs[k] == s.recving[c] + p.bytes;
    } else {
      ReassembleExtends(s.recving[c] + p.bytes, rest);
      if OnWire(s, c).0 != [] {
        assert msgs[k] == OnWire(s, c).0[0];
      }
    }
  }

  ghost predicate GlobalInv(cfg: seq<Descriptor>, s: State) {
    && Shape(cfg, s)
    && (forall c :: 0 <= c < |cfg| ==> ChannelInv(s, c))
    && (Deliverable(cfg, s) ==> !s.overflowed)
  }

  lemma {:induction false} RunKeepsGlobal(cfg: seq<Descriptor>, s: State, run: seq<Action>)
    requires ValidRun(cfg, s, run) && GlobalInv(cfg, s)
    ensures GlobalInv(cfg, Final(cfg, s, run))
    decreases |run|
  {
    if run != [] {
      var t := Apply(cfg, s, run[0]);
      forall c | 0 <= c < |cfg| ensures ChannelInv(t, c) {
        StepKeeps(cfg, s, run[0], c);
      }
      if Deliverable(cfg, t) {
        forall c | 0 <= c < |cfg|
          ensures NonEmptyMessages(s.accepted[c]) && FittingMessages(s.accepted[c], cfg[c].recvCap)
        {
          assert forall k :: 0 <= k < |s.accepted[c]| ==> t.accepted[c][k] == s.accepted[c][k];
        }
        if run[0].Receive? {
          ReceiveFits(cfg, s);
        }
      }
      RunKeepsGlobal(cfg, t, run[1..]);
    }
  }

  /** When every message is non-empty and within the receiver's capacity, no packet ever overflows. */
  lemma {:induction false} NoOverflowTheorem(cfg: seq<Descriptor>, run: seq<Action>)
    requires ValidRun(cfg, Init(cfg), run)
    requires Deliverable(cfg, Final(cfg, Init(cfg), run))
    ensures !Final(cfg, Init(cfg), run).overflowed
  {
    RunKeepsGlobal(cfg, Init(cfg), run);
  }

  ghost predicate Capped(cfg: seq<Descriptor>, s: State, c: nat)
    requires c < |cfg| && Shape(cfg, s)
  {
    |s.recving[c]| <= cfg[c].recvCap && FittingMessages(s.delivered[c], cfg[c].recvCap)
  }

  lemma StepKeepsCapped(cfg: seq<Descriptor>, s: State, a: Action, c: nat)
    requires Shape(cfg, s) && Enabled(cfg, s, a) && c < |cfg| && Capped(cfg, s, c)
    ensures Shape(cfg, Apply(cfg, s, a)) && Capped(cfg, Apply(cfg, s, a), c)
  {
    ApplyKeepsShape(cfg, s, a);
    if !a.Receive? {
      assert Apply(cfg, s, a).recving == s.recving && Apply(cfg, s, a).delivered == s.delivered;
    }
  }

  lemma {:induction false} RunKeepsCapped(cfg: seq<Descriptor>, s: State, run: seq<Action>, c: nat)
    requires ValidRun(cfg, s, run) && c < |cfg| && Capped(cfg, s, c)
    ensures Capped(cfg, Final(cfg, s, run), c)
    decreases |run|
  {
    if run != [] {
      StepKeepsCapped(cfg, s, run[0], c);
      RunKeepsCapped(cfg, Apply(cfg, s, run[0]), run[1..], c);
    }
  }

  /** In every run, whatever is sent, a channel never collects and never delivers more than its capacity: the pieces of
      a message that is too long are refused however it was cut. */
  lemma {:induction false} NothingOversized(cfg: seq<Descriptor>, run: seq<Action>, c: nat)
    requires ValidRun(cfg, Init(cfg), run) && c < |cfg|
    ensures var s := Final(cfg, Init(cfg), run);
            && |s.recving[c]| <= cfg[c].recvCap
            && forall k :: 0 <= k < |s.delivered[c]| ==> |s.delivered[c][k]| <= cfg[c].recvCap
  {
    RunKeepsCapped(cfg, Init(cfg), run, c);
  }

  const LossyConfig: seq<Descriptor> := [Descriptor(1, 1, 1), Descriptor(1, 1, 1)]

  /** A message on channel 0 and an empty one on channel 1; `signalled` says whether the first sender
      has finished and woken the send routine. */
  function LossyState(signalled: bool): State {
    State([Channel([[7]], [], if signalled then 1 else 0, 0), Channel([[]], [], 0, 0)],
          if signalled then [0, 1] else [1, 1], 0, false, if signalled then Scanning(0, None, 0) else Waiting, [],
          [[], []], false, None, [[[7]], [[]]], [[], []])
  }

  lemma LossyQueuesReachable()
    ensures Reachable(LossyConfig, LossyState(false))
  {
    var cfg := LossyConfig;
    InitReachable(cfg);
    ReachableStep(cfg, Init(cfg), Enqueue(0, [7]));
    var s1 := Apply(cfg, Init(cfg), Enqueue(0, [7]));
    assert s1.ch[0].queue == s1.accepted[0] == [[7]];
    ReachableStep(cfg, s1, Enqueue(1, []));
    var s2 := Apply(cfg, s1, Enqueue(1, []));
    assert s2.ch[1].queue == s2.accepted[1] == [[]];
    var t := LossyState(false);
    assert s2.ch == t.ch && s2.uncounted == t.uncounted && s2.accepted == t.accepted;
    assert s2.recving == t.recving && s2.delivered == t.delivered;
    assert s2 == t;
  }

  lemma LossyWakeReachable()
    ensures Reachable(LossyConfig, LossyState(true))
  {
    var cfg := LossyConfig;
    LossyQueuesReachable();
    var s2 := LossyState(false);
    ReachableStep(cfg, s2, Count(0));
    var s3 := Apply(cfg, s2, Count(0));
    ReachableStep(cfg, s3, Signal);
    var s4 := Apply(cfg, s3, Signal);
    ReachableStep(cfg, s4, Wake);
    var t := LossyState(true);
    assert s4.ch == t.ch && s4.uncounted == t.uncounted;
  }

  /** Without the non-empty condition the delivery claim is false: a reachable state in which channel 1
      accepted an empty message that is neither delivered nor anywhere on its way. */
  lemma EmptyMessageIsLost()
    ensures exists s :: Reachable(LossyConfig, s) && |s.ch| == |s.accepted| == |s.delivered| == |s.recving| == 2
                     && s.accepted[1] == [[]] && s.delivered[1] == [] && s.failed == None
                     && s.wire == [] && !Pending(s.ch[1]) && s.routine.Scanning? && s.routine.best == Some(0)
  {
    var cfg := LossyConfig;
    LossyWakeReachable();
    var s5 := LossyState(true);
    ReachableStep(cfg, s5, Scan);
    var s6 := Apply(cfg, s5, Scan);
    ReachableStep(cfg, s6, Scan);
    assert !Pending(Apply(cfg, s6, Scan).ch[1]);
  }
}
