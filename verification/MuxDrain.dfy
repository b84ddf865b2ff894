/**
 Once senders stop, every run drains the connection within a bounded number of moves, and ends with each accepted
 message delivered except the empty ones that losing scans took.
 */
module MuxDrain {
  import opened Bytes
  import opened MuxModel
  import opened MuxDelivery
  import opened MuxWakeup
  import opened MuxEmpty
  import opened Totals

  // ---------------------------------------------------------------- the work left

  /** Packets that bytes will be cut into. */
  function Packets(m: ByteString): nat {
    (|m| + MAX_PAYLOAD - 1) / MAX_PAYLOAD
  }

  /** An empty message may still become a packet of its own. */
  function QueuePackets(q: seq<ByteString>): nat {
    if q == [] then 0 else (if q[0] == [] then 1 else Packets(q[0])) + QueuePackets(q[1..])
  }

  /** `chosen` says that the scan holds the channel, perhaps with an empty message loaded. */
  function ChannelPackets(ch: Channel, chosen: bool): nat {
    (if ch.sending == [] && chosen then 1 else Packets(ch.sending)) + QueuePackets(ch.queue)
  }

  predicate Chosen(r: Routine, c: nat) {
    r.Scanning? && r.best == Some(c)
  }

  function PacketsLeft(ch: seq<Channel>, r: Routine): seq<nat> {
    seq(|ch|, c requires 0 <= c < |ch| => ChannelPackets(ch[c], Chosen(r, c)))
  }

  function RoutineWork(n: nat, r: Routine): nat {
    match r
    case Scanning(next, _, _) => if next <= n then n - next + 1 else 0
    case Rearming => n + 4
    case _ => 0
  }

  function Cost(count: nat, each: nat): nat {
    if count == 0 then 0 else each + Cost(count - 1, each)
  }

  lemma {:induction false} CostMonotone(count: nat, more: nat, each: nat)
    requires count <= more
    ensures Cost(count, each) <= Cost(more, each)
  {
    if count > 0 {
      CostMonotone(count - 1, more - 1, each);
    }
  }

  /** An upper bound on the actions left once no more messages are queued: a token is worth one
      fruitless scan, a packet one scan, one write, one receive and possibly a new token. */
  function Work(cfg: seq<Descriptor>, s: State): nat {
    var n := |cfg|;
    Cost(Total(PacketsLeft(s.ch, s.routine)), n + 6) + Cost(Total(s.uncounted), n + 5) + Cost(s.toSignal, n + 4)
    + (if s.token then n + 3 else 0) + RoutineWork(n, s.routine) + |s.wire|
  }

  /** The actions that move messages along; queuing, decay of the statistics and the ways to stop are not. */
  predicate Moves(a: Action) {
    !a.Enqueue? && !a.UpdateStats? && !a.Stop? && !a.WriteFails?
  }

  /** Writing the chosen packet, of an empty message too, takes one packet off its channel. */
  lemma CutTakesPacket(ch: Channel)
    ensures ChannelPackets(AfterCut(ch), false) == ChannelPackets(ch, true) - 1
  {
  }

  lemma WritePackets(cfg: seq<Descriptor>, s: State, size: nat)
    requires Shape(cfg, s) && Enabled(cfg, s, Write(size))
    ensures var t := Apply(cfg, s, Write(size));
            Total(PacketsLeft(t.ch, t.routine)) == Total(PacketsLeft(s.ch, s.routine)) - 1
  {
    var c := s.routine.best.value;
    var t := Apply(cfg, s, Write(size));
    CutTakesPacket(s.ch[c]);
    var before, after := PacketsLeft(s.ch, s.routine), PacketsLeft(t.ch, t.routine);
    assert after[c] == ChannelPackets(AfterCut(s.ch[c]), false);
    assert after == before[c := after[c]];
    TotalUpdate(before, c, after[c]);
  }

  lemma WriteWork(cfg: seq<Descriptor>, s: State, size: nat)
    requires Shape(cfg, s) && Enabled(cfg, s, Write(size))
    ensures Work(cfg, Apply(cfg, s, Write(size))) < Work(cfg, s)
  {
    WritePackets(cfg, s, size);
    var t := Apply(cfg, s, Write(size));
    assert t.uncounted == s.uncounted && t.toSignal == s.toSignal && t.token == s.token;
    assert |t.wire| == |s.wire| + 1 && RoutineWork(|cfg|, t.routine) <= |cfg| + 4;
  }

  lemma CountWork(cfg: seq<Descriptor>, s: State, c: nat)
    requires Shape(cfg, s) && Enabled(cfg, s, Count(c))
    ensures Work(cfg, Apply(cfg, s, Count(c))) < Work(cfg, s)
  {
    var t := Apply(cfg, s, Count(c));
    assert PacketsLeft(t.ch, t.routine) == PacketsLeft(s.ch, s.routine);
    TotalUpdate(s.uncounted, c, s.uncounted[c] - 1);
    assert Total(t.uncounted) == Total(s.uncounted) - 1;
  }

  /** A scan never adds packets; a losing one takes the lost message's away. */
  lemma ScanPackets(cfg: seq<Descriptor>, s: State, c: nat)
    requires Shape(cfg, s) && Enabled(cfg, s, Scan) && c < |cfg|
    ensures var t := Apply(cfg, s, Scan);
            ChannelPackets(t.ch[c], Chosen(t.routine, c)) <= ChannelPackets(s.ch[c], Chosen(s.routine, c))
  {
    var t := Apply(cfg, s, Scan);
    if s.routine.next != c {
      assert t.ch[c] == s.ch[c] && (Chosen(t.routine, c) ==> Chosen(s.routine, c));
    } else {
      assert t.ch[c] == Load(s.ch[c]) && !Chosen(s.routine, c);
    }
  }

  lemma ScanWork(cfg: seq<Descriptor>, s: State)
    requires Shape(cfg, s) && Enabled(cfg, s, Scan)
    ensures Work(cfg, Apply(cfg, s, Scan)) < Work(cfg, s)
  {
    var t := Apply(cfg, s, Scan);
    var before, after := PacketsLeft(s.ch, s.routine), PacketsLeft(t.ch, t.routine);
    forall c | 0 <= c < |cfg| ensures after[c] <= before[c] {
      ScanPackets(cfg, s, c);
    }
    TotalMonotone(after, before);
    CostMonotone(Total(after), Total(before), |cfg| + 6);
  }

  /** The steps that leave the channels alone. */
  lemma QuietStepWork(cfg: seq<Descriptor>, s: State, a: Action)
    requires Shape(cfg, s) && Enabled(cfg, s, a) && Moves(a) && !a.Count? && !a.Scan? && !a.Write?
    requires a.Receive? ==> !Apply(cfg, s, a).overflowed
    ensures Work(cfg, Apply(cfg, s, a)) < Work(cfg, s)
  {
    var t := Apply(cfg, s, a);
    assert t.ch == s.ch && t.uncounted == s.uncounted;
    assert forall c :: 0 <= c < |cfg| ==> Chosen(t.routine, c) == Chosen(s.routine, c);
    assert PacketsLeft(t.ch, t.routine) == PacketsLeft(s.ch, s.routine);
  }

  /** Every moving action uses up work. */
  lemma MovesUseWork(cfg: seq<Descriptor>, s: State, a: Action)
    requires Shape(cfg, s) && Enabled(cfg, s, a) && Moves(a)
    requires a.Receive? ==> !Apply(cfg, s, a).overflowed
    ensures Work(cfg, Apply(cfg, s, a)) < Work(cfg, s)
  {
    if a.Count? {
      CountWork(cfg, s, a.c);
    } else if a.Scan? {
      ScanWork(cfg, s);
    } else if a.Write? {
      WriteWork(cfg, s, a.size);
    } else {
      QuietStepWork(cfg, s, a);
    }
  }

  lemma StatsKeepWork(cfg: seq<Descriptor>, s: State)
    requires Shape(cfg, s) && Enabled(cfg, s, UpdateStats)
    ensures Work(cfg, Apply(cfg, s, UpdateStats)) == Work(cfg, s)
  {
    var t := Apply(cfg, s, UpdateStats);
    assert PacketsLeft(t.ch, t.routine) == PacketsLeft(s.ch, s.routine);
  }

  // ---------------------------------------------------------------- no overflow

  ghost predicate AllFit(cfg: seq<Descriptor>, s: State)
    requires Shape(cfg, s)
  {
    forall c :: 0 <= c < |cfg| ==> FittingMessages(s.accepted[c], cfg[c].recvCap)
  }

  /** c delivers what it accepted, in order, less some empty messages. */
  ghost predicate InOrder(s: State, c: nat)
    requires c < |s.ch| == |s.recving| == |s.accepted| == |s.delivered|
  {
    exists n :: TrackInv(s, c, n)
  }

  /** No write has failed, and every channel delivers in order. */
  ghost predicate Tracked(cfg: seq<Descriptor>, s: State) {
    Shape(cfg, s) && s.failed == None && forall c :: 0 <= c < |cfg| ==> InOrder(s, c)
  }

  lemma StepKeepsTracked(cfg: seq<Descriptor>, s: State, a: Action)
    requires Tracked(cfg, s) && Enabled(cfg, s, a) && !a.WriteFails?
    ensures Tracked(cfg, Apply(cfg, s, a))
  {
    ApplyKeepsShape(cfg, s, a);
    forall c | 0 <= c < |cfg| ensures InOrder(Apply(cfg, s, a), c) {
      assert InOrder(s, c);
      var n :| TrackInv(s, c, n);
      StepTracks(cfg, s, a, c, n);
    }
  }

  /** What the head of the wire completes or extends is an accepted message. */
  lemma HeadOfMessage(s: State, c: nat, m: ByteString)
    requires c < |s.ch| == |s.recving| == |s.accepted| == |s.delivered|
    requires s.wire != [] && s.wire[0].chan == c && InOrder(s, c) && m == s.recving[c] + s.wire[0].bytes
    ensures m == [] || exists whole :: whole in s.accepted[c] && m <= whole
  {
    var n :| TrackInv(s, c, n);
    var p, rest := s.wire[0], OnChannel(s.wire[1..], c);
    assert OnChannel(s.wire, c) == [p] + rest && ([p] + rest)[1..] == rest;
    ThinnedCounts(s.accepted[c], Track(s, c), n);
    var done := OnWire(s, c).0;
    if done != [] {
      if !p.eof {
        ReassembleExtends(m, rest);
      }
      assert m <= done[0] && Track(s, c)[|s.delivered[c]|] == done[0];
      assert done[0] in Track(s, c);
    } else {
      ReassembleExtends(m, rest);
      if m != [] {
        var whole := OnWire(s, c).1 + s.ch[c].sending;
        assert s.ch[c].sending != [] && Current(s, c) == [whole];
        assert Track(s, c)[|s.delivered[c]|] == whole;
        assert whole in Track(s, c) && m <= whole;
      }
    }
  }

  lemma FittingReceive(cfg: seq<Descriptor>, s: State)
    requires Tracked(cfg, s) && Enabled(cfg, s, Receive) && AllFit(cfg, s)
    ensures !Apply(cfg, s, Receive).overflowed
  {
    var c := s.wire[0].chan;
    var m := s.recving[c] + s.wire[0].bytes;
    HeadOfMessage(s, c, m);
    if m != [] {
      var whole :| whole in s.accepted[c] && m <= whole;
      assert |whole| <= cfg[c].recvCap;
    }
  }

  lemma {:induction false} FailedRunsStop(cfg: seq<Descriptor>, s: State, run: seq<Action>)
    requires ValidRun(cfg, s, run) && (s.failed.Some? ==> s.routine.Stopped?)
    ensures Final(cfg, s, run).failed.Some? ==> Final(cfg, s, run).routine.Stopped?
    ensures Final(cfg, s, run).failed.None? ==> s.failed.None?
    decreases |run|
  {
    if run != [] {
      FailedRunsStop(cfg, Apply(cfg, s, run[0]), run[1..]);
    }
  }

  /** Messages within the receiver's capacity, empty or not, never overflow it. */
  lemma {:induction false} FittingRun(cfg: seq<Descriptor>, s: State, run: seq<Action>)
    requires ValidRun(cfg, s, run) && Tracked(cfg, s) && !s.overflowed
    requires AllFit(cfg, Final(cfg, s, run)) && Final(cfg, s, run).failed.None?
    ensures Tracked(cfg, Final(cfg, s, run)) && !Final(cfg, s, run).overflowed
    decreases |run|
  {
    if run != [] {
      var a, t := run[0], Apply(cfg, s, run[0]);
      FailedRunsStop(cfg, t, run[1..]);
      StepKeepsTracked(cfg, s, a);
      AcceptedGrow(cfg, s, run);
      if a.Receive? {
        FittingReceive(cfg, s);
      }
      FittingRun(cfg, t, run[1..]);
    }
  }

  lemma {:induction false} AcceptedGrow(cfg: seq<Descriptor>, s: State, run: seq<Action>)
    requires ValidRun(cfg, s, run) && AllFit(cfg, Final(cfg, s, run))
    ensures AllFit(cfg, s)
    decreases |run|
  {
    if run != [] {
      var t := Apply(cfg, s, run[0]);
      AcceptedGrow(cfg, t, run[1..]);
      forall c | 0 <= c < |cfg| ensures FittingMessages(s.accepted[c], cfg[c].recvCap) {
        assert forall k :: 0 <= k < |s.accepted[c]| ==> t.accepted[c][k] == s.accepted[c][k];
      }
    }
  }

  lemma InitTracked(cfg: seq<Descriptor>)
    ensures Tracked(cfg, Init(cfg))
  {
    forall c | 0 <= c < |cfg| ensures InOrder(Init(cfg), c) {
      InitTracks(cfg, c);
    }
  }

  /** When every message is within the receiver's capacity, empty or not, no packet overflows in a run without a failed
      write. */
  lemma {:induction false} NoOverflowAtAll(cfg: seq<Descriptor>, run: seq<Action>)
    requires ValidRun(cfg, Init(cfg), run)
    requires AllFit(cfg, Final(cfg, Init(cfg), run)) && Final(cfg, Init(cfg), run).failed.None?
    ensures !Final(cfg, Init(cfg), run).overflowed
  {
    InitTracked(cfg);
    FittingRun(cfg, Init(cfg), run);
  }

  // ---------------------------------------------------------------- draining

  /** Number of moving actions in a run. */
  function MoveCount(run: seq<Action>): nat {
    if run == [] then 0 else (if Moves(run[0]) then 1 else 0) + MoveCount(run[1..])
  }

  ghost predicate OnlyMovesAndStats(run: seq<Action>) {
    forall k :: 0 <= k < |run| ==> Moves(run[k]) || run[k].UpdateStats?
  }

  lemma {:induction false} MovesBounded(cfg: seq<Descriptor>, s: State, run: seq<Action>)
    requires ValidRun(cfg, s, run) && OnlyMovesAndStats(run) && Tracked(cfg, s) && AllFit(cfg, s)
    ensures MoveCount(run) + Work(cfg, Final(cfg, s, run)) <= Work(cfg, s)
    decreases |run|
  {
    if run != [] {
      var a := run[0];
      StepKeepsTracked(cfg, s, a);
      if Moves(a) {
        if a.Receive? {
          FittingReceive(cfg, s);
        }
        MovesUseWork(cfg, s, a);
      } else {
        StatsKeepWork(cfg, s);
      }
      assert Apply(cfg, s, a).accepted == s.accepted;
      MovesBounded(cfg, Apply(cfg, s, a), run[1..]);
    }
  }

  /** In a running connection some moving action is enabled unless it is quiet. */
  lemma StuckMeansQuiet(cfg: seq<Descriptor>, s: State)
    requires Shape(cfg, s) && !s.routine.Stopped? && !s.overflowed
    requires forall a :: Moves(a) ==> !Enabled(cfg, s, a)
    ensures s.routine.Waiting? && !WakeComing(s) && s.wire == []
  {
    assert !Enabled(cfg, s, Receive) && !Enabled(cfg, s, Signal) && !Enabled(cfg, s, Wake);
    assert !Enabled(cfg, s, Scan) && !Enabled(cfg, s, Exhausted) && !Enabled(cfg, s, Rearm);
    if s.routine.Scanning? && s.routine.best.Some? {
      var p := CutPacket(s.routine.best.value, s.ch[s.routine.best.value]);
      assert ScanDone(cfg, s) ==> Enabled(cfg, s, Write(|p.bytes| + 1));
    }
    forall c | 0 <= c < |s.uncounted| ensures s.uncounted[c] == 0 {
      assert !Enabled(cfg, s, Count(c));
    }
  }

  lemma {:induction false} MovesKeepAccepted(cfg: seq<Descriptor>, s: State, run: seq<Action>)
    requires ValidRun(cfg, s, run) && OnlyMovesAndStats(run) && !s.routine.Stopped?
    ensures Final(cfg, s, run).accepted == s.accepted && !Final(cfg, s, run).routine.Stopped?
    decreases |run|
  {
    if run != [] {
      assert Moves(run[0]) || run[0].UpdateStats?;
      MovesKeepAccepted(cfg, Apply(cfg, s, run[0]), run[1..]);
    }
  }

  lemma {:induction false} StuckRunDelivered(cfg: seq<Descriptor>, run: seq<Action>, c: nat)
    requires ValidRun(cfg, Init(cfg), run) && c < |cfg|
    requires AllFit(cfg, Final(cfg, Init(cfg), run)) && !Final(cfg, Init(cfg), run).routine.Stopped?
    requires forall a :: Moves(a) ==> !Enabled(cfg, Final(cfg, Init(cfg), run), a)
    ensures var t := Final(cfg, Init(cfg), run);
            && Thinned(t.accepted[c], t.delivered[c], Losses(cfg, Init(cfg), run, c))
            && (NonEmptyMessages(t.accepted[c]) ==> t.delivered[c] == t.accepted[c])
  {
    var t := Final(cfg, Init(cfg), run);
    FailedRunsStop(cfg, Init(cfg), run);
    NoOverflowAtAll(cfg, run);
    StuckMeansQuiet(cfg, t);
    QuietLosesOnlyEmpty(cfg, run, c);
    if NonEmptyMessages(t.accepted[c]) {
      ThinnedNonEmpty(t.accepted[c], t.delivered[c], Losses(cfg, Init(cfg), run, c));
    }
  }

  /** Drain: let a run be continued without new messages and without a stop or a failed write. The
      continuation has at most Work moving actions, and when no moving action is left every channel has
      delivered the messages it accepted, in order, less one empty message for each losing scan. */
  lemma {:induction false} DrainTheorem(cfg: seq<Descriptor>, run: seq<Action>, more: seq<Action>)
    requires ValidRun(cfg, Init(cfg), run)
    requires ValidRun(cfg, Final(cfg, Init(cfg), run), more) && OnlyMovesAndStats(more)
    requires AllFit(cfg, Final(cfg, Init(cfg), run)) && !Final(cfg, Init(cfg), run).routine.Stopped?
    ensures MoveCount(more) <= Work(cfg, Final(cfg, Init(cfg), run))
    ensures ValidRun(cfg, Init(cfg), run + more)
    ensures var t := Final(cfg, Init(cfg), run + more);
            (forall a :: Moves(a) ==> !Enabled(cfg, t, a)) ==>
              forall c :: 0 <= c < |cfg| ==>
                && Thinned(t.accepted[c], t.delivered[c], Losses(cfg, Init(cfg), run + more, c))
                && (NonEmptyMessages(t.accepted[c]) ==> t.delivered[c] == t.accepted[c])
  {
    var s := Final(cfg, Init(cfg), run);
    FailedRunsStop(cfg, Init(cfg), run);
    InitTracked(cfg);
    FittingRun(cfg, Init(cfg), run);
    MovesBounded(cfg, s, more);
    MovesKeepAccepted(cfg, s, more);
    RunConcat(cfg, Init(cfg), run, more);
    var t := Final(cfg, Init(cfg), run + more);
    if forall a :: Moves(a) ==> !Enabled(cfg, t, a) {
      forall c | 0 <= c < |cfg|
        ensures && Thinned(t.accepted[c], t.delivered[c], Losses(cfg, Init(cfg), run + more, c))
                && (NonEmptyMessages(t.accepted[c]) ==> t.delivered[c] == t.accepted[c])
      {
        StuckRunDelivered(cfg, run + more, c);
      }
    }
  }

  /** With nothing stopped and no move left, the receiver has refused a packet exactly if some channel was given a
      message beyond its capacity. */
  lemma {:induction false} OverflowsIff(cfg: seq<Descriptor>, run: seq<Action>)
    requires ValidRun(cfg, Init(cfg), run) && !Final(cfg, Init(cfg), run).routine.Stopped?
    requires forall a :: Moves(a) ==> !Enabled(cfg, Final(cfg, Init(cfg), run), a)
    ensures Final(cfg, Init(cfg), run).overflowed <==> !AllFit(cfg, Final(cfg, Init(cfg), run))
  {
    var t := Final(cfg, Init(cfg), run);
    FailedRunsStop(cfg, Init(cfg), run);
    if AllFit(cfg, t) {
      NoOverflowAtAll(cfg, run);
    } else if !t.overflowed {
      StuckMeansQuiet(cfg, t);
      forall c | 0 <= c < |cfg| ensures FittingMessages(t.accepted[c], cfg[c].recvCap) {
        QuietLosesOnlyEmpty(cfg, run, c);
        NothingOversized(cfg, run, c);
        AcceptedFit(t.accepted[c], t.delivered[c], Losses(cfg, Init(cfg), run, c), cfg[c].recvCap);
      }
    }
  }

  lemma {:induction false} AcceptedFit(accepted: seq<ByteString>, delivered: seq<ByteString>, n: nat, cap: nat)
    requires Thinned(accepted, delivered, n) && FittingMessages(delivered, cap)
    ensures FittingMessages(accepted, cap)
  {
    forall k | 0 <= k < |accepted| ensures |accepted[k]| <= cap {
      if accepted[k] != [] {
        ThinnedKeeps(accepted, delivered, n, k);
      }
    }
  }
}
