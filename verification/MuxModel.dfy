/**
 The multiplexed connection of p2p/connection/connection.go as a step system.

 Any number of goroutines call Send or TrySend, one send routine drains the
 channels, and the remote end reassembles the packets it reads from the wire.
 Every step below is one atomic action of one of those parties, so a run is an
 arbitrary interleaving of them.
 */
module MuxModel {
  import opened Bytes

  const MAX_PAYLOAD: nat := 1024
  const MAX_OVERHEAD: nat := 10
  const BATCH: nat := 10

  /** What a ChannelDescriptor fixes; `recvCap` is the receiver's RecvMessageCapacity. */
  datatype Descriptor = Descriptor(priority: nat, sendCap: nat, recvCap: nat)

  ghost predicate ValidConfig(cfg: seq<Descriptor>) {
    forall c :: 0 <= c < |cfg| ==> cfg[c].priority > 0 && cfg[c].sendCap > 0
  }

  datatype Packet = Packet(chan: nat, eof: bool, bytes: ByteString)

  /** The sending half of a Channel. `size` is sendQueueSize; it may be negative for a moment,
      because a message can leave before its sender has counted it. */
  datatype Channel = Channel(queue: seq<ByteString>, sending: ByteString, size: int, recentlySent: nat)

  const FreshChannel := Channel([], [], 0, 0)

  predicate Pending(ch: Channel) {
    ch.sending != [] || ch.queue != []
  }

  /** isSendPending: loads the next queued message when nothing is being sent. */
  function Load(ch: Channel): Channel {
    if ch.sending == [] && ch.queue != [] then ch.(sending := ch.queue[0], queue := ch.queue[1..]) else ch
  }

  /** The packet nextMsgPacket cuts off, and the channel it leaves behind. */
  function CutPacket(id: nat, ch: Channel): Packet {
    if |ch.sending| <= MAX_PAYLOAD then Packet(id, true, ch.sending)
    else Packet(id, false, ch.sending[..MAX_PAYLOAD])
  }

  function AfterCut(ch: Channel): Channel {
    if |ch.sending| <= MAX_PAYLOAD then ch.(sending := [], size := ch.size - 1)
    else ch.(sending := ch.sending[MAX_PAYLOAD..])
  }

  /** updateStats: exponential decay, rounded towards zero. */
  function Decay(ch: Channel): Channel {
    ch.(recentlySent := ch.recentlySent * 4 / 5)
  }

  datatype Received = Overflow | Partial(recving: ByteString) | Complete(msg: ByteString)

  /** recvMsgPacket. */
  function Accept(cap: nat, recving: ByteString, p: Packet): Received {
    if cap < |recving| + |p.bytes| then Overflow
    else if p.eof then Complete(recving + p.bytes)
    else Partial(recving + p.bytes)
  }

  /** recentlySent/priority of `a` is strictly below that of `b`, compared exactly. */
  predicate RatioLess(a: Channel, pa: nat, b: Channel, pb: nat) {
    a.recentlySent * pb < b.recentlySent * pa
  }

  /** One iteration of the scan in sendMsgPacket: look at channel i, keep the least ratio. */
  function ScanBest(cfg: seq<Descriptor>, ch: seq<Channel>, i: nat, best: Option<nat>): (r: Option<nat>)
    requires |ch| == |cfg| && i < |ch|
    requires best.Some? ==> best.value < |ch|
    ensures r.Some? ==> r.value < |ch|
    ensures r.None? <==> best.None? && !Pending(ch[i])
  {
    if !Pending(ch[i]) then best
    else if best.None? || RatioLess(ch[i], cfg[i].priority, ch[best.value], cfg[best.value].priority) then Some(i)
    else best
  }

  /** Where the send routine is. `sent` counts the packets of the current batch. */
  datatype Routine =
    | Waiting
    | Scanning(next: nat, best: Option<nat>, sent: nat)
    | Rearming
    | Stopped

  /**
   `uncounted[c]` senders have put a message into channel c's queue and not yet added to
   sendQueueSize; `toSignal` senders have done that and not yet offered the wake-up token.
   `accepted` and `delivered` are histories: what was queued, and what onReceive was given.
   `failed` is the channel whose packet a failing write lost.
   */
  datatype State = State(
    ch: seq<Channel>,
    uncounted: seq<nat>,
    toSignal: nat,
    token: bool,
    routine: Routine,
    wire: seq<Packet>,
    recving: seq<ByteString>,
    overflowed: bool,
    failed: Option<nat>,
    accepted: seq<seq<ByteString>>,
    delivered: seq<seq<ByteString>>)

  datatype Action =
    | Enqueue(c: nat, msg: ByteString)
    | Count(c: nat)
    | Signal
    | Wake
    | Scan
    | Exhausted
    | Write(size: nat)
    | WriteFails
    | Rearm
    | UpdateStats
    | Stop
    | Receive

  ghost predicate Shape(cfg: seq<Descriptor>, s: State) {
    && |s.ch| == |cfg| && |s.uncounted| == |cfg| && |s.recving| == |cfg|
    && |s.accepted| == |cfg| && |s.delivered| == |cfg|
    && (s.routine.Scanning? ==>
          && s.routine.next <= |cfg| && s.routine.sent < BATCH
          && (s.routine.best.Some? ==> s.routine.best.value < s.routine.next))
    && (forall k :: 0 <= k < |s.wire| ==> s.wire[k].chan < |cfg|)
  }

  function Init(cfg: seq<Descriptor>): State {
    State(seq(|cfg|, _ => FreshChannel), seq(|cfg|, _ => 0), 0, false, Waiting, [],
          seq(|cfg|, _ => []), false, None, seq(|cfg|, _ => []), seq(|cfg|, _ => []))
  }

  /** The send routine has scanned every channel. */
  predicate ScanDone(cfg: seq<Descriptor>, s: State) {
    s.routine.Scanning? && s.routine.next == |cfg|
  }

  ghost predicate Enabled(cfg: seq<Descriptor>, s: State, a: Action)
    requires Shape(cfg, s)
  {
    match a
    case Enqueue(c, msg) => c < |cfg| && |s.ch[c].queue| < cfg[c].sendCap
    case Count(c) => c < |cfg| && s.uncounted[c] > 0
    case Signal => s.toSignal > 0
    case Wake => s.routine.Waiting? && s.token
    case Scan => s.routine.Scanning? && s.routine.next < |cfg|
    case Exhausted => ScanDone(cfg, s) && s.routine.best.None?
    case Write(size) =>
      && ScanDone(cfg, s) && s.routine.best.Some?
      && var p := CutPacket(s.routine.best.value, s.ch[s.routine.best.value]);
      |p.bytes| < size <= |p.bytes| + MAX_OVERHEAD
    case WriteFails => ScanDone(cfg, s) && s.routine.best.Some?
    case Rearm => s.routine.Rearming?
    case UpdateStats => s.routine.Waiting?
    case Stop => s.routine.Waiting?
    case Receive => s.wire != [] && !s.overflowed
  }

  function ApplyScan(cfg: seq<Descriptor>, s: State): State
    requires |s.ch| == |cfg| && s.routine.Scanning? && s.routine.next < |cfg|
    requires s.routine.best.Some? ==> s.routine.best.value < |s.ch|
  {
    var i := s.routine.next;
    var best := ScanBest(cfg, s.ch, i, s.routine.best);
    s.(ch := s.ch[i := Load(s.ch[i])], routine := Scanning(i + 1, best, s.routine.sent))
  }

  function ApplyWrite(s: State, size: nat): State
    requires s.routine.Scanning? && s.routine.best.Some? && s.routine.best.value < |s.ch|
  {
    var c := s.routine.best.value;
    var ch := AfterCut(s.ch[c]);
    s.(wire := s.wire + [CutPacket(c, s.ch[c])],
       ch := s.ch[c := ch.(recentlySent := ch.recentlySent + size)],
       routine := if s.routine.sent + 1 == BATCH then Rearming else Scanning(0, None, s.routine.sent + 1))
  }

  function ApplyReceive(cfg: seq<Descriptor>, s: State): State
    requires s.wire != [] && s.wire[0].chan < |cfg|
    requires |s.recving| == |cfg| && |s.delivered| == |cfg|
  {
    var p := s.wire[0];
    match Accept(cfg[p.chan].recvCap, s.recving[p.chan], p)
    case Overflow => s.(overflowed := true)
    case Partial(rest) => s.(wire := s.wire[1..], recving := s.recving[p.chan := rest])
    case Complete(msg) =>
      s.(wire := s.wire[1..], recving := s.recving[p.chan := []],
         delivered := s.delivered[p.chan := s.delivered[p.chan] + [msg]])
  }

  ghost function Apply(cfg: seq<Descriptor>, s: State, a: Action): State
    requires Shape(cfg, s) && Enabled(cfg, s, a)
  {
    match a
    case Enqueue(c, msg) =>
      s.(ch := s.ch[c := s.ch[c].(queue := s.ch[c].queue + [msg])],
         uncounted := s.uncounted[c := s.uncounted[c] + 1],
         accepted := s.accepted[c := s.accepted[c] + [msg]])
    case Count(c) =>
      s.(ch := s.ch[c := s.ch[c].(size := s.ch[c].size + 1)],
         uncounted := s.uncounted[c := s.uncounted[c] - 1],
         toSignal := s.toSignal + 1)
    case Signal => s.(toSignal := s.toSignal - 1, token := true)
    case Wake => s.(token := false, routine := Scanning(0, None, 0))
    case Scan => ApplyScan(cfg, s)
    case Exhausted => s.(routine := Waiting)
    case Write(size) => ApplyWrite(s, size)
    case WriteFails =>
      var c := s.routine.best.value;
      s.(ch := s.ch[c := AfterCut(s.ch[c])], routine := Stopped, failed := Some(c))
    case Rearm => s.(token := true, routine := Waiting)
    case UpdateStats => s.(ch := seq(|s.ch|, c requires 0 <= c < |s.ch| => Decay(s.ch[c])))
    case Stop => s.(routine := Stopped)
    case Receive => ApplyReceive(cfg, s)
  }

  /** Every step keeps the state well formed. */
  lemma ApplyKeepsShape(cfg: seq<Descriptor>, s: State, a: Action)
    requires Shape(cfg, s) && Enabled(cfg, s, a)
    ensures Shape(cfg, Apply(cfg, s, a))
  {
  }

  /** A run: each action is enabled in the state its predecessors lead to. */
  ghost predicate ValidRun(cfg: seq<Descriptor>, s: State, run: seq<Action>)
    decreases |run|
  {
    && Shape(cfg, s)
    && (run != [] ==> Enabled(cfg, s, run[0]) && ValidRun(cfg, Apply(cfg, s, run[0]), run[1..]))
  }

  ghost function Final(cfg: seq<Descriptor>, s: State, run: seq<Action>): (t: State)
    requires ValidRun(cfg, s, run)
    ensures Shape(cfg, t)
    decreases |run|
  {
    if run == [] then s else Final(cfg, Apply(cfg, s, run[0]), run[1..])
  }

  ghost predicate Reachable(cfg: seq<Descriptor>, s: State) {
    exists run :: ValidRun(cfg, Init(cfg), run) && Final(cfg, Init(cfg), run) == s
  }

  lemma {:induction false} RunSnoc(cfg: seq<Descriptor>, s: State, run: seq<Action>, a: Action)
    requires ValidRun(cfg, s, run) && Enabled(cfg, Final(cfg, s, run), a)
    ensures ValidRun(cfg, s, run + [a])
    ensures Final(cfg, s, run + [a]) == Apply(cfg, Final(cfg, s, run), a)
    decreases |run|
  {
    if run == [] {
      assert run + [a] == [a];
      assert [a][1..] == [];
      ApplyKeepsShape(cfg, s, a);
    } else {
      assert (run + [a])[1..] == run[1..] + [a];
      RunSnoc(cfg, Apply(cfg, s, run[0]), run[1..], a);
    }
  }

  lemma {:induction false} RunConcat(cfg: seq<Descriptor>, s: State, run: seq<Action>, more: seq<Action>)
    requires ValidRun(cfg, s, run) && ValidRun(cfg, Final(cfg, s, run), more)
    ensures ValidRun(cfg, s, run + more)
    ensures Final(cfg, s, run + more) == Final(cfg, Final(cfg, s, run), more)
    decreases |run|
  {
    if run == [] {
      assert run + more == more;
    } else {
      assert (run + more)[1..] == run[1..] + more;
      RunConcat(cfg, Apply(cfg, s, run[0]), run[1..], more);
    }
  }

  lemma ReachableStep(cfg: seq<Descriptor>, s: State, a: Action)
    requires Reachable(cfg, s) && Shape(cfg, s) && Enabled(cfg, s, a)
    ensures Reachable(cfg, Apply(cfg, s, a))
  {
    var run :| ValidRun(cfg, Init(cfg), run) && Final(cfg, Init(cfg), run) == s;
    RunSnoc(cfg, Init(cfg), run, a);
  }

  lemma InitReachable(cfg: seq<Descriptor>)
    ensures Reachable(cfg, Init(cfg))
  {
    assert ValidRun(cfg, Init(cfg), []) && Final(cfg, Init(cfg), []) == Init(cfg);
  }
}
