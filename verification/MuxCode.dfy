/**
 The methods of Channel and MConnection, run by one goroutine at a time, proved against the functions the
 step system is made of.
 */
module MuxCode {
  import opened Bytes
  import opened MuxModel
  import opened Products

  /** The first i channels loaded, the others untouched. */
  function LoadTo(ch: seq<MuxModel.Channel>, i: nat): (r: seq<MuxModel.Channel>)
    requires i <= |ch|
  {
    seq(|ch|, k requires 0 <= k < |ch| => if k < i then Load(ch[k]) else ch[k])
  }

  /** The candidate after scanning the first i channels. */
  function BestTo(cfg: seq<Descriptor>, ch: seq<MuxModel.Channel>, i: nat): (r: Option<nat>)
    requires |ch| == |cfg| && i <= |ch|
    ensures r.Some? ==> r.value < i
  {
    if i == 0 then None else ScanBest(cfg, ch, i - 1, BestTo(cfg, ch, i - 1))
  }

  /** The scan chooses the first pending channel whose ratio no pending channel undercuts. */
  lemma {:induction false} BestIsLeast(cfg: seq<Descriptor>, ch: seq<MuxModel.Channel>, i: nat)
    requires ValidConfig(cfg) && |ch| == |cfg| && i <= |ch|
    ensures BestTo(cfg, ch, i).None? <==> forall j :: 0 <= j < i ==> !Pending(ch[j])
    ensures var r := BestTo(cfg, ch, i);
            r.Some? ==>
              var b := r.value;
              && Pending(ch[b])
              && (forall j :: 0 <= j < i && Pending(ch[j]) ==>
                    && !RatioLess(ch[j], cfg[j].priority, ch[b], cfg[b].priority)
                    && (j < b ==> RatioLess(ch[b], cfg[b].priority, ch[j], cfg[j].priority)))
  {
    if i > 0 {
      BestIsLeast(cfg, ch, i - 1);
      var prev := BestTo(cfg, ch, i - 1);
      if prev.Some? && BestTo(cfg, ch, i) == Some(i - 1) {
        var b := prev.value;
        forall j | 0 <= j < i - 1 && Pending(ch[j])
          ensures RatioLess(ch[i - 1], cfg[i - 1].priority, ch[j], cfg[j].priority)
        {
          LessThanLeast(ch[i - 1], cfg[i - 1].priority, ch[b], cfg[b].priority, ch[j], cfg[j].priority);
        }
      }
    }
  }

  lemma LessThanLeast(x: MuxModel.Channel, px: nat, b: MuxModel.Channel, pb: nat, y: MuxModel.Channel, py: nat)
    requires px > 0 && pb > 0 && py > 0
    requires RatioLess(x, px, b, pb) && !RatioLess(y, py, b, pb)
    ensures RatioLess(x, px, y, py)
  {
    var rx, rb, ry := x.recentlySent, b.recentlySent, y.recentlySent;
    if ry * px <= rx * py {
      calc {
        (ry * px) * pb;
      <= { MulMono(ry * px, rx * py, pb); }
        (rx * py) * pb;
        (rx * pb) * py;
      < { MulMonoStrict(rx * pb, rb * px, py); }
        (rb * px) * py;
        (rb * py) * px;
      <= { MulMono(rb * py, ry * pb, px); }
        (ry * pb) * px;
        (ry * px) * pb;
      }
    }
  }

  function Scans(n: nat): seq<Action> {
    seq(n, _ => Scan)
  }

  lemma LoadNext(ch: seq<MuxModel.Channel>, i: nat)
    requires i < |ch|
    ensures LoadTo(ch, i)[i] == ch[i] && LoadTo(ch, i)[i := Load(ch[i])] == LoadTo(ch, i + 1)
  {
  }

  /** The channels that the scan has loaded already compare as before. */
  lemma LoadedCompare(cfg: seq<Descriptor>, ch: seq<MuxModel.Channel>, i: nat, best: Option<nat>)
    requires |ch| == |cfg| && i < |ch| && (best.Some? ==> best.value < i)
    ensures ScanBest(cfg, LoadTo(ch, i), i, best) == ScanBest(cfg, ch, i, best)
  {
    assert LoadTo(ch, i)[i] == ch[i];
    assert best.Some? ==> LoadTo(ch, i)[best.value] == Load(ch[best.value]);
  }

  /** The state in which the scan has passed the first i channels. */
  function Scanned(cfg: seq<Descriptor>, s: State, start: seq<MuxModel.Channel>, i: nat): State
    requires s.routine.Scanning? && |start| == |cfg| && i <= |cfg|
  {
    s.(ch := LoadTo(start, i), routine := Scanning(i, BestTo(cfg, start, i), s.routine.sent))
  }

  lemma ScannedNext(cfg: seq<Descriptor>, s: State, start: seq<MuxModel.Channel>, i: nat)
    requires Shape(cfg, s) && s.routine.Scanning? && |start| == |cfg| && i < |cfg|
    ensures Shape(cfg, Scanned(cfg, s, start, i)) && Shape(cfg, Scanned(cfg, s, start, i + 1))
    ensures Apply(cfg, Scanned(cfg, s, start, i), Scan) == Scanned(cfg, s, start, i + 1)
  {
    LoadNext(start, i);
    LoadedCompare(cfg, start, i, BestTo(cfg, start, i));
  }

  /** Left alone, the step system's scan loads every channel and finds the same candidate. */
  lemma {:induction false} UninterruptedScan(cfg: seq<Descriptor>, s: State, start: seq<MuxModel.Channel>, i: nat)
    requires Shape(cfg, s) && s.routine.Scanning? && |start| == |cfg| && i <= |cfg|
    ensures ValidRun(cfg, Scanned(cfg, s, start, i), Scans(|cfg| - i))
    ensures Final(cfg, Scanned(cfg, s, start, i), Scans(|cfg| - i)) == Scanned(cfg, s, start, |cfg|)
    decreases |cfg| - i
  {
    if i < |cfg| {
      ScannedNext(cfg, s, start, i);
      UninterruptedScan(cfg, s, start, i + 1);
      assert Scans(|cfg| - i)[0] == Scan && Scans(|cfg| - i)[1..] == Scans(|cfg| - (i + 1));
    }
  }

  /** What writing a packet adds to its bytes. */
  type Overhead = n: nat | 0 < n <= MAX_OVERHEAD witness 1

  /** What one sendMsgPacket makes of the channels, the packets it writes, and the step it ends with. */
  datatype Sent = Sent(ch: seq<MuxModel.Channel>, packets: seq<Packet>, last: Action)

  function SendOne(cfg: seq<Descriptor>, ch: seq<MuxModel.Channel>, overhead: Option<Overhead>): (r: Sent)
    requires |ch| == |cfg|
    ensures |r.ch| == |cfg|
  {
    var best, loaded := BestTo(cfg, ch, |cfg|), LoadTo(ch, |cfg|);
    if best.None? then Sent(loaded, [], Exhausted)
    else
      var b := best.value;
      var cut, p := AfterCut(loaded[b]), CutPacket(b, loaded[b]);
      if overhead.None? then Sent(loaded[b := cut], [], WriteFails)
      else
        var size := |p.bytes| + overhead.value;
        Sent(loaded[b := cut.(recentlySent := cut.recentlySent + size)], [p], Write(size))
  }

  /** One sendMsgPacket as steps: scan every channel, then write, fail or find nothing. */
  ghost function PacketActions(cfg: seq<Descriptor>, ch: seq<MuxModel.Channel>, overhead: Option<Overhead>): seq<Action>
    requires |ch| == |cfg|
  {
    Scans(|cfg|) + [SendOne(cfg, ch, overhead).last]
  }

  ghost predicate AtScanStart(cfg: seq<Descriptor>, s: State) {
    Shape(cfg, s) && s.routine.Scanning? && s.routine.next == 0 && s.routine.best == None
  }

  /** Where the send routine is after a packet. */
  function AfterPacket(last: Action, sent: nat): Routine {
    if last == Exhausted then Waiting else if last == WriteFails then Stopped
    else if sent + 1 == BATCH then Rearming else Scanning(0, None, sent + 1)
  }

  /** Two states with the same senders on their way to the token. */
  predicate SameSenders(s: State, t: State) {
    t.uncounted == s.uncounted && t.toSignal == s.toSignal
  }

  /** No sender has moved in between. */
  predicate NoSending(s: State, t: State) {
    SameSenders(s, t) && t.accepted == s.accepted
  }

  lemma {:induction false} PacketRun(cfg: seq<Descriptor>, s: State, overhead: Option<Overhead>)
    requires AtScanStart(cfg, s)
    ensures var acts, r := PacketActions(cfg, s.ch, overhead), SendOne(cfg, s.ch, overhead);
            && ValidRun(cfg, s, acts)
            && var t := Final(cfg, s, acts);
               && t.ch == r.ch && t.wire == s.wire + r.packets && t.token == s.token && NoSending(s, t)
               && t.routine == AfterPacket(r.last, s.routine.sent)
  {
    assert LoadTo(s.ch, 0) == s.ch;
    assert Scanned(cfg, s, s.ch, 0) == s;
    UninterruptedScan(cfg, s, s.ch, 0);
    var a := SendOne(cfg, s.ch, overhead).last;
    LastStep(cfg, s, overhead);
    RunSnoc(cfg, s, Scans(|cfg|), a);
  }

  /** The step after a finished scan. */
  lemma {:induction false} LastStep(cfg: seq<Descriptor>, s: State, overhead: Option<Overhead>)
    requires AtScanStart(cfg, s)
    ensures var best := BestTo(cfg, s.ch, |cfg|);
            var u := s.(ch := LoadTo(s.ch, |cfg|), routine := Scanning(|cfg|, best, s.routine.sent));
            var r := SendOne(cfg, s.ch, overhead);
            && Shape(cfg, u) && Enabled(cfg, u, r.last)
            && var t := Apply(cfg, u, r.last);
               && t.ch == r.ch && t.wire == s.wire + r.packets && t.token == s.token && NoSending(s, t)
               && t.routine == AfterPacket(r.last, s.routine.sent)
  {
    assert s.wire + [] == s.wire;
  }

  /** However much a channel has sent, that many updates without further packets clear its account. */
  lemma {:induction false} AccountFades(ch: MuxModel.Channel, n: nat)
    requires n >= ch.recentlySent
    ensures Decays(ch, n).recentlySent == 0
    decreases n
  {
    if n > 0 {
      AccountFades(Decay(ch), n - 1);
    }
  }

  function Decays(ch: MuxModel.Channel, n: nat): MuxModel.Channel
    decreases n
  {
    if n == 0 then ch else Decays(Decay(ch), n - 1)
  }

  lemma {:induction false} SendRun(cfg: seq<Descriptor>, s: State, c: nat, msg: ByteString)
    requires Shape(cfg, s) && c < |cfg| && |s.ch[c].queue| < cfg[c].sendCap
    ensures var acts := [Enqueue(c, msg), Count(c), Signal];
            && ValidRun(cfg, s, acts)
            && var t := Final(cfg, s, acts);
               && t.ch == s.ch[c := s.ch[c].(queue := s.ch[c].queue + [msg], size := s.ch[c].size + 1)]
               && t.token && t.wire == s.wire && t.routine == s.routine && SameSenders(s, t)
  {
    var a, b := Enqueue(c, msg), Count(c);
    var t := Apply(cfg, s, a);
    ApplyKeepsShape(cfg, s, a);
    var u := Apply(cfg, t, b);
    ApplyKeepsShape(cfg, t, b);
    ApplyKeepsShape(cfg, u, Signal);
    assert [a, b, Signal][1..] == [b, Signal] && [b, Signal][1..] == [Signal] && [Signal][1..] == [];
    assert ValidRun(cfg, u, [Signal]) && ValidRun(cfg, t, [b, Signal]);
    assert Final(cfg, u, [Signal]) == Apply(cfg, u, Signal);
    assert Final(cfg, t, [b, Signal]) == Final(cfg, u, [Signal]);
  }

  /** A message as onReceive gets it: a slice of the channel's receive buffer. */
  datatype Slice = Slice(buf: array<Byte>, len: nat)

  class Channel {
    const id: nat
    const desc: Descriptor
    var sendQueue: seq<ByteString>
    var sendQueueSize: int
    var sending: ByteString
    var recentlySent: nat
    /** `recving` is recvBuf[..recvLen]; the capacity is recvBuf.Length. */
    var recvBuf: array<Byte>
    var recvLen: nat

    constructor (id: nat, desc: Descriptor, recvBufferCapacity: nat)
      ensures this.id == id && this.desc == desc && View() == FreshChannel
      ensures ValidRecv() && fresh(recvBuf) && recvBuf.Length == recvBufferCapacity && Recving() == []
    {
      this.id := id;
      this.desc := desc;
      sendQueue := [];
      sendQueueSize := 0;
      sending := [];
      recentlySent := 0;
      recvBuf := new Byte[recvBufferCapacity](_ => 0);
      recvLen := 0;
    }

    ghost function View(): MuxModel.Channel
      reads this
    {
      MuxModel.Channel(sendQueue, sending, sendQueueSize, recentlySent)
    }

    ghost predicate ValidRecv()
      reads this
    {
      recvLen <= recvBuf.Length
    }

    ghost function Recving(): ByteString
      requires ValidRecv()
      reads this, recvBuf
    {
      recvBuf[..recvLen]
    }

    /** sendBytes: waits for room until it times out. The wait ends with room, or with nothing changed. */
    method SendBytes(bytes: ByteString, timesOut: bool) returns (ok: bool)
      requires !timesOut ==> |sendQueue| < desc.sendCap
      modifies this`sendQueue, this`sendQueueSize
      ensures ok == !timesOut
      ensures View() == if ok then old(View()).(queue := old(sendQueue) + [bytes], size := old(sendQueueSize) + 1)
                        else old(View())
    {
      if timesOut {
        return false;
      }
      ok := TrySendBytes(bytes);
    }

    method TrySendBytes(bytes: ByteString) returns (ok: bool)
      modifies this`sendQueue, this`sendQueueSize
      ensures ok <==> |old(sendQueue)| < desc.sendCap
      ensures View() == if ok then old(View()).(queue := old(sendQueue) + [bytes], size := old(sendQueueSize) + 1)
                        else old(View())
    {
      if |sendQueue| < desc.sendCap {
        sendQueue := sendQueue + [bytes];
        sendQueueSize := sendQueueSize + 1;
        return true;
      }
      return false;
    }

    method IsSendPending() returns (pending: bool)
      modifies this`sendQueue, this`sending
      ensures pending == Pending(old(View()))
      ensures View() == Load(old(View()))
    {
      if |sending| == 0 {
        if |sendQueue| == 0 {
          return false;
        }
        sending, sendQueue := sendQueue[0], sendQueue[1..];
      }
      return true;
    }

    method NextMsgPacket() returns (packet: Packet)
      modifies this`sending, this`sendQueueSize
      ensures packet == CutPacket(id, old(View()))
      ensures View() == AfterCut(old(View()))
    {
      var n := if MAX_PAYLOAD < |sending| then MAX_PAYLOAD else |sending|;
      packet := Packet(id, false, sending[..n]);
      if |sending| <= MAX_PAYLOAD {
        packet := packet.(eof := true);
        assert sending[..n] == sending;
        sending := [];
        sendQueueSize := sendQueueSize - 1;
      } else {
        sending := sending[n..];
      }
    }

    /** updateStats takes at least a fifth off, and never more than rounding adds to that; a positive account always
        shrinks, and what is queued stays. */
    method UpdateStats()
      modifies this`recentlySent
      ensures 5 * recentlySent <= 4 * old(recentlySent) < 5 * recentlySent + 5
      ensures old(recentlySent) > 0 ==> recentlySent < old(recentlySent)
      ensures View() == old(View()).(recentlySent := recentlySent) && Pending(View()) == Pending(old(View()))
      ensures View() == Decay(old(View()))
    {
      recentlySent := recentlySent * 4 / 5;
    }

    /** append to `recving`: in place when the capacity allows, else in a larger copy. */
    method AppendBytes(bytes: ByteString)
      requires ValidRecv()
      modifies this`recvBuf, this`recvLen, recvBuf
      ensures ValidRecv() && recvLen == old(recvLen) + |bytes| && Recving() == old(Recving()) + bytes
      ensures recvBuf == old(recvBuf) || fresh(recvBuf)
      ensures recvBuf == old(recvBuf) <==> old(recvLen) + |bytes| <= old(recvBuf.Length)
      ensures recvBuf == old(recvBuf) ==>
                forall k :: 0 <= k < recvBuf.Length ==>
                  recvBuf[k] == if old(recvLen) <= k < old(recvLen) + |bytes| then bytes[k - old(recvLen)]
                                else old(recvBuf[k])
      ensures recvBuf != old(recvBuf) ==> old(recvBuf)[..] == old(recvBuf[..])
    {
      ghost var all := Recving() + bytes;
      var total := recvLen + |bytes|;
      if total <= recvBuf.Length {
        forall k | 0 <= k < |bytes| {
          recvBuf[recvLen + k] := bytes[k];
        }
      } else {
        var grown := new Byte[2 * total];
        forall k | 0 <= k < grown.Length {
          grown[k] := if k < recvLen then recvBuf[k] else if k < total then bytes[k - recvLen] else 0;
        }
        recvBuf := grown;
      }
      recvLen := total;
      forall k | 0 <= k < total ensures recvBuf[k] == all[k] {
      }
      assert Recving() == all;
    }

    /** recvMsgPacket: append in place when the capacity allows, else into a larger buffer. A completed message
        is returned as a slice of the buffer, which the channel then reuses from the start. */
    method RecvMsgPacket(packet: Packet) returns (r: Received, msg: Slice)
      requires ValidRecv()
      modifies this`recvBuf, this`recvLen, recvBuf
      ensures ValidRecv()
      ensures r == Accept(desc.recvCap, old(Recving()), packet)
      ensures r.Overflow? <==> old(recvLen) + |packet.bytes| > desc.recvCap
      ensures !r.Overflow? ==>
                var all := old(Recving()) + packet.bytes; r == if packet.eof then Complete(all) else Partial(all)
      ensures recvBuf == old(recvBuf) || fresh(recvBuf)
      ensures recvBuf == old(recvBuf) <==> r.Overflow? || old(recvLen) + |packet.bytes| <= old(recvBuf.Length)
      ensures r.Overflow? ==> recvLen == old(recvLen)
      ensures recvBuf == old(recvBuf) && !r.Overflow? ==>
                forall k :: 0 <= k < recvBuf.Length ==>
                  recvBuf[k] == if old(recvLen) <= k < old(recvLen) + |packet.bytes| then packet.bytes[k - old(recvLen)]
                                else old(recvBuf[k])
      ensures recvBuf != old(recvBuf) || r.Overflow? ==> old(recvBuf)[..] == old(recvBuf[..])
      ensures r.Partial? ==> Recving() == r.recving
      ensures r.Complete? ==>
                recvLen == 0 && msg.buf == recvBuf && msg.len <= msg.buf.Length && msg.buf[..msg.len] == r.msg
    {
      msg := Slice(recvBuf, 0);
      if desc.recvCap < recvLen + |packet.bytes| {
        return Overflow, msg;
      }
      AppendBytes(packet.bytes);
      if packet.eof {
        msg := Slice(recvBuf, recvLen);
        r := Complete(msg.buf[..msg.len]);
        recvLen := 0;
      } else {
        r := Partial(recvBuf[..recvLen]);
      }
    }
  }

  /** Two byte strings agree as far as both go. */
  predicate Overlap(a: ByteString, b: ByteString) {
    forall k :: 0 <= k < |a| && k < |b| ==> a[k] == b[k]
  }

  lemma Overwritten(msg: ByteString, bytes: ByteString, now: ByteString)
    requires |now| == |msg| && forall k :: 0 <= k < |msg| ==> now[k] == if k < |bytes| then bytes[k] else msg[k]
    ensures now == msg <==> Overlap(bytes, msg)
  {
    if Overlap(bytes, msg) {
      assert forall k :: 0 <= k < |msg| ==> now[k] == msg[k];
    }
    if now == msg {
      assert forall k :: 0 <= k < |bytes| && k < |msg| ==> bytes[k] == now[k];
    }
  }

  /** The next packet over a message that is still a slice of the receive buffer. */
  method ReceiveOver(ch: Channel, kept: Slice, ghost msg: ByteString, packet: Packet)
    requires ch.ValidRecv() && ch.recvLen == 0 && kept.buf == ch.recvBuf
    requires kept.len == |msg| <= kept.buf.Length && kept.buf[..kept.len] == msg
    modifies ch`recvBuf, ch`recvLen, ch.recvBuf
    ensures kept.buf[..kept.len] == msg <==>
            |packet.bytes| > ch.desc.recvCap || |packet.bytes| > kept.buf.Length || Overlap(packet.bytes, msg)
  {
    ghost var before := kept.buf[..];
    assert before[..kept.len] == msg;
    assert ch.Recving() == [];
    var r, next := ch.RecvMsgPacket(packet);
    ghost var now := kept.buf[..kept.len];
    if |packet.bytes| <= ch.desc.recvCap && |packet.bytes| <= kept.buf.Length {
      assert forall k :: 0 <= k < |msg| ==> now[k] == if k < |packet.bytes| then packet.bytes[k] else before[k];
      Overwritten(msg, packet.bytes, now);
    } else {
      assert kept.buf[..] == before && now == before[..kept.len];
    }
  }

  /** What becomes of the slice given to onReceive when the channel handles its next packet, of any message: it keeps
      its contents exactly if that packet is refused, or does not fit the buffer, or has the same bytes. */
  method KeptMessageIntactIff(ch: Channel, first: Packet, second: Packet) returns (kept: Slice)
    requires ch.ValidRecv() && first.eof && |ch.Recving()| + |first.bytes| <= ch.desc.recvCap
    modifies ch`recvBuf, ch`recvLen, ch.recvBuf
    ensures kept.len == |old(ch.Recving())| + |first.bytes| <= kept.buf.Length
    ensures kept.buf[..kept.len] == old(ch.Recving()) + first.bytes <==>
            || |second.bytes| > ch.desc.recvCap
            || |second.bytes| > kept.buf.Length
            || Overlap(second.bytes, old(ch.Recving()) + first.bytes)
  {
    ghost var msg := ch.Recving() + first.bytes;
    var r;
    r, kept := ch.RecvMsgPacket(first);
    assert kept.buf[..kept.len] == msg && |kept.buf[..kept.len]| == kept.len;
    ReceiveOver(ch, kept, msg, second);
  }

  /** In a channel's one-byte buffer, the packet [2] overwrites the message [1] that onReceive has kept. */
  method KeptMessageOverwritten() returns (first: Received, kept: Slice)
    ensures first == Complete([1]) && kept.len == 1 <= kept.buf.Length && kept.buf[..kept.len] == [2]
  {
    var ch := new Channel(0, Descriptor(1, 1, 1), 1);
    first, kept := ch.RecvMsgPacket(Packet(0, true, [1]));
    assert [] + [1] == [1];
    var second, next := ch.RecvMsgPacket(Packet(0, true, [2]));
    assert kept.buf[..kept.len] == [2];
  }

  const DEFAULT_SEND_QUEUE: nat := 1
  const DEFAULT_RECV_BUFFER: nat := 4096
  const DEFAULT_RECV_MESSAGE: nat := 22020096

  /** A ChannelDescriptor as the caller gives it; a capacity of zero stands for the default. */
  datatype ChannelDescriptor = ChannelDescriptor(priority: nat, sendQueue: nat, recvBuffer: nat, recvMessage: nat)

  function FillDefaults(d: ChannelDescriptor): ChannelDescriptor {
    ChannelDescriptor(d.priority, if d.sendQueue == 0 then DEFAULT_SEND_QUEUE else d.sendQueue,
                      if d.recvBuffer == 0 then DEFAULT_RECV_BUFFER else d.recvBuffer,
                      if d.recvMessage == 0 then DEFAULT_RECV_MESSAGE else d.recvMessage)
  }

  lemma DefaultsFilled(d: ChannelDescriptor)
    ensures var f := FillDefaults(d);
            && f.priority == d.priority
            && f.sendQueue == (if d.sendQueue > 0 then d.sendQueue else 1)
            && f.recvBuffer == (if d.recvBuffer > 0 then d.recvBuffer else 4096)
            && f.recvMessage == (if d.recvMessage > 0 then d.recvMessage else 22020096)
            && DescriptorOf(d) == Descriptor(f.priority, f.sendQueue, f.recvMessage)
  {
  }

  function DescriptorOf(d: ChannelDescriptor): Descriptor {
    var f := FillDefaults(d);
    Descriptor(f.priority, f.sendQueue, f.recvMessage)
  }

  function ConfigOf(descs: seq<ChannelDescriptor>): seq<Descriptor> {
    seq(|descs|, i requires 0 <= i < |descs| => DescriptorOf(descs[i]))
  }

  class MConnection {
    const channels: seq<Channel>
    ghost const cfg: seq<Descriptor>
    /** The one-slot channel `send`: true when the slot is taken. */
    var token: bool
    var running: bool
    /** What bufWriter has been given. */
    var wire: seq<Packet>

    ghost predicate Valid() {
      && ValidConfig(cfg) && |cfg| == |channels|
      && (forall i :: 0 <= i < |channels| ==> channels[i].id == i && channels[i].desc == cfg[i])
    }

    ghost function Views(): (v: seq<MuxModel.Channel>)
      reads channels
      ensures |v| == |channels|
    {
      seq(|channels|, i requires 0 <= i < |channels| reads channels => channels[i].View())
    }

    /** NewMConnectionWithConfig, which panics on a priority of zero: a new connection is in the step system's initial
        state. */
    constructor (descs: seq<ChannelDescriptor>)
      requires forall i :: 0 <= i < |descs| ==> descs[i].priority > 0
      ensures Valid() && cfg == ConfigOf(descs) && !running
      ensures Views() == Init(cfg).ch && token == Init(cfg).token && wire == Init(cfg).wire
      ensures forall i :: 0 <= i < |channels| ==>
                && fresh(channels[i]) && channels[i].ValidRecv() && channels[i].Recving() == []
                && channels[i].recvBuf.Length == FillDefaults(descs[i]).recvBuffer
    {
      var made: seq<Channel> := [];
      for i := 0 to |descs|
        invariant |made| == i
        invariant forall k :: 0 <= k < i ==>
                    && fresh(made[k]) && made[k].id == k && made[k].desc == DescriptorOf(descs[k])
                    && made[k].View() == FreshChannel && made[k].ValidRecv() && made[k].Recving() == []
                    && made[k].recvBuf.Length == FillDefaults(descs[k]).recvBuffer
      {
        var channel := new Channel(i, DescriptorOf(descs[i]), FillDefaults(descs[i]).recvBuffer);
        made := made + [channel];
      }
      channels, cfg := made, ConfigOf(descs);
      token, running, wire := false, false, [];
      new;
      assert Views() == Init(cfg).ch;
    }

    /** OnStart, from which the send routine waits for the token. */
    method OnStart()
      modifies this`running
      ensures running
    {
      running := true;
    }

    /** The send routine's turn when the statistics timer fires. */
    method UpdateAllStats()
      requires Valid()
      modifies channels
      ensures Views() == seq(|channels|, i requires 0 <= i < |channels| => Decay(old(Views())[i]))
    {
      ghost var v := Views();
      for i := 0 to |channels|
        modifies channels
        invariant forall k :: 0 <= k < |channels| ==> channels[k].View() == if k < i then Decay(v[k]) else v[k]
      {
        assert forall k :: 0 <= k < |channels| && k != i ==> channels[k] != channels[i];
        channels[i].UpdateStats();
      }
    }

    /** Send and TrySend: refuse when stopped or the channel is unknown, else queue and wake. In a state s of the step
        system a successful call is its three steps: enqueue, count, signal. */
    method TrySend(chID: nat, bytes: ByteString, ghost s: State) returns (ok: bool)
      requires Valid() && Shape(cfg, s) && s.ch == Views() && s.token == token
      modifies this`token, channels
      ensures ok <==> running && chID < |channels| && |s.ch[chID].queue| < cfg[chID].sendCap
      ensures ok ==> var acts := [Enqueue(chID, bytes), Count(chID), Signal];
                     && ValidRun(cfg, s, acts)
                     && var t := Final(cfg, s, acts);
                        && Views() == t.ch && token == t.token && t.wire == s.wire && t.routine == s.routine
                        && SameSenders(s, t)
      ensures !ok ==> Views() == s.ch && token == s.token
    {
      if !running || chID >= |channels| {
        return false;
      }
      assert channels[chID].View() == s.ch[chID];
      ok := channels[chID].TrySendBytes(bytes);
      if ok {
        SendRun(cfg, s, chID, bytes);
        token := true;
        assert Views() == s.ch[chID := channels[chID].View()];
      }
    }

    /** One turn of the scan: load the channel and compare its ratio with the candidate's. */
    method Consider(i: nat, best: Option<nat>, ghost v: seq<MuxModel.Channel>) returns (r: Option<nat>)
      requires Valid() && i < |channels| == |v| && Views() == LoadTo(v, i) && best == BestTo(cfg, v, i)
      modifies channels[i]
      ensures Views() == LoadTo(v, i + 1) && r == BestTo(cfg, v, i + 1)
    {
      var channel := channels[i];
      assert channel.View() == Views()[i] == v[i];
      assert best.Some? ==> channels[best.value].View() == Views()[best.value] == Load(v[best.value]);
      var pending := channel.IsSendPending();
      forall k | 0 <= k < |channels| ensures Views()[k] == LoadTo(v, i + 1)[k] {
        assert k != i ==> channels[k] != channel && old(Views())[k] == LoadTo(v, i)[k];
      }
      assert Views() == LoadTo(v, i + 1);
      if !pending {
        return best;
      }
      if best.None? {
        return Some(i);
      }
      var least := channels[best.value];
      if channel.recentlySent * least.desc.priority < least.recentlySent * channel.desc.priority {
        return Some(i);
      }
      return best;
    }

    /** The scan of sendMsgPacket. */
    method LeastChannel() returns (best: Option<nat>)
      requires Valid()
      modifies channels
      ensures Views() == LoadTo(old(Views()), |channels|)
      ensures best == BestTo(cfg, old(Views()), |channels|)
    {
      ghost var v := Views();
      best := None;
      for i := 0 to |channels|
        modifies channels
        invariant Views() == LoadTo(v, i)
        invariant best == BestTo(cfg, v, i)
      {
        best := Consider(i, best, v);
      }
    }

    /** The body of sendMsgPacket. `overhead` is what the writer adds to the packet's bytes, or nothing when the write
        fails. */
    method TransmitOne(overhead: Option<Overhead>) returns (exhausted: bool)
      requires Valid()
      modifies this`wire, this`running, channels
      ensures var r := SendOne(cfg, old(Views()), overhead);
              && Views() == r.ch && wire == old(wire) + r.packets
              && running == (old(running) && r.last != WriteFails)
              && (exhausted <==> !r.last.Write?)
    {
      var best := LeastChannel();
      if best.None? {
        assert wire + [] == wire;
        return true;
      }
      ghost var b, loaded := best.value, Views();
      var c := channels[best.value];
      assert c.View() == loaded[b];
      var packet := c.NextMsgPacket();
      if overhead.None? {
        running := false;
        assert Views() == loaded[b := AfterCut(loaded[b])];
        assert wire + [] == wire;
        return true;
      }
      wire := wire + [packet];
      c.recentlySent := c.recentlySent + (|packet.bytes| + overhead.value);
      return false;
    }

    /** sendMsgPacket returns true when there was nothing to send or the write failed. Started in a state s of the step
        system, the call is a scan of all channels and one more step. */
    method SendMsgPacket(overhead: Option<Overhead>, ghost s: State) returns (exhausted: bool, ghost sent: seq<Packet>)
      requires Valid() && AtScanStart(cfg, s) && s.ch == Views()
      modifies this`wire, this`running, channels
      ensures var acts := PacketActions(cfg, s.ch, overhead);
              && ValidRun(cfg, s, acts)
              && var t := Final(cfg, s, acts);
                 && Views() == t.ch && wire == old(wire) + sent && t.wire == s.wire + sent
                 && running == (old(running) && !t.routine.Stopped?)
                 && (exhausted <==> t.routine.Waiting? || t.routine.Stopped?)
      ensures sent == SendOne(cfg, s.ch, overhead).packets && |sent| == if exhausted then 0 else 1
    {
      PacketRun(cfg, s, overhead);
      sent := SendOne(cfg, s.ch, overhead).packets;
      exhausted := TransmitOne(overhead);
    }

    /** sendSomeMsgPackets followed by the send routine's re-arming of the token. Started where the routine has just
        been woken, the call is a run of the step system that ends with the routine waiting again, or stopped by a
        failed write; a false result means a full batch, a true one in a running connection that nothing is pending. */
    method SendSome(overheads: seq<Option<Overhead>>, ghost s: State)
      returns (eof: bool, ghost acts: seq<Action>, ghost sent: seq<Packet>)
      requires Valid() && |overheads| == BATCH && running
      requires AtScanStart(cfg, s) && s.ch == Views() && s.routine.sent == 0 && s.token == token
      modifies this`wire, this`running, this`token, channels
      ensures ValidRun(cfg, s, acts)
      ensures var t := Final(cfg, s, acts);
              && Views() == t.ch && token == t.token && wire == old(wire) + sent && t.wire == s.wire + sent
              && (if running then t.routine.Waiting? else t.routine.Stopped?) && NoSending(s, t)
      ensures !eof ==> running && |sent| == BATCH && token
      ensures eof && running ==> forall i :: 0 <= i < |channels| ==> !Pending(Views()[i])
    {
      acts, sent := [], [];
      ghost var t := s;
      assert s.wire + [] == s.wire && wire + [] == wire;
      for i := 0 to BATCH
        invariant running && token == old(token) && |sent| == i
        invariant t.ch == Views() && wire == old(wire) + sent
        invariant RunTo(cfg, s, acts, sent, t)
        invariant t.routine == if i == BATCH then Rearming else Scanning(0, None, i)
      {
        var exhausted;
        exhausted, acts, sent, t := SendNext(overheads[i], s, acts, sent, t, old(wire));
        if exhausted {
          return true, acts, sent;
        }
      }
      RunSnoc(cfg, s, acts, Rearm);
      acts := acts + [Rearm];
      token := true;
      return false, acts, sent;
    }

    /** One turn of the batch loop, continuing the run from s. */
    method SendNext(overhead: Option<Overhead>, ghost s: State, ghost acts: seq<Action>, ghost sent: seq<Packet>,
                    ghost t: State, ghost start: seq<Packet>)
      returns (exhausted: bool, ghost acts': seq<Action>, ghost sent': seq<Packet>, ghost t': State)
      requires Valid() && RunTo(cfg, s, acts, sent, t) && AtScanStart(cfg, t) && t.ch == Views()
      requires wire == start + sent && running
      modifies this`wire, this`running, channels
      ensures RunTo(cfg, s, acts', sent', t') && t'.ch == Views() && wire == start + sent'
      ensures exhausted ==> (if running then t'.routine.Waiting? else t'.routine.Stopped?)
      ensures exhausted && running ==> forall i :: 0 <= i < |channels| ==> !Pending(Views()[i])
      ensures !exhausted ==> running && |sent'| == |sent| + 1
      ensures !exhausted ==>
                t'.routine == if t.routine.sent + 1 == BATCH then Rearming else Scanning(0, None, t.routine.sent + 1)
    {
      BatchStep(cfg, s, acts, sent, t, overhead);
      ghost var more := PacketActions(cfg, t.ch, overhead);
      ghost var p;
      exhausted, p := SendMsgPacket(overhead, t);
      Assoc(start, sent, p);
      acts', sent', t' := acts + more, sent + p, Final(cfg, t, more);
    }
  }

  /** The actions lead from s to t and write the packets `sent`; the token stays as it was. */
  ghost predicate RunTo(cfg: seq<Descriptor>, s: State, acts: seq<Action>, sent: seq<Packet>, t: State) {
    && ValidRun(cfg, s, acts) && t == Final(cfg, s, acts)
    && t.wire == s.wire + sent && t.token == s.token && NoSending(s, t)
  }

  /** One more packet continues such a run; if it finds nothing, nothing is pending afterwards. */
  lemma {:induction false} BatchStep(cfg: seq<Descriptor>, s: State, acts: seq<Action>, sent: seq<Packet>, t: State,
                                     overhead: Option<Overhead>)
    requires ValidConfig(cfg) && RunTo(cfg, s, acts, sent, t) && AtScanStart(cfg, t)
    ensures var more, r := PacketActions(cfg, t.ch, overhead), SendOne(cfg, t.ch, overhead);
            && ValidRun(cfg, t, more)
            && var u := Final(cfg, t, more);
               && RunTo(cfg, s, acts + more, sent + r.packets, u) && u.ch == r.ch
               && u.routine == AfterPacket(r.last, t.routine.sent)
               && (u.routine.Waiting? ==> forall i :: 0 <= i < |cfg| ==> !Pending(u.ch[i]))
  {
    var more, r := PacketActions(cfg, t.ch, overhead), SendOne(cfg, t.ch, overhead);
    PacketRun(cfg, t, overhead);
    RunConcat(cfg, s, acts, more);
    Assoc(s.wire, sent, r.packets);
    BestIsLeast(cfg, t.ch, |cfg|);
  }
}
