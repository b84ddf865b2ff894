/**
 Bounded passing-over: a channel that has data waiting sees only a bounded number of packets of other channels go
 first, a bound that each update of the statistics raises by at most a quota that the waiting channel fixes.
 */
module MuxFairness {
  import opened Bytes
  import opened MuxModel
  import opened Products
  import opened Totals

  /** Bytes channel j may still send before its ratio exceeds channel c's, plus one. */
  function Room(cfg: seq<Descriptor>, ch: seq<Channel>, c: nat, j: nat): nat
    requires |ch| == |cfg| && c < |cfg| && j < |cfg| && cfg[c].priority > 0
  {
    var limit := Share(ch[c].recentlySent, cfg[j].priority, cfg[c].priority);
    if j == c || limit < ch[j].recentlySent then 0 else limit + 1 - ch[j].recentlySent
  }

  function Rooms(cfg: seq<Descriptor>, ch: seq<Channel>, c: nat): seq<nat>
    requires |ch| == |cfg| && c < |cfg| && cfg[c].priority > 0
  {
    seq(|cfg|, j requires 0 <= j < |cfg| => Room(cfg, ch, c, j))
  }

  /** A scan that has passed c holds a candidate whose ratio is at most c's. */
  predicate Respects(cfg: seq<Descriptor>, s: State, c: nat)
    requires |s.ch| == |cfg| && c < |cfg|
    requires s.routine.Scanning? && s.routine.best.Some? ==> s.routine.best.value < |cfg|
  {
    s.routine.Scanning? && s.routine.next > c ==>
      && s.routine.best.Some?
      && !RatioLess(s.ch[c], cfg[c].priority, s.ch[s.routine.best.value], cfg[s.routine.best.value].priority)
  }

  /** How many packets of other channels can still go before c's next one. A scan already past c when c got
      its data is good for one more. */
  ghost function Allowance(cfg: seq<Descriptor>, s: State, c: nat): nat
    requires Shape(cfg, s) && c < |cfg| && cfg[c].priority > 0
  {
    Total(Rooms(cfg, s.ch, c)) + if Respects(cfg, s, c) then 0 else 1
  }

  lemma RatioTransitive(i: Channel, pi: nat, b: Channel, pb: nat, c: Channel, pc: nat)
    requires pb > 0
    requires RatioLess(i, pi, b, pb) && !RatioLess(c, pc, b, pb)
    ensures !RatioLess(c, pc, i, pi)
  {
    var ri, rb, rc := i.recentlySent, b.recentlySent, c.recentlySent;
    assert ri * pb <= rb * pi && rb * pc <= rc * pb;
    calc {
      (ri * pc) * pb;
      (ri * pb) * pc;
    <= { MulMono(ri * pb, rb * pi, pc); }
      (rb * pi) * pc;
      (rb * pc) * pi;
    <= { MulMono(rb * pc, rc * pb, pi); }
      (rc * pb) * pi;
      (rc * pi) * pb;
    }
    if rc * pi < ri * pc {
      MulMonoStrict(rc * pi, ri * pc, pb);
    }
  }

  /** Equal recentlySent of every channel means equal rooms. */
  lemma SameRooms(cfg: seq<Descriptor>, ch: seq<Channel>, ch': seq<Channel>, c: nat)
    requires |ch| == |ch'| == |cfg| && c < |cfg| && cfg[c].priority > 0
    requires forall j :: 0 <= j < |cfg| ==> ch[j].recentlySent == ch'[j].recentlySent
    ensures Rooms(cfg, ch, c) == Rooms(cfg, ch', c)
  {
  }

  lemma ScanKeepsRespect(cfg: seq<Descriptor>, s: State, c: nat)
    requires ValidConfig(cfg) && Shape(cfg, s) && c < |cfg| && Enabled(cfg, s, Scan)
    requires Pending(s.ch[c]) && Respects(cfg, s, c)
    ensures Respects(cfg, Apply(cfg, s, Scan), c)
  {
    var i := s.routine.next;
    var t := Apply(cfg, s, Scan);
    if i > c && t.routine.best == Some(i) {
      var b := s.routine.best.value;
      RatioTransitive(s.ch[i], cfg[i].priority, s.ch[b], cfg[b].priority, s.ch[c], cfg[c].priority);
    }
  }

  /** The channel chosen ahead of c had a ratio at most c's, so it had room, and the packet uses some. */
  lemma WriteUsesRoom(cfg: seq<Descriptor>, s: State, size: nat, c: nat)
    requires ValidConfig(cfg) && Shape(cfg, s) && c < |cfg| && Enabled(cfg, s, Write(size))
    requires s.routine.best != Some(c)
    ensures var t := Apply(cfg, s, Write(size));
            && Total(Rooms(cfg, t.ch, c)) <= Total(Rooms(cfg, s.ch, c))
            && (Respects(cfg, s, c) ==> Total(Rooms(cfg, t.ch, c)) < Total(Rooms(cfg, s.ch, c)))
  {
    var b := s.routine.best.value;
    var t := Apply(cfg, s, Write(size));
    var rooms := Rooms(cfg, s.ch, c);
    assert Rooms(cfg, t.ch, c) == rooms[b := Room(cfg, t.ch, c, b)];
    TotalUpdate(rooms, b, Room(cfg, t.ch, c, b));
    if Respects(cfg, s, c) {
      AtMostQuotient(s.ch[b].recentlySent, cfg[c].priority, s.ch[c].recentlySent * cfg[b].priority);
    }
  }

  /** The action sends (or loses in a failed write) a packet of channel c. */
  predicate Serves(s: State, a: Action, c: nat) {
    (a.Write? || a.WriteFails?) && s.routine.Scanning? && s.routine.best == Some(c)
  }

  lemma ScanKeepsAllowance(cfg: seq<Descriptor>, s: State, c: nat)
    requires ValidConfig(cfg) && Shape(cfg, s) && c < |cfg| && Enabled(cfg, s, Scan) && Pending(s.ch[c])
    ensures Shape(cfg, Apply(cfg, s, Scan)) && Allowance(cfg, Apply(cfg, s, Scan), c) <= Allowance(cfg, s, c)
  {
    ApplyKeepsShape(cfg, s, Scan);
    SameRooms(cfg, s.ch, Apply(cfg, s, Scan).ch, c);
    if Respects(cfg, s, c) {
      ScanKeepsRespect(cfg, s, c);
    }
  }

  /** The other actions charge no channel, and leave a scan alone or end it. */
  lemma OthersKeepAllowance(cfg: seq<Descriptor>, s: State, a: Action, c: nat)
    requires ValidConfig(cfg) && Shape(cfg, s) && c < |cfg| && Enabled(cfg, s, a)
    requires !a.Scan? && !a.Write? && !a.UpdateStats?
    ensures Shape(cfg, Apply(cfg, s, a)) && Allowance(cfg, Apply(cfg, s, a), c) <= Allowance(cfg, s, c)
  {
    ApplyKeepsShape(cfg, s, a);
    SameRooms(cfg, s.ch, Apply(cfg, s, a).ch, c);
  }

  lemma StepUsesAllowance(cfg: seq<Descriptor>, s: State, a: Action, c: nat)
    requires ValidConfig(cfg) && Shape(cfg, s) && c < |cfg| && Enabled(cfg, s, a)
    requires Pending(s.ch[c]) && !a.UpdateStats? && !Serves(s, a, c)
    ensures Shape(cfg, Apply(cfg, s, a))
    ensures (if a.Write? then 1 else 0) + Allowance(cfg, Apply(cfg, s, a), c) <= Allowance(cfg, s, c)
  {
    if a.Write? {
      ApplyKeepsShape(cfg, s, a);
      WriteUsesRoom(cfg, s, a.size, c);
    } else if a.Scan? {
      ScanKeepsAllowance(cfg, s, c);
    } else {
      OthersKeepAllowance(cfg, s, a, c);
    }
  }

  // ---------------------------------------------------------------- updates of the statistics

  /** What channel j may send, at most, while channel c waits with `sent` bytes to its account. */
  function Quota(cfg: seq<Descriptor>, sent: nat, c: nat): seq<nat>
    requires c < |cfg| && cfg[c].priority > 0
  {
    seq(|cfg|, j requires 0 <= j < |cfg| => if j == c then 0 else Share(sent, cfg[j].priority, cfg[c].priority) + 1)
  }

  lemma RoomsWithinQuota(cfg: seq<Descriptor>, ch: seq<Channel>, c: nat)
    requires |ch| == |cfg| && c < |cfg| && cfg[c].priority > 0
    ensures Total(Rooms(cfg, ch, c)) <= Total(Quota(cfg, ch[c].recentlySent, c))
  {
    TotalMonotone(Rooms(cfg, ch, c), Quota(cfg, ch[c].recentlySent, c));
  }

  lemma QuotaMonotone(cfg: seq<Descriptor>, less: nat, more: nat, c: nat)
    requires c < |cfg| && cfg[c].priority > 0 && less <= more
    ensures Total(Quota(cfg, less, c)) <= Total(Quota(cfg, more, c))
  {
    var small, large := Quota(cfg, less, c), Quota(cfg, more, c);
    forall j | 0 <= j < |cfg| ensures small[j] <= large[j] {
      ShareMono(less, more, cfg[j].priority, cfg[c].priority);
    }
    TotalMonotone(small, large);
  }

  /** An update lowers c's own account too, so what it gives back to the others is within c's quota. */
  lemma UpdateGrantsQuota(cfg: seq<Descriptor>, s: State, c: nat)
    requires ValidConfig(cfg) && Shape(cfg, s) && c < |cfg| && Enabled(cfg, s, UpdateStats)
    ensures var t := Apply(cfg, s, UpdateStats);
            && Shape(cfg, t) && t.ch[c].recentlySent <= s.ch[c].recentlySent
            && Allowance(cfg, t, c) <= Total(Quota(cfg, s.ch[c].recentlySent, c))
  {
    var t := Apply(cfg, s, UpdateStats);
    assert t.ch[c] == Decay(s.ch[c]);
    RoomsWithinQuota(cfg, t.ch, c);
    QuotaMonotone(cfg, t.ch[c].recentlySent, s.ch[c].recentlySent, c);
  }

  lemma WaitingKeepsAccount(cfg: seq<Descriptor>, s: State, a: Action, c: nat)
    requires Shape(cfg, s) && c < |cfg| && Enabled(cfg, s, a) && !a.UpdateStats? && !Serves(s, a, c)
    ensures |Apply(cfg, s, a).ch| == |cfg| && Apply(cfg, s, a).ch[c].recentlySent == s.ch[c].recentlySent
  {
  }

  // ---------------------------------------------------------------- whole runs

  /** Channel c has data throughout the run and is never served. */
  ghost predicate KeptWaiting(cfg: seq<Descriptor>, s: State, run: seq<Action>, c: nat)
    requires ValidRun(cfg, s, run) && c < |cfg|
    decreases |run|
  {
    run != [] ==>
      && Pending(s.ch[c]) && !Serves(s, run[0], c)
      && KeptWaiting(cfg, Apply(cfg, s, run[0]), run[1..], c)
  }

  /** Packets written in a run. */
  function Writes(run: seq<Action>): nat {
    if run == [] then 0 else (if run[0].Write? then 1 else 0) + Writes(run[1..])
  }

  /** Updates of the statistics in a run. */
  function Updates(run: seq<Action>): nat {
    if run == [] then 0 else (if run[0].UpdateStats? then 1 else 0) + Updates(run[1..])
  }

  lemma {:induction false} KeptWaitingUsesAllowance(cfg: seq<Descriptor>, s: State, run: seq<Action>, c: nat)
    requires ValidConfig(cfg) && ValidRun(cfg, s, run) && c < |cfg| && KeptWaiting(cfg, s, run, c)
    ensures Writes(run) <= Allowance(cfg, s, c) + Updates(run) * Total(Quota(cfg, s.ch[c].recentlySent, c))
    decreases |run|
  {
    if run != [] {
      var t := Apply(cfg, s, run[0]);
      var q, q' := Total(Quota(cfg, s.ch[c].recentlySent, c)), Total(Quota(cfg, t.ch[c].recentlySent, c));
      KeptWaitingUsesAllowance(cfg, t, run[1..], c);
      if run[0].UpdateStats? {
        UpdateGrantsQuota(cfg, s, c);
        QuotaMonotone(cfg, t.ch[c].recentlySent, s.ch[c].recentlySent, c);
        OneMore(Updates(run[1..]), q', q);
      } else {
        StepUsesAllowance(cfg, s, run[0], c);
        WaitingKeepsAccount(cfg, s, run[0], c);
      }
    }
  }

  /** From any state, in any interleaving, the packets of other channels that go before c is served are at most the
      room those channels have, one for a scan already past c, and c's quota for every update of the statistics. */
  lemma {:induction false} FairnessTheorem(cfg: seq<Descriptor>, s: State, run: seq<Action>, c: nat)
    requires ValidConfig(cfg) && ValidRun(cfg, s, run) && c < |cfg| && KeptWaiting(cfg, s, run, c)
    ensures var quota := Updates(run) * Total(Quota(cfg, s.ch[c].recentlySent, c));
            && Writes(run) <= Total(Rooms(cfg, s.ch, c)) + 1 + quota
            && (s.routine.Waiting? ==> Writes(run) <= Total(Rooms(cfg, s.ch, c)) + quota)
  {
    KeptWaitingUsesAllowance(cfg, s, run, c);
  }

  /** The same in terms of c alone: its quota once, and once more for every update, and one. */
  lemma {:induction false} WaitingBound(cfg: seq<Descriptor>, s: State, run: seq<Action>, c: nat)
    requires ValidConfig(cfg) && ValidRun(cfg, s, run) && c < |cfg| && KeptWaiting(cfg, s, run, c)
    ensures Writes(run) <= (Updates(run) + 1) * Total(Quota(cfg, s.ch[c].recentlySent, c)) + 1
  {
    var q := Total(Quota(cfg, s.ch[c].recentlySent, c));
    FairnessTheorem(cfg, s, run, c);
    RoomsWithinQuota(cfg, s.ch, c);
    OneMore(Updates(run), q, q);
  }

  /** A channel that has sent nothing recently waits, for every update and once more, for at most one packet of each
      other channel, and for one from a scan that had already passed it. */
  lemma {:induction false} FreshChannelWaitsOneRound(cfg: seq<Descriptor>, s: State, run: seq<Action>, c: nat)
    requires ValidConfig(cfg) && ValidRun(cfg, s, run) && c < |cfg| && KeptWaiting(cfg, s, run, c)
    requires s.ch[c].recentlySent == 0
    ensures Writes(run) <= (Updates(run) + 1) * (|cfg| - 1) + 1
  {
    var quota := Quota(cfg, 0, c);
    forall j | 0 <= j < |quota| ensures quota[j] == if j == c then 0 else 1 {
      assert Share(0, cfg[j].priority, cfg[c].priority) == 0;
    }
    TotalOfOnes(quota, c);
    WaitingBound(cfg, s, run, c);
  }

  lemma {:induction false} TotalOfOnes(xs: seq<nat>, c: nat)
    requires forall j :: 0 <= j < |xs| ==> xs[j] == if j == c then 0 else 1
    ensures Total(xs) == |xs| - if c < |xs| then 1 else 0
  {
    if xs != [] {
      if c == 0 {
        TotalOfOnes(xs[1..], |xs|);
      } else {
        TotalOfOnes(xs[1..], c - 1);
      }
    }
  }
}
