/** The one-slot wake-up token is never lost, so a quiet connection has delivered everything. */
module MuxWakeup {
  import opened Bytes
  import opened MuxModel
  import opened MuxDelivery

  /** A sender has queued its message and has not yet offered the token. */
  ghost predicate SenderInFlight(s: State) {
    s.toSignal > 0 || exists c :: 0 <= c < |s.uncounted| && s.uncounted[c] > 0
  }

  /** Someone will still wake the send routine. */
  ghost predicate WakeComing(s: State) {
    s.token || SenderInFlight(s)
  }

  /** Pending data that the send routine is not about to look at has a wake-up coming. A scan that has
      found nothing so far answers for the channels it has passed; a scan that has found something will
      be followed by another scan or by a new token. */
  ghost predicate WakeInv(cfg: seq<Descriptor>, s: State) {
    && Shape(cfg, s)
    && (s.routine.Waiting? && (exists c :: 0 <= c < |cfg| && Pending(s.ch[c])) ==> WakeComing(s))
    && (s.routine.Scanning? && s.routine.best.None? ==>
          forall c :: 0 <= c < s.routine.next && Pending(s.ch[c]) ==> WakeComing(s))
  }

  lemma WakeStep(cfg: seq<Descriptor>, s: State, a: Action)
    requires WakeInv(cfg, s) && Enabled(cfg, s, a)
    ensures WakeInv(cfg, Apply(cfg, s, a))
  {
    var t := Apply(cfg, s, a);
    match a
    case Enqueue(c, _) => assert t.uncounted[c] > 0;
    case UpdateStats =>
      assert forall c :: 0 <= c < |cfg| ==> Pending(t.ch[c]) == Pending(s.ch[c]);
    case Scan =>
      assert forall c :: 0 <= c < |cfg| && c != s.routine.next ==> t.ch[c] == s.ch[c];
    case Count(c) =>
      assert forall d :: 0 <= d < |cfg| ==> Pending(t.ch[d]) == Pending(s.ch[d]);
    case _ =>
  }

  lemma {:induction false} WakeRun(cfg: seq<Descriptor>, s: State, run: seq<Action>)
    requires ValidRun(cfg, s, run) && WakeInv(cfg, s)
    ensures WakeInv(cfg, Final(cfg, s, run))
    decreases |run|
  {
    if run != [] {
      WakeStep(cfg, s, run[0]);
      WakeRun(cfg, Apply(cfg, s, run[0]), run[1..]);
    }
  }

  /** No lost wake-up: if the send routine waits, the token slot is empty and no sender is between its
      queue operation and its token, then no channel holds data. */
  lemma {:induction false} NoLostWakeup(cfg: seq<Descriptor>, run: seq<Action>, c: nat)
    requires ValidRun(cfg, Init(cfg), run) && c < |cfg|
    requires var s := Final(cfg, Init(cfg), run); s.routine.Waiting? && !s.token && !SenderInFlight(s)
    ensures !Pending(Final(cfg, Init(cfg), run).ch[c])
  {
    WakeRun(cfg, Init(cfg), run);
  }

  /** A quiet connection has delivered everything: with the send routine waiting, no wake-up coming and
      the wire empty, each channel has delivered exactly what it accepted. */
  lemma {:induction false} QuietMeansDelivered(cfg: seq<Descriptor>, run: seq<Action>, c: nat)
    requires ValidRun(cfg, Init(cfg), run) && c < |cfg|
    requires var s := Final(cfg, Init(cfg), run);
             && s.routine.Waiting? && !WakeComing(s) && s.wire == [] && NonEmptyMessages(s.accepted[c])
    ensures var s := Final(cfg, Init(cfg), run);
            s.delivered[c] == s.accepted[c] && s.recving[c] == [] && s.ch[c].size == 0
  {
    var s := Final(cfg, Init(cfg), run);
    NoLostWakeup(cfg, run, c);
    InitInv(cfg, c);
    RunKeeps(cfg, Init(cfg), run, c);
    assert OnWire(s, c) == ([], s.recving[c]);
    assert s.accepted[c] == s.delivered[c] + [] + [] + [];
  }
}
