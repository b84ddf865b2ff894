/**
 Delivery when messages may be empty. A scan takes an empty message off its queue and, unless its channel ends up
 chosen, leaves no trace of it. This module says exactly which scans lose a message and that nothing else is lost.
 */
module MuxEmpty {
  import opened Bytes
  import opened MuxModel
  import opened MuxDelivery
  import opened MuxWakeup

  // ---------------------------------------------------------------- where messages are

  /** A message of c is between queue and wire: bytes of it are left, or c is the scan's choice. */
  predicate Held(s: State, c: nat)
    requires c < |s.ch|
  {
    s.ch[c].sending != [] || (s.routine.Scanning? && s.routine.best == Some(c))
  }

  function Current(s: State, c: nat): seq<ByteString>
    requires c < |s.ch| == |s.recving|
  {
    if Held(s, c) then [OnWire(s, c).1 + s.ch[c].sending] else []
  }

  /** The messages of c that were delivered or are on their way, in order. */
  function Track(s: State, c: nat): seq<ByteString>
    requires c < |s.ch| == |s.recving| == |s.delivered|
  {
    s.delivered[c] + OnWire(s, c).0 + Current(s, c) + s.ch[c].queue
  }

  /** With nothing left to send, no piece of a message waits at the end of the wire. */
  predicate Tidy(s: State, c: nat)
    requires c < |s.ch| == |s.recving|
  {
    s.ch[c].sending == [] ==> OnWire(s, c).1 == []
  }

  /** Every accepted message is accounted for, empty ones included. */
  ghost predicate Accounted(s: State, c: nat)
    requires c < |s.ch| == |s.recving| == |s.accepted| == |s.delivered|
  {
    s.accepted[c] == Track(s, c) && Tidy(s, c)
  }

  // ---------------------------------------------------------------- losing scans

  /** The scan's next step loses a message of c: it loads an empty one and keeps its candidate, or it drops c, with
      an empty message loaded, for a channel with a smaller ratio. */
  predicate Loses(cfg: seq<Descriptor>, s: State, c: nat)
    requires |s.ch| == |cfg| && c < |cfg| && s.routine.Scanning? && s.routine.next < |cfg|
    requires s.routine.best.Some? ==> s.routine.best.value < |cfg|
  {
    var i, best := s.routine.next, s.routine.best;
    || (i == c && s.ch[c].sending == [] && s.ch[c].queue != [] && s.ch[c].queue[0] == []
        && best.Some? && !RatioLess(s.ch[c], cfg[c].priority, s.ch[best.value], cfg[best.value].priority))
    || (i != c && best == Some(c) && s.ch[c].sending == []
        && Pending(s.ch[i]) && RatioLess(s.ch[i], cfg[i].priority, s.ch[c], cfg[c].priority))
  }

  /** The scan looks at c itself and loads its next message. */
  lemma LoadTracks(cfg: seq<Descriptor>, s: State, c: nat)
    requires Shape(cfg, s) && c < |cfg| && Enabled(cfg, s, Scan) && Tidy(s, c)
    requires s.routine.next == c && s.ch[c].sending == [] && s.ch[c].queue != []
    ensures var t := Apply(cfg, s, Scan);
            && Tidy(t, c)
            && (!Loses(cfg, s, c) ==> Track(t, c) == Track(s, c))
            && (Loses(cfg, s, c) ==> DropsEmpty(s.delivered[c] + OnWire(s, c).0, Track(s, c), Track(t, c)))
  {
    var t := Apply(cfg, s, Scan);
    var before, m, tail := s.delivered[c] + OnWire(s, c).0, s.ch[c].queue[0], s.ch[c].queue[1..];
    assert OnWire(t, c) == OnWire(s, c) && t.ch[c].sending == m && t.ch[c].queue == tail;
    assert Current(s, c) == [] && s.ch[c].queue == [m] + tail;
    assert [] + m == m && before + [] == before;
    if !Loses(cfg, s, c) {
      assert Current(t, c) == [m];
      Assoc(before, [m], tail);
    } else {
      assert Track(t, c) == before + tail && (before + tail)[|before|..] == tail;
    }
  }

  /** The scan looks at another channel, or at c with a message loaded. */
  lemma PassTracks(cfg: seq<Descriptor>, s: State, c: nat)
    requires Shape(cfg, s) && c < |cfg| && Enabled(cfg, s, Scan) && Tidy(s, c)
    requires s.routine.next == c ==> s.ch[c].sending != [] || s.ch[c].queue == []
    ensures var t := Apply(cfg, s, Scan);
            && Tidy(t, c)
            && (!Loses(cfg, s, c) ==> Track(t, c) == Track(s, c))
            && (Loses(cfg, s, c) ==> DropsEmpty(s.delivered[c] + OnWire(s, c).0, Track(s, c), Track(t, c)))
  {
    var t := Apply(cfg, s, Scan);
    var before, queue := s.delivered[c] + OnWire(s, c).0, s.ch[c].queue;
    assert OnWire(t, c) == OnWire(s, c) && t.ch[c] == s.ch[c];
    if Loses(cfg, s, c) {
      assert t.routine.best == Some(s.routine.next) && !Held(t, c);
      assert OnWire(s, c).1 + s.ch[c].sending == [];
      assert Current(s, c) == [[]] && before + [] == before;
      Assoc(before, [[]], queue);
      assert (before + queue)[|before|..] == queue;
    } else {
      assert Held(t, c) == Held(s, c);
    }
  }

  /** A scan that loses a message takes one empty message out of the track; any other leaves the track alone. */
  lemma ScanTracks(cfg: seq<Descriptor>, s: State, c: nat)
    requires Shape(cfg, s) && c < |cfg| && Enabled(cfg, s, Scan) && Tidy(s, c)
    ensures var t := Apply(cfg, s, Scan);
            && Tidy(t, c)
            && (!Loses(cfg, s, c) ==> Track(t, c) == Track(s, c))
            && (Loses(cfg, s, c) ==> DropsEmpty(s.delivered[c] + OnWire(s, c).0, Track(s, c), Track(t, c)))
  {
    if s.routine.next == c && s.ch[c].sending == [] && s.ch[c].queue != [] {
      LoadTracks(cfg, s, c);
    } else {
      PassTracks(cfg, s, c);
    }
  }

  /** `after` is `track` without the empty message that follows `before`. */
  ghost predicate DropsEmpty(before: seq<ByteString>, track: seq<ByteString>, after: seq<ByteString>) {
    |before| <= |after| && track == before + ([[]] + after[|before|..]) && after == before + after[|before|..]
  }

  /** The exact condition, step by step: a scan keeps every message of c accounted for if and only if it is not one
      of the losing ones. */
  lemma ScanAccountsIff(cfg: seq<Descriptor>, s: State, c: nat)
    requires Shape(cfg, s) && c < |cfg| && Enabled(cfg, s, Scan) && Accounted(s, c)
    ensures Accounted(Apply(cfg, s, Scan), c) <==> !Loses(cfg, s, c)
  {
    ScanTracks(cfg, s, c);
    assert Apply(cfg, s, Scan).accepted == s.accepted;
    if Loses(cfg, s, c) {
      assert |Track(Apply(cfg, s, Scan), c)| < |Track(s, c)|;
    }
  }

  // ---------------------------------------------------------------- the other steps

  /** Writing the chosen packet, of an empty message too, moves the message along its track. */
  lemma WriteTracks(cfg: seq<Descriptor>, s: State, size: nat, c: nat)
    requires Shape(cfg, s) && c < |cfg| && Enabled(cfg, s, Write(size)) && Tidy(s, c)
    ensures var t := Apply(cfg, s, Write(size)); Tidy(t, c) && Track(t, c) == Track(s, c)
  {
    var t := Apply(cfg, s, Write(size));
    var b := s.routine.best.value;
    var p := CutPacket(b, s.ch[b]);
    var (ms, rest) := OnWire(s, c);
    OnChannelSnoc(s.wire, p, c);
    if b == c {
      ReassembleSnoc(s.recving[c], OnChannel(s.wire, c), p);
      if p.eof {
        var m := rest + s.ch[c].sending;
        assert OnWire(t, c) == (ms + [m], []);
        assert s.delivered[c] + (ms + [m]) + [] == s.delivered[c] + ms + [m];
      } else {
        assert s.ch[c].sending == p.bytes + t.ch[c].sending;
        assert rest + s.ch[c].sending == (rest + p.bytes) + t.ch[c].sending;
      }
    } else {
      assert OnChannel(t.wire, c) == OnChannel(s.wire, c);
    }
  }

  lemma ReceiveTracks(cfg: seq<Descriptor>, s: State, c: nat)
    requires Shape(cfg, s) && c < |cfg| && Enabled(cfg, s, Receive) && Tidy(s, c)
    ensures var t := Apply(cfg, s, Receive); Tidy(t, c) && Track(t, c) == Track(s, c)
  {
    ReceiveOnWire(cfg, s, c);
  }

  lemma EnqueueTracks(cfg: seq<Descriptor>, s: State, a: Action, c: nat)
    requires Shape(cfg, s) && c < |cfg| && Enabled(cfg, s, a) && a.Enqueue? && Tidy(s, c)
    ensures var t := Apply(cfg, s, a);
            && Tidy(t, c)
            && Track(t, c) == Track(s, c) + (if a.c == c then [a.msg] else [])
            && t.accepted[c] == s.accepted[c] + (if a.c == c then [a.msg] else [])
  {
    var t := Apply(cfg, s, a);
    assert OnWire(t, c) == OnWire(s, c) && Current(t, c) == Current(s, c);
    if a.c == c {
      Assoc(s.delivered[c] + OnWire(s, c).0 + Current(s, c), s.ch[c].queue, [a.msg]);
    } else {
      assert Track(s, c) + [] == Track(s, c) && s.accepted[c] + [] == s.accepted[c];
    }
  }

  lemma BookkeepingTracks(cfg: seq<Descriptor>, s: State, a: Action, c: nat)
    requires Shape(cfg, s) && c < |cfg| && Enabled(cfg, s, a) && Bookkeeping(a) && Tidy(s, c)
    ensures var t := Apply(cfg, s, a);
            |t.ch| == |cfg| && Tidy(t, c) && Track(t, c) == Track(s, c) && t.accepted == s.accepted
  {
    BookkeepingMovesNothing(cfg, s, a, c);
    var t := Apply(cfg, s, a);
    assert OnWire(t, c) == OnWire(s, c) && Held(t, c) == Held(s, c);
  }

  lemma FailureElsewhereTracks(cfg: seq<Descriptor>, s: State, c: nat)
    requires Shape(cfg, s) && c < |cfg| && Enabled(cfg, s, WriteFails) && s.routine.best != Some(c) && Tidy(s, c)
    ensures var t := Apply(cfg, s, WriteFails); Tidy(t, c) && Track(t, c) == Track(s, c) && t.accepted == s.accepted
  {
    var t := Apply(cfg, s, WriteFails);
    assert OnWire(t, c) == OnWire(s, c) && t.ch[c] == s.ch[c];
  }

  // ---------------------------------------------------------------- whole runs

  /** One if the action loses a message of c. */
  function LossOf(cfg: seq<Descriptor>, s: State, a: Action, c: nat): nat
    requires |s.ch| == |cfg| && c < |cfg|
    requires a.Scan? ==> s.routine.Scanning? && s.routine.next < |cfg|
    requires s.routine.Scanning? && s.routine.best.Some? ==> s.routine.best.value < |cfg|
  {
    if a.Scan? && Loses(cfg, s, c) then 1 else 0
  }

  /** How many messages of c the run loses. */
  ghost function Losses(cfg: seq<Descriptor>, s: State, run: seq<Action>, c: nat): nat
    requires ValidRun(cfg, s, run) && c < |cfg|
    decreases |run|
  {
    if run == [] then 0
    else LossOf(cfg, s, run[0], c) + Losses(cfg, Apply(cfg, s, run[0]), run[1..], c)
  }

  function NonEmpties(msgs: seq<ByteString>): seq<ByteString> {
    if msgs == [] then [] else (if msgs[0] == [] then [] else [msgs[0]]) + NonEmpties(msgs[1..])
  }

  /** `t` is `a` with n empty messages taken out, in order. */
  ghost predicate Thinned(a: seq<ByteString>, t: seq<ByteString>, n: nat) {
    if a == [] then t == [] && n == 0
    else || (t != [] && t[0] == a[0] && Thinned(a[1..], t[1..], n))
         || (n > 0 && a[0] == [] && Thinned(a[1..], t, n - 1))
  }

  lemma {:induction false} ThinnedCounts(a: seq<ByteString>, t: seq<ByteString>, n: nat)
    requires Thinned(a, t, n)
    ensures |a| == |t| + n && NonEmpties(a) == NonEmpties(t) && (n == 0 ==> a == t)
    ensures forall m :: m in t ==> m in a
  {
    if a != [] {
      if t != [] && t[0] == a[0] && Thinned(a[1..], t[1..], n) {
        ThinnedCounts(a[1..], t[1..], n);
        assert a == [a[0]] + a[1..] && t == [t[0]] + t[1..];
      } else {
        ThinnedCounts(a[1..], t, n - 1);
        assert [] + NonEmpties(a[1..]) == NonEmpties(a[1..]);
      }
    }
  }

  lemma {:induction false} ThinnedSnoc(a: seq<ByteString>, t: seq<ByteString>, n: nat, m: ByteString)
    requires Thinned(a, t, n)
    ensures Thinned(a + [m], t + [m], n)
  {
    if a == [] {
      assert a + [m] == [m] && t + [m] == [m] && [m][1..] == [];
    } else {
      assert (a + [m])[0] == a[0] && (a + [m])[1..] == a[1..] + [m];
      if t != [] && t[0] == a[0] && Thinned(a[1..], t[1..], n) {
        assert (t + [m])[0] == t[0] && (t + [m])[1..] == t[1..] + [m];
        ThinnedSnoc(a[1..], t[1..], n, m);
      } else {
        ThinnedSnoc(a[1..], t, n - 1, m);
      }
    }
  }

  lemma {:induction false} ThinnedDrop(a: seq<ByteString>, before: seq<ByteString>, tail: seq<ByteString>, n: nat)
    requires Thinned(a, before + ([[]] + tail), n)
    ensures Thinned(a, before + tail, n + 1)
  {
    var t := before + ([[]] + tail);
    if t[0] == a[0] && Thinned(a[1..], t[1..], n) {
      if before == [] {
        assert t[1..] == tail && before + tail == tail;
      } else {
        assert t[1..] == before[1..] + ([[]] + tail);
        ThinnedDrop(a[1..], before[1..], tail, n);
        assert (before + tail)[1..] == before[1..] + tail;
      }
    } else {
      ThinnedDrop(a[1..], before, tail, n - 1);
    }
  }

  lemma {:induction false} ThinnedKeeps(a: seq<ByteString>, t: seq<ByteString>, n: nat, k: nat)
    requires Thinned(a, t, n) && k < |a| && a[k] != []
    ensures a[k] in t
  {
    if t != [] && t[0] == a[0] && Thinned(a[1..], t[1..], n) {
      if k > 0 {
        ThinnedKeeps(a[1..], t[1..], n, k - 1);
        assert a[k] in t[1..];
      }
    } else {
      ThinnedKeeps(a[1..], t, n - 1, k - 1);
    }
  }

  lemma {:induction false} ThinnedNonEmpty(a: seq<ByteString>, t: seq<ByteString>, n: nat)
    requires Thinned(a, t, n) && NonEmptyMessages(a)
    ensures t == a
  {
    if a != [] {
      assert a[0] != [];
      ThinnedNonEmpty(a[1..], t[1..], n);
      assert a == [a[0]] + a[1..] && t == [t[0]] + t[1..];
    }
  }

  /** After n losses: the track lacks n messages, all of them empty. */
  ghost predicate TrackInv(s: State, c: nat, n: nat)
    requires c < |s.ch| == |s.recving| == |s.accepted| == |s.delivered|
  {
    Tidy(s, c) && Thinned(s.accepted[c], Track(s, c), n)
  }

  /** sendQueueSize, with the increments still owed, counts what is queued or held, and lost messages for ever. */
  predicate SizeInv(s: State, c: nat, n: nat)
    requires c < |s.ch| == |s.uncounted|
  {
    s.ch[c].size + s.uncounted[c] == |s.ch[c].queue| + (if Held(s, c) then 1 else 0) + n
  }

  /** A step that neither accepts nor loses keeps the invariant if it keeps the track. */
  lemma SameTrack(s: State, t: State, c: nat, n: nat)
    requires c < |s.ch| == |s.recving| == |s.accepted| == |s.delivered|
    requires c < |t.ch| == |t.recving| == |t.accepted| == |t.delivered|
    requires TrackInv(s, c, n) && Tidy(t, c) && t.accepted[c] == s.accepted[c] && Track(t, c) == Track(s, c)
    ensures TrackInv(t, c, n)
  {
  }

  lemma EnqueueKeepsTrack(cfg: seq<Descriptor>, s: State, a: Action, c: nat, n: nat)
    requires Shape(cfg, s) && c < |cfg| && Enabled(cfg, s, a) && a.Enqueue? && TrackInv(s, c, n)
    ensures TrackInv(Apply(cfg, s, a), c, n)
  {
    EnqueueTracks(cfg, s, a, c);
    if a.c == c {
      ThinnedSnoc(s.accepted[c], Track(s, c), n, a.msg);
    } else {
      assert Track(s, c) + [] == Track(s, c) && s.accepted[c] + [] == s.accepted[c];
    }
  }

  lemma ScanKeepsTrack(cfg: seq<Descriptor>, s: State, c: nat, n: nat)
    requires Shape(cfg, s) && c < |cfg| && Enabled(cfg, s, Scan) && TrackInv(s, c, n)
    ensures TrackInv(Apply(cfg, s, Scan), c, n + if Loses(cfg, s, c) then 1 else 0)
  {
    var t := Apply(cfg, s, Scan);
    ScanTracks(cfg, s, c);
    assert t.accepted == s.accepted;
    if Loses(cfg, s, c) {
      var before := s.delivered[c] + OnWire(s, c).0;
      ThinnedDrop(s.accepted[c], before, Track(t, c)[|before|..], n);
    } else {
      SameTrack(s, t, c, n);
    }
  }

  lemma StepTracks(cfg: seq<Descriptor>, s: State, a: Action, c: nat, n: nat)
    requires Shape(cfg, s) && c < |cfg| && Enabled(cfg, s, a) && TrackInv(s, c, n)
    requires a.WriteFails? ==> s.routine.best != Some(c)
    ensures TrackInv(Apply(cfg, s, a), c, n + LossOf(cfg, s, a, c))
  {
    if a.Scan? {
      ScanKeepsTrack(cfg, s, c, n);
    } else if a.Enqueue? {
      EnqueueKeepsTrack(cfg, s, a, c, n);
    } else {
      if a.Write? {
        WriteTracks(cfg, s, a.size, c);
      } else if a.WriteFails? {
        FailureElsewhereTracks(cfg, s, c);
      } else if a.Receive? {
        ReceiveTracks(cfg, s, c);
      } else {
        BookkeepingTracks(cfg, s, a, c);
      }
      ApplyKeepsShape(cfg, s, a);
      SameTrack(s, Apply(cfg, s, a), c, n);
    }
  }

  lemma MoveCounts(cfg: seq<Descriptor>, s: State, a: Action, c: nat, n: nat)
    requires Shape(cfg, s) && c < |cfg| && Enabled(cfg, s, a) && !Bookkeeping(a) && !a.Scan? && SizeInv(s, c, n)
    ensures SizeInv(Apply(cfg, s, a), c, n)
  {
    var t := Apply(cfg, s, a);
    if a.Enqueue? {
      assert Held(t, c) == Held(s, c);
    } else if a.Receive? {
      assert t.ch == s.ch && t.routine == s.routine && t.uncounted == s.uncounted;
    } else if s.routine.best != Some(c) {
      assert t.ch[c] == s.ch[c];
    }
  }

  lemma StepCounts(cfg: seq<Descriptor>, s: State, a: Action, c: nat, n: nat)
    requires Shape(cfg, s) && c < |cfg| && Enabled(cfg, s, a) && SizeInv(s, c, n)
    ensures SizeInv(Apply(cfg, s, a), c, n + LossOf(cfg, s, a, c))
  {
    if Bookkeeping(a) {
      BookkeepingMovesNothing(cfg, s, a, c);
      assert Held(Apply(cfg, s, a), c) == Held(s, c);
    } else if !a.Scan? {
      MoveCounts(cfg, s, a, c, n);
    }
  }

  lemma {:induction false} FailureStays(cfg: seq<Descriptor>, s: State, run: seq<Action>, c: nat)
    requires ValidRun(cfg, s, run) && s.failed == Some(c) && s.routine.Stopped?
    ensures Final(cfg, s, run).failed == Some(c)
    decreases |run|
  {
    if run != [] {
      FailureStays(cfg, Apply(cfg, s, run[0]), run[1..], c);
    }
  }

  /** A run that ends without a failed write on c does not start with one. */
  lemma {:induction false} FirstDoesNotFail(cfg: seq<Descriptor>, s: State, run: seq<Action>, c: nat)
    requires ValidRun(cfg, s, run) && run != [] && Final(cfg, s, run).failed != Some(c)
    ensures run[0].WriteFails? ==> s.routine.best != Some(c)
  {
    if run[0].WriteFails? && s.routine.best == Some(c) {
      FailureStays(cfg, Apply(cfg, s, run[0]), run[1..], c);
    }
  }

  lemma {:induction false} RunTracks(cfg: seq<Descriptor>, s: State, run: seq<Action>, c: nat, n: nat, t: State, k: nat)
    requires ValidRun(cfg, s, run) && c < |cfg| && TrackInv(s, c, n)
    requires t == Final(cfg, s, run) && k == n + Losses(cfg, s, run, c) && t.failed != Some(c)
    ensures TrackInv(t, c, k)
    decreases |run|
  {
    if run != [] {
      var a := run[0];
      FirstDoesNotFail(cfg, s, run, c);
      StepTracks(cfg, s, a, c, n);
      RunTracks(cfg, Apply(cfg, s, a), run[1..], c, n + LossOf(cfg, s, a, c), t, k);
    }
  }

  lemma {:induction false} RunCounts(cfg: seq<Descriptor>, s: State, run: seq<Action>, c: nat, n: nat)
    requires ValidRun(cfg, s, run) && c < |cfg| && SizeInv(s, c, n)
    ensures SizeInv(Final(cfg, s, run), c, n + Losses(cfg, s, run, c))
    decreases |run|
  {
    if run != [] {
      var a := run[0];
      StepCounts(cfg, s, a, c, n);
      RunCounts(cfg, Apply(cfg, s, a), run[1..], c, n + LossOf(cfg, s, a, c));
    }
  }

  lemma InitTracks(cfg: seq<Descriptor>, c: nat)
    requires c < |cfg|
    ensures TrackInv(Init(cfg), c, 0) && SizeInv(Init(cfg), c, 0)
  {
  }

  /** Delivery for all messages. In every run without a failed write on c, the messages delivered or on their way are
      the accepted ones less exactly as many empty ones as there were losing scans; so nothing is missing if and only
      if no scan of the run was a losing one. sendQueueSize keeps counting what was lost. */
  lemma {:induction false} DeliveryIff(cfg: seq<Descriptor>, run: seq<Action>, c: nat)
    requires ValidRun(cfg, Init(cfg), run) && c < |cfg| && Final(cfg, Init(cfg), run).failed != Some(c)
    ensures var s, n := Final(cfg, Init(cfg), run), Losses(cfg, Init(cfg), run, c);
            && Thinned(s.accepted[c], Track(s, c), n) && (s.accepted[c] == Track(s, c) <==> n == 0)
            && |s.accepted[c]| == |Track(s, c)| + n
            && NonEmpties(s.accepted[c]) == NonEmpties(Track(s, c))
            && SizeInv(s, c, n)
  {
    InitTracks(cfg, c);
    RunTracks(cfg, Init(cfg), run, c, 0, Final(cfg, Init(cfg), run), Losses(cfg, Init(cfg), run, c));
    RunCounts(cfg, Init(cfg), run, c, 0);
    var s := Final(cfg, Init(cfg), run);
    ThinnedCounts(s.accepted[c], Track(s, c), Losses(cfg, Init(cfg), run, c));
  }

  /** A run with no losing scan delivers a prefix of what was accepted, empty messages included. */
  lemma {:induction false} NoLossDeliversPrefix(cfg: seq<Descriptor>, run: seq<Action>, c: nat)
    requires ValidRun(cfg, Init(cfg), run) && c < |cfg| && Final(cfg, Init(cfg), run).failed != Some(c)
    requires Losses(cfg, Init(cfg), run, c) == 0
    ensures var s := Final(cfg, Init(cfg), run); s.delivered[c] <= s.accepted[c]
  {
    DeliveryIff(cfg, run, c);
    var s := Final(cfg, Init(cfg), run);
    assert Track(s, c)[..|s.delivered[c]|] == s.delivered[c];
  }

  /** A connection with one channel never loses a message, empty or not. */
  lemma {:induction false} SingleChannelLosesNothing(cfg: seq<Descriptor>, s: State, run: seq<Action>)
    requires |cfg| == 1 && ValidRun(cfg, s, run)
    ensures Losses(cfg, s, run, 0) == 0
    decreases |run|
  {
    if run != [] {
      SingleChannelLosesNothing(cfg, Apply(cfg, s, run[0]), run[1..]);
    }
  }

  /** When the connection is quiet, every channel has delivered all its non-empty messages in order, and all its
      messages but the lost ones. */
  lemma {:induction false} QuietLosesOnlyEmpty(cfg: seq<Descriptor>, run: seq<Action>, c: nat)
    requires ValidRun(cfg, Init(cfg), run) && c < |cfg|
    requires var s := Final(cfg, Init(cfg), run);
             s.routine.Waiting? && !s.token && !SenderInFlight(s) && s.wire == [] && s.failed != Some(c)
    ensures var s := Final(cfg, Init(cfg), run);
            && Thinned(s.accepted[c], s.delivered[c], Losses(cfg, Init(cfg), run, c))
            && NonEmpties(s.delivered[c]) == NonEmpties(s.accepted[c])
            && |s.delivered[c]| + Losses(cfg, Init(cfg), run, c) == |s.accepted[c]|
  {
    var s := Final(cfg, Init(cfg), run);
    NoLostWakeup(cfg, run, c);
    DeliveryIff(cfg, run, c);
    assert Track(s, c) == s.delivered[c];
  }
}
