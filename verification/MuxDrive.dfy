/** A connection object from its construction on: its calls are a run of the step system, so the step system's theorems
    hold of the object. */
module MuxDrive {
  import opened Bytes
  import opened MuxModel
  import opened MuxWakeup
  import opened MuxCode

  /** What the writer adds to each packet of a batch. */
  type Batch = b: seq<Option<Overhead>> | |b| == BATCH
    witness [None, None, None, None, None, None, None, None, None, None]

  /** A call to TrySend, or a turn of the send routine. */
  datatype Turn = Sending(chID: nat, bytes: ByteString) | Serving(overheads: Batch) | Timing

  /** The connection is in the step system's state, with no sender half done and the send routine at its select. */
  ghost predicate At(conn: MConnection, s: State)
    reads conn, conn.channels
  {
    && conn.Valid() && Shape(conn.cfg, s)
    && conn.Views() == s.ch && conn.token == s.token && conn.wire == s.wire
    && (if conn.running then s.routine.Waiting? else s.routine.Stopped?)
    && SameSenders(Init(conn.cfg), s)
  }

  /** The actions from s to t are the turn's: those of a send, if the connection runs and the channel exists and has
      room; waking and sending a batch, if it runs and the token is there; updating the statistics, if it runs. */
  ghost predicate TurnIs(cfg: seq<Descriptor>, turn: Turn, s: State, acts: seq<Action>, t: State) {
    && ValidRun(cfg, s, acts) && t == Final(cfg, s, acts)
    && match turn
       case Sending(c, bytes) =>
         acts == if !s.routine.Stopped? && c < |cfg| && |s.ch[c].queue| < cfg[c].sendCap
                 then [Enqueue(c, bytes), Count(c), Signal] else []
       case Serving(_) =>
         if !s.routine.Stopped? && s.token then acts != [] && acts[0] == Wake && NoSending(s, t) else acts == []
       case Timing => acts == if s.routine.Stopped? then [] else [UpdateStats]
  }

  ghost predicate Leads(cfg: seq<Descriptor>, turn: Turn, s: State, t: State) {
    exists acts :: TurnIs(cfg, turn, s, acts, t)
  }

  /** One turn. */
  method Take(conn: MConnection, turn: Turn, ghost s: State) returns (ghost acts: seq<Action>, ghost t: State)
    requires At(conn, s)
    modifies conn, conn.channels
    ensures At(conn, t) && TurnIs(conn.cfg, turn, s, acts, t)
  {
    acts, t := [], s;
    match turn
    case Sending(chID, bytes) =>
      var ok := conn.TrySend(chID, bytes, s);
      if ok {
        acts := [Enqueue(chID, bytes), Count(chID), Signal];
        t := Final(conn.cfg, s, acts);
      }
    case Serving(overheads) =>
      if conn.running && conn.token {
        acts, t := Serve(conn, overheads, s);
      }
    case Timing =>
      if conn.running {
        acts, t := [UpdateStats], Apply(conn.cfg, s, UpdateStats);
        assert [UpdateStats][1..] == [];
        conn.UpdateAllStats();
        assert conn.Views() == t.ch;
      }
  }

  /** The send routine takes the token and sends a batch. */
  method Serve(conn: MConnection, overheads: Batch, ghost s: State) returns (ghost acts: seq<Action>, ghost t: State)
    requires At(conn, s) && conn.running && conn.token
    modifies conn, conn.channels
    ensures At(conn, t) && TurnIs(conn.cfg, Serving(overheads), s, acts, t)
  {
    ghost var woken := Apply(conn.cfg, s, Wake);
    conn.token := false;
    var eof;
    ghost var more, sent;
    eof, more, sent := conn.SendSome(overheads, woken);
    acts := [Wake] + more;
    assert acts[1..] == more;
    t := Final(conn.cfg, s, acts);
  }

  /** The first k turns lead from the initial state through `states`, by the given actions. */
  ghost predicate Driven(cfg: seq<Descriptor>, turns: seq<Turn>, k: nat, acts: seq<Action>, states: seq<State>)
    requires k <= |turns|
  {
    && |states| == k + 1 && states[0] == Init(cfg)
    && (forall j :: 0 <= j < k ==> Leads(cfg, turns[j], states[j], states[j + 1]))
    && ValidRun(cfg, Init(cfg), acts) && states[k] == Final(cfg, Init(cfg), acts)
  }

  lemma DrivenStep(cfg: seq<Descriptor>, turns: seq<Turn>, k: nat, acts: seq<Action>, states: seq<State>,
                   more: seq<Action>, t: State)
    requires k < |turns| && Driven(cfg, turns, k, acts, states) && TurnIs(cfg, turns[k], states[k], more, t)
    ensures Driven(cfg, turns, k + 1, acts + more, states + [t])
  {
    RunConcat(cfg, Init(cfg), acts, more);
    var next := states + [t];
    forall j | 0 <= j < k + 1 ensures Leads(cfg, turns[j], next[j], next[j + 1]) {
      assert j < k ==> Leads(cfg, turns[j], states[j], states[j + 1]);
    }
  }

  lemma {:induction false} IdleMeansEmpty(conn: MConnection, acts: seq<Action>, s: State)
    requires ValidRun(conn.cfg, Init(conn.cfg), acts) && s == Final(conn.cfg, Init(conn.cfg), acts) && At(conn, s)
    requires conn.running && !conn.token
    ensures forall i :: 0 <= i < |conn.channels| ==> !Pending(conn.Views()[i])
  {
    forall i | 0 <= i < |conn.channels| ensures !Pending(conn.Views()[i]) {
      NoLostWakeup(conn.cfg, acts, i);
    }
  }

  /** A new connection, started and driven by any calls and turns: it goes through a run from the initial state, turn by
      turn. At the end, while it is running with the token slot empty, no channel holds data. */
  method Drive(descs: seq<ChannelDescriptor>, turns: seq<Turn>)
    returns (conn: MConnection, ghost acts: seq<Action>, ghost states: seq<State>)
    requires forall i :: 0 <= i < |descs| ==> descs[i].priority > 0
    ensures conn.cfg == ConfigOf(descs) && Driven(conn.cfg, turns, |turns|, acts, states) && At(conn, states[|turns|])
    ensures conn.running && !conn.token ==> forall i :: 0 <= i < |conn.channels| ==> !Pending(conn.Views()[i])
  {
    conn := new MConnection(descs);
    conn.OnStart();
    acts, states := [], [Init(conn.cfg)];
    for k := 0 to |turns|
      invariant fresh(conn) && (forall i :: 0 <= i < |conn.channels| ==> fresh(conn.channels[i]))
      invariant Driven(conn.cfg, turns, k, acts, states) && At(conn, states[k])
    {
      ghost var more, t := Take(conn, turns[k], states[k]);
      DrivenStep(conn.cfg, turns, k, acts, states, more, t);
      acts, states := acts + more, states + [t];
    }
    if conn.running && !conn.token {
      IdleMeansEmpty(conn, acts, states[|turns|]);
    }
  }
}
