/** The master's side of replication: one command stream, fanned out to bounded queues. */
module Fanout {
  import opened Base
  import opened Resp
  import opened Replication

  const SELECT_0: Command := [[83, 69, 76, 69, 67, 84], [48]]
  const PREAMBLE: Bytes := [42, 50, 13, 10, 36, 54, 13, 10, 83, 69, 76, 69, 67, 84, 13, 10, 36, 49, 13, 10, 48, 13, 10]

  lemma EncodeTwo(a: Bytes, b: Bytes)
    ensures EncodeArgs([a, b]) == EncodeArg(a) + EncodeArg(b)
  {
    hide EncodeArg;
    assert [a, b][1..] == [b] && [b][1..] == [];
    assert EncodeArgs([b]) == EncodeArg(b) + [];
  }

  lemma EncodedSelect()
    ensures EncodeArg(SELECT_0[0]) == [36, 54, 13, 10, 83, 69, 76, 69, 67, 84, 13, 10]
  {
    assert Decimal.Digits(6) == [54];
  }

  lemma EncodedZero()
    ensures EncodeArg(SELECT_0[1]) == [36, 49, 13, 10, 48, 13, 10] && Header(STAR, 2) == [42, 50, 13, 10]
  {
    assert Decimal.Digits(1) == [49] && Decimal.Digits(2) == [50];
  }

  lemma PreambleIsSelect()
    ensures PREAMBLE == EncodeCommand(SELECT_0) && Sendable(SELECT_0)
  {
    EncodeTwo(SELECT_0[0], SELECT_0[1]);
    EncodedSelect();
    EncodedZero();
    hide EncodeArgs, EncodeArg, Header, Decimal.Digits;
  }

  /** A session as its connection sees it: what is still queued, and whether the master gave up on it. */
  datatype Session = Session(queue: seq<Bytes>, done: bool)

  /**
   * The history of one session: it was opened after the first `from` commands with `payload` in
   * answer to a request for everything from byte `offset` on; `sent` has been queued for it since
   * and the connection has taken the first `taken` of these messages.
   */
  datatype Trace = Trace(from: nat, offset: nat, payload: Bytes, sent: seq<Bytes>, taken: nat)

  ghost function Upto(t: Trace): int {
    t.from + |t.sent| - 1
  }

  /** The messages are the preamble and then one per command, from the first after opening, none left out. */
  ghost predicate TraceOk(t: Trace, cmds: seq<Command>) {
    && t.sent != [] && t.sent[0] == PREAMBLE && Upto(t) <= |cmds| && t.taken <= |t.sent|
    && (forall i :: 0 < i < |t.sent| ==> t.sent[i] == EncodeCommand(cmds[t.from + i - 1]))
    && t.offset <= |EncodeAll(cmds[..t.from])| && t.payload == StreamFrom(cmds[..t.from], t.offset)
  }

  ghost predicate SessionOk(s: Session, t: Trace, cmds: seq<Command>) {
    && TraceOk(t, cmds) && s.queue == t.sent[t.taken..] && |s.queue| <= QUEUE_CAPACITY
    && (!s.done ==> Upto(t) == |cmds|)
  }

  // ---------------------------------------------------------------------------
  // What a session has been told.

  lemma {:induction false} EncodeAllConcat(a: seq<Command>, b: seq<Command>)
    ensures EncodeAll(a + b) == EncodeAll(a) + EncodeAll(b)
    decreases |a|
  {
    if a == [] {
      assert a + b == b;
    } else {
      assert (a + b)[1..] == a[1..] + b;
      EncodeAllConcat(a[1..], b);
    }
  }

  lemma {:induction false} FlatEncodes(ms: seq<Bytes>, cmds: seq<Command>)
    requires |ms| == |cmds| && forall i :: 0 <= i < |ms| ==> ms[i] == EncodeCommand(cmds[i])
    ensures Flat(ms) == EncodeAll(cmds)
    decreases |ms|
  {
    hide EncodeCommand;
    if ms != [] {
      FlatEncodes(ms[1..], cmds[1..]);
    }
  }

  /** The bytes of the stream of `cmds` from `offset` on. */
  ghost function StreamFrom(cmds: seq<Command>, offset: nat): Bytes {
    if offset <= |EncodeAll(cmds)| then EncodeAll(cmds)[offset..] else []
  }

  lemma StreamGrows(a: seq<Command>, b: seq<Command>, offset: nat)
    requires offset <= |EncodeAll(a)|
    ensures StreamFrom(a + b, offset) == StreamFrom(a, offset) + EncodeAll(b)
  {
    EncodeAllConcat(a, b);
  }

  /**
   * After any number of messages, the payload followed by the messages is the command stream from
   * the requested offset up to a command boundary.
   */
  lemma SessionSees(t: Trace, cmds: seq<Command>, n: nat)
    requires TraceOk(t, cmds) && 1 <= n <= |t.sent|
    ensures t.payload + Flat(t.sent[1..n]) == StreamFrom(cmds[..t.from + n - 1], t.offset)
  {
    hide EncodeCommand;
    var got := cmds[t.from..t.from + n - 1];
    FlatEncodes(t.sent[1..n], got);
    StreamGrows(cmds[..t.from], got, t.offset);
    assert cmds[..t.from] + got == cmds[..t.from + n - 1];
  }

  /** Every live session has been told the whole stream from the requested offset to its end. */
  lemma LiveSeesAll(s: Session, t: Trace, cmds: seq<Command>)
    requires SessionOk(s, t, cmds) && !s.done
    ensures t.payload + Flat(t.sent[1..]) == StreamFrom(cmds, t.offset)
  {
    hide EncodeCommand, EncodeAll;
    SessionSees(t, cmds, |t.sent|);
    assert t.sent[1..|t.sent|] == t.sent[1..] && cmds[..Upto(t)] == cmds;
  }

  /** A session, live or dropped, has been told a prefix of it, without a gap. */
  lemma SessionSeesPrefix(s: Session, t: Trace, cmds: seq<Command>)
    requires SessionOk(s, t, cmds)
    ensures t.payload + Flat(t.sent[1..]) <= StreamFrom(cmds, t.offset)
  {
    SessionSees(t, cmds, |t.sent|);
    assert t.sent[1..|t.sent|] == t.sent[1..];
    var told := cmds[..Upto(t)];
    assert told == cmds[..t.from] + cmds[t.from..Upto(t)] && cmds == told + cmds[Upto(t)..];
    EncodeAllConcat(cmds[..t.from], cmds[t.from..Upto(t)]);
    hide EncodeCommand, EncodeAll, TraceOk, StreamFrom;
    StreamGrows(told, cmds[Upto(t)..], t.offset);
  }

  /**
   * A replica that has got any `k` bytes of its messages has replayed the database selection and
   * then exactly a run of consecutive commands, beginning with the first after it was registered.
   */
  lemma ReplicaReplays(t: Trace, cmds: seq<Command>, k: nat, w: nat, fields: Bytes -> seq<Bytes>)
    requires TraceOk(t, cmds) && forall i :: 0 <= i < |cmds| ==> Sendable(cmds[i])
    requires w <= |t.sent| && |Flat(t.sent[..w])| <= k <= |Flat(t.sent)|
    requires w < |t.sent| ==> k < |Flat(t.sent[..w])| + |t.sent[w]|
    ensures ReplayLog(Flat(t.sent)[..k], fields).cmds == Told(t, cmds)[..w]
  {
    hide EncodeCommand, CutInData, Sendable, ReplayLog, EncodeAll, StreamFrom;
    PreambleIsSelect();
    var all := Told(t, cmds);
    TraceTells(t, cmds);
    FlatEncodes(t.sent, all);
    FlatEncodes(t.sent[..w], all[..w]);
    ReplayPrefix(all, w, k, fields);
  }

  /** The commands a session has been sent. */
  ghost function Told(t: Trace, cmds: seq<Command>): seq<Command>
    requires TraceOk(t, cmds)
  {
    [SELECT_0] + cmds[t.from..Upto(t)]
  }

  lemma TraceTells(t: Trace, cmds: seq<Command>)
    requires TraceOk(t, cmds) && PREAMBLE == EncodeCommand(SELECT_0)
    ensures |Told(t, cmds)| == |t.sent|
    ensures forall i :: 0 <= i < |t.sent| ==> t.sent[i] == EncodeCommand(Told(t, cmds)[i])
    ensures forall i :: 0 < i < |t.sent| ==> Told(t, cmds)[i] == cmds[t.from + i - 1]
  {
    hide EncodeCommand, EncodeAll, StreamFrom;
  }

  // ---------------------------------------------------------------------------
  // The manager.

  /** Queueing a message never blocks: a full queue means the replica has fallen behind. */
  function Offer(s: Session, data: Bytes): Session {
    if |s.queue| < QUEUE_CAPACITY then s.(queue := s.queue + [data]) else s.(done := true)
  }

  ghost function Offered(s: Session, t: Trace, data: Bytes): Trace {
    if |s.queue| < QUEUE_CAPACITY then t.(sent := t.sent + [data]) else t
  }

  lemma StaysOk(t: Trace, cmds: seq<Command>, argv: Command)
    requires TraceOk(t, cmds)
    ensures TraceOk(t, cmds + [argv])
  {
    hide EncodeCommand, EncodeAll, StreamFrom;
    assert (cmds + [argv])[..t.from] == cmds[..t.from];
  }

  lemma OfferOk(s: Session, t: Trace, cmds: seq<Command>, argv: Command)
    requires SessionOk(s, t, cmds) && !s.done
    ensures SessionOk(Offer(s, EncodeCommand(argv)), Offered(s, t, EncodeCommand(argv)), cmds + [argv])
  {
    hide EncodeCommand, EncodeAll, StreamFrom;
    StaysOk(t, cmds, argv);
    var data := EncodeCommand(argv);
    if |s.queue| < QUEUE_CAPACITY {
      assert (t.sent + [data])[t.taken..] == t.sent[t.taken..] + [data];
    }
  }

  lemma OpenOk(cmds: seq<Command>, offset: nat, payload: Bytes)
    requires offset <= |EncodeAll(cmds)| && payload == StreamFrom(cmds, offset)
    ensures SessionOk(Session([PREAMBLE], false), Trace(|cmds|, offset, payload, [PREAMBLE], 0), cmds)
  {
    assert cmds[..|cmds|] == cmds;
  }

  ghost predicate SessionsOk(ss: map<nat, Session>, ts: map<nat, Trace>, replicas: set<nat>, last: nat, cmds: seq<Command>) {
    && ts.Keys == ss.Keys && replicas <= ss.Keys
    && (forall id :: id in ss ==> 0 < id <= last)
    && (forall id :: id in ss ==> SessionOk(ss[id], ts[id], cmds))
    && (forall id :: id in ss ==> (id in replicas <==> !ss[id].done))
  }

  /** The sessions after a message has been offered to the registered ones. */
  function FanOut(ss: map<nat, Session>, replicas: set<nat>, data: Bytes): map<nat, Session> {
    map id | id in ss :: if id in replicas then Offer(ss[id], data) else ss[id]
  }

  ghost function FanOutTraces(ss: map<nat, Session>, ts: map<nat, Trace>, replicas: set<nat>, data: Bytes): map<nat, Trace>
    requires ts.Keys == ss.Keys
  {
    map id | id in ts :: if id in replicas then Offered(ss[id], ts[id], data) else ts[id]
  }

  function Stalled(ss: map<nat, Session>, replicas: set<nat>): set<nat>
    requires replicas <= ss.Keys
  {
    set id | id in replicas && |ss[id].queue| >= QUEUE_CAPACITY
  }

  lemma FanOutOk(ss: map<nat, Session>, ts: map<nat, Trace>, replicas: set<nat>, last: nat, cmds: seq<Command>, argv: Command)
    requires SessionsOk(ss, ts, replicas, last, cmds)
    ensures var data := EncodeCommand(argv);
            SessionsOk(FanOut(ss, replicas, data), FanOutTraces(ss, ts, replicas, data),
                       replicas - Stalled(ss, replicas), last, cmds + [argv])
  {
    hide SessionOk, EncodeCommand;
    forall id | id in ss
      ensures SessionOk(FanOut(ss, replicas, EncodeCommand(argv))[id],
                        FanOutTraces(ss, ts, replicas, EncodeCommand(argv))[id], cmds + [argv])
    {
      FedOk(ss[id], ts[id], cmds, argv);
    }
  }

  datatype Reply = Continue(replID: Bytes, diff: Bytes) | FullResync(replID: Bytes, offset: int, rdb: Bytes)

  class Manager {
    const masterReplID: Bytes
    const backlog: Backlog
    var masterReplOffset: int
    var sessions: map<nat, Session>   // every session handed out
    var replicas: set<nat>            // those still registered
    var nextReplicaID: nat
    ghost var cmds: seq<Command>
    ghost var traces: map<nat, Trace>

    ghost predicate Valid()
      reads this, backlog, backlog.buf
    {
      && backlog.Valid() && backlog.stream == EncodeAll(cmds) && masterReplOffset == |EncodeAll(cmds)|
      && SessionsOk(sessions, traces, replicas, nextReplicaID, cmds)
    }

    constructor (id: Bytes)
      ensures Valid() && cmds == [] && sessions == map[] && masterReplID == id && fresh(backlog) && fresh(backlog.buf)
    {
      masterReplID, masterReplOffset := id, 0;
      backlog := new Backlog(1024 * 1024);
      sessions, replicas, nextReplicaID := map[], {}, 0;
      cmds, traces := [], map[];
    }

    method Close(ids: set<nat>)
      requires ids <= sessions.Keys
      modifies this`sessions
      ensures sessions.Keys == old(sessions.Keys)
      ensures forall id :: id in sessions && id !in ids ==> sessions[id] == old(sessions)[id]
      ensures forall id :: id in ids ==> sessions[id] == old(sessions)[id].(done := true)
    {
      var todo := ids;
      while todo != {}
        invariant todo <= ids && sessions.Keys == old(sessions.Keys)
        invariant forall id :: id in sessions && id !in ids - todo ==> sessions[id] == old(sessions)[id]
        invariant forall id :: id in ids - todo ==> sessions[id] == old(sessions)[id].(done := true)
      {
        var id :| id in todo;
        sessions := sessions[id := sessions[id].(done := true)];
        todo := todo - {id};
      }
    }

    /** Offers a message to every registered session; the ones that could not take it are dropped. */
    method Broadcast(data: Bytes)
      requires replicas <= sessions.Keys
      modifies this`sessions, this`replicas
      ensures sessions == FanOut(old(sessions), old(replicas), data)
      ensures replicas == old(replicas - Stalled(sessions, replicas))
    {
      ghost var ss := sessions;
      var stalled, todo := {}, replicas;
      while todo != {}
        invariant todo <= replicas == old(replicas) && sessions.Keys == ss.Keys
        invariant stalled == Stalled(ss, replicas - todo)
        invariant forall id :: id in ss && id !in replicas - todo - stalled ==> sessions[id] == ss[id]
        invariant forall id :: id in replicas - todo - stalled ==> sessions[id] == Offer(ss[id], data)
      {
        var id :| id in todo;
        if |sessions[id].queue| < QUEUE_CAPACITY {
          sessions := sessions[id := sessions[id].(queue := sessions[id].queue + [data])];
        } else {
          stalled := stalled + {id};
        }
        todo := todo - {id};
      }
      assert replicas - todo == replicas;
      replicas := replicas - stalled;
      Close(stalled);
    }

    /** Every registered session is offered the command; one that cannot take it is dropped. */
    method FeedCommand(argv: Command)
      requires Valid()
      modifies this, backlog, backlog.buf
      ensures Valid() && nextReplicaID == old(nextReplicaID)
      ensures argv == [] ==> cmds == old(cmds) && sessions == old(sessions) && traces == old(traces)
      ensures argv != [] ==> cmds == old(cmds) + [argv]
      ensures argv != [] ==> sessions == FanOut(old(sessions), old(replicas), EncodeCommand(argv))
      ensures argv != [] ==> traces == old(FanOutTraces(sessions, traces, replicas, EncodeCommand(argv)))
    {
      hide EncodeCommand, EncodeAll, SessionOk, Backlog.Valid, FanOut, FanOutTraces, Stalled;
      if argv == [] { return; }
      var data := WriteCommand(argv);
      StreamEnd(cmds, argv);
      FanOutOk(sessions, traces, replicas, nextReplicaID, cmds, argv);
      hide SessionsOk;
      backlog.Feed(data);
      masterReplOffset := masterReplOffset + |data|;
      traces := FanOutTraces(sessions, traces, replicas, data);
      Broadcast(data);
      cmds := cmds + [argv];
    }

    method NewSession(ghost offset: nat, ghost payload: Bytes) returns (id: nat)
      requires Valid()
      requires offset <= |EncodeAll(cmds)| && payload == StreamFrom(cmds, offset)
      modifies this`sessions, this`replicas, this`nextReplicaID, this`traces
      ensures Valid() && id !in old(sessions) && id in replicas
      ensures sessions == old(sessions)[id := Session([PREAMBLE], false)]
      ensures traces == old(traces)[id := Trace(|cmds|, offset, payload, [PREAMBLE], 0)]
    {
      hide SessionOk, Backlog.Valid, EncodeAll, StreamFrom;
      nextReplicaID := nextReplicaID + 1;
      id := nextReplicaID;
      OpenOk(cmds, offset, payload);
      sessions := sessions[id := Session([PREAMBLE], false)];
      traces := traces[id := Trace(|cmds|, offset, payload, [PREAMBLE], 0)];
      replicas := replicas + {id};
    }

    method RegisterReplica() returns (id: nat)
      requires Valid()
      modifies this`sessions, this`replicas, this`nextReplicaID, this`traces
      ensures Valid() && id !in old(sessions) && id in replicas
      ensures sessions == old(sessions)[id := Session([PREAMBLE], false)]
      ensures traces == old(traces)[id := Trace(|cmds|, |EncodeAll(cmds)|, [], [PREAMBLE], 0)]
    {
      id := NewSession(|EncodeAll(cmds)|, []);
    }

    /** The caller need not hold a registered session; an unknown one is ignored. */
    method UnregisterReplica(id: nat)
      requires Valid()
      modifies this`sessions, this`replicas
      ensures Valid()
      ensures sessions == if id in old(sessions) then old(sessions)[id := old(sessions)[id].(done := true)] else old(sessions)
    {
      hide Backlog.Valid, EncodeAll, TraceOk;
      replicas := replicas - {id};
      if id in sessions {
        sessions := sessions[id := sessions[id].(done := true)];
      }
    }

    /** The connection takes the next queued message, live or dropped. */
    method Receive(id: nat) returns (msg: Option<Bytes>)
      requires Valid() && id in sessions
      modifies this`sessions, this`traces
      ensures Valid() && sessions.Keys == old(sessions.Keys)
      ensures var t := old(traces)[id];
              if t.taken == |t.sent| then msg == None && traces == old(traces) && sessions == old(sessions)
              else msg == Some(t.sent[t.taken]) && traces == old(traces)[id := t.(taken := t.taken + 1)]
    {
      hide Backlog.Valid, EncodeAll, SessionOk;
      var s := sessions[id];
      ghost var t := traces[id];
      TakeOk(s, t, cmds);
      if s.queue == [] { return None; }
      msg := Some(s.queue[0]);
      sessions := sessions[id := s.(queue := s.queue[1..])];
      traces := traces[id := t.(taken := t.taken + 1)];
    }

    /**
     * A replica that names this stream and an offset still in the ring gets the bytes it misses;
     * any other gets a snapshot. Either way its messages start with the next command.
     */
    method HandlePSync(replID: Bytes, offset: int, snapshot: Bytes) returns (id: nat, reply: Reply)
      requires Valid()
      modifies this`sessions, this`replicas, this`nextReplicaID, this`traces
      ensures Valid() && id !in old(sessions) && id in replicas
      ensures sessions == old(sessions)[id := Session([PREAMBLE], false)]
      ensures reply.Continue? <==> replID != [] && replID == masterReplID && cmds != [] &&
                                   FirstKept(|EncodeAll(cmds)|, backlog.size) <= offset <= |EncodeAll(cmds)|
      ensures var start := if reply.Continue? then offset else |EncodeAll(cmds)|;
              && start >= 0 && traces == old(traces)[id := Trace(|cmds|, start, StreamFrom(cmds, start), [PREAMBLE], 0)]
              && reply == if reply.Continue? then Continue(masterReplID, StreamFrom(cmds, start))
                          else FullResync(masterReplID, start, snapshot)
    {
      hide SessionOk, Backlog.Valid;
      NonEmptyStream(cmds);
      hide EncodeAll;
      var partial := false;
      if replID != [] && replID == masterReplID {
        partial := backlog.CanPartialSync(offset);
      }
      if partial {
        var diff := backlog.ReadFromOffset(offset);
        id := NewSession(offset, diff.value);
        return id, Continue(masterReplID, diff.value);
      }
      id := NewSession(masterReplOffset, []);
      return id, FullResync(masterReplID, masterReplOffset, snapshot);
    }
  }

  lemma StreamEnd(cmds: seq<Command>, argv: Command)
    ensures EncodeAll(cmds + [argv]) == EncodeAll(cmds) + EncodeCommand(argv)
  {
    hide EncodeCommand;
    EncodeAllConcat(cmds, [argv]);
    assert EncodeAll([argv]) == EncodeCommand(argv) + EncodeAll([argv][1..]);
  }

  lemma NonEmptyStream(cmds: seq<Command>)
    ensures |EncodeAll(cmds)| > 0 <==> cmds != []
  {
    if cmds != [] { EncodeStar(cmds[0], []); }
  }

  lemma FedOk(s: Session, t: Trace, cmds: seq<Command>, argv: Command)
    requires SessionOk(s, t, cmds)
    ensures s.done ==> SessionOk(s, t, cmds + [argv])
    ensures !s.done ==> SessionOk(Offer(s, EncodeCommand(argv)), Offered(s, t, EncodeCommand(argv)), cmds + [argv])
  {
    hide EncodeCommand, TraceOk;
    if s.done { StaysOk(t, cmds, argv); } else { OfferOk(s, t, cmds, argv); }
  }

  lemma TakeOk(s: Session, t: Trace, cmds: seq<Command>)
    requires SessionOk(s, t, cmds)
    ensures t.taken <= |t.sent| && (s.queue == [] <==> t.taken == |t.sent|)
    ensures s.queue != [] ==> s.queue[0] == t.sent[t.taken]
    ensures s.queue != [] ==> SessionOk(s.(queue := s.queue[1..]), t.(taken := t.taken + 1), cmds)
  {
    hide EncodeAll, EncodeCommand, StreamFrom;
  }
}
