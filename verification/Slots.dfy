/** The slot table of the event loop (src/event_loop.cpp, src/epoll_loop.cpp) as transitions, and the results
    about whole runs: arbitrary events from the network, the peers and the clock. */
module Slots {
  import opened Text
  import opened Serve
  import opened Protocol
  import R = Response

  // ---- The slot table -----------------------------------------------------

  const MAX_CONNECTIONS: nat := 10240

  /** The connection slots, the free list (last first) and, for the record, the connections closed so far. */
  datatype Server = Server(slots: seq<Option<Conn>>, free: seq<nat>, closed: seq<Conn>)

  /** The free list of the constructor: pushed from the top id down, so id 0 is handed out first. */
  function InitialFree(n: nat): seq<nat> { seq(n, i requires 0 <= i < n => n - 1 - i) }

  function Start(): Server { Server(seq(MAX_CONNECTIONS, _ => None), InitialFree(MAX_CONNECTIONS), []) }

  predicate Live(s: Server, id: nat) { id < |s.slots| && s.slots[id].Some? }

  /** alloc_conn_id and emplace; a full table turns the connection away. */
  function Accept(s: Server, now: int): Server
    requires s.free != [] ==> s.free[|s.free| - 1] < |s.slots|
  {
    if s.free == [] then s
    else
      var id := s.free[|s.free| - 1];
      s.(free := s.free[..|s.free| - 1], slots := s.slots[id := Some(NewConn(now))])
  }

  /** start_close: the connection is destroyed and its id goes back on the free list. */
  function Close(s: Server, id: nat): Server
    requires Live(s, id)
  {
    s.(slots := s.slots[id := None], free := s.free + [id], closed := s.closed + [s.slots[id].value])
  }

  /** A closing send: the last bytes are recorded before the slot is freed. */
  function Finish(c: Conn, n: nat): Conn
    requires c.off + n <= |c.out|
  {
    c.(off := c.off + n, sent := c.sent + c.out[c.off..c.off + n])
  }

  /** What the network, the peer and the clock can do. */
  datatype Event =
    | Arrive
    | Data(id: nat, bytes: string)
    | RecvEnd(id: nat)
    | Taken(id: nat, n: nat)
    | SendEnd(id: nat)
    | HangUp(id: nat)
    | Tick(now: int)

  /** The sweep of on_timeout over slots `i` and up. */
  function Sweep(s: Server, i: nat, now: int, limit: int): Server
    requires i <= |s.slots|
    decreases |s.slots| - i
  {
    if i == |s.slots| then s
    else if s.slots[i].Some? && s.slots[i].value.phase == Reading && now - s.slots[i].value.touched > limit
    then Sweep(Close(s, i), i + 1, now, limit)
    else Sweep(s, i + 1, now, limit)
  }

  /** When an event can happen: the kernel reports only what is asked for, and moves between one byte and
      all there is room or data for. */
  predicate Enabled(s: Server, e: Event) {
    match e
    case Arrive => true
    case Data(id, bytes) => Live(s, id) && s.slots[id].value.interest == In && 0 < |bytes| <= WINDOW - |s.slots[id].value.buf|
    case RecvEnd(id) => Live(s, id) && s.slots[id].value.interest == In
    case Taken(id, n) => Live(s, id) && s.slots[id].value.interest == Out && 0 < n <= |s.slots[id].value.out| - s.slots[id].value.off
    case SendEnd(id) => Live(s, id) && s.slots[id].value.interest == Out
    case HangUp(id) => Live(s, id)
    case Tick(_) => true
  }

  lemma EnabledMeans(s: Server, e: Event)
    requires Enabled(s, e)
    ensures e.Data? || e.RecvEnd? || e.SendEnd? || e.HangUp? ==> Live(s, e.id)
    ensures e.Taken? ==> Live(s, e.id) && e.id < |s.slots| && s.slots[e.id].Some?
                         && s.slots[e.id].value.off + e.n <= |s.slots[e.id].value.out|
  {
  }

  ghost function OnData(cfg: Config, s: Server, id: nat, bytes: string, now: int, date: string): Server
    requires Parseable(cfg) && Live(s, id)
  {
    s.(slots := s.slots[id := Some(Receive(cfg, s.slots[id].value, bytes, now, date))])
  }

  ghost function OnTaken(cfg: Config, s: Server, id: nat, n: nat, now: int, date: string): Server
    requires Parseable(cfg) && Live(s, id) && s.slots[id].value.off + n <= |s.slots[id].value.out|
  {
    match Transmit(cfg, s.slots[id].value, n, now, date)
    case Some(c) => s.(slots := s.slots[id := Some(c)])
    case None => Close(s.(slots := s.slots[id := Some(Finish(s.slots[id].value, n))]), id)
  }

  /** One event, at time `now` with the Date text `date`. */
  ghost function Step(cfg: Config, limit: int, s: Server, e: Event, now: int, date: string): Server
    requires Parseable(cfg) && Enabled(s, e) && (s.free != [] ==> s.free[|s.free| - 1] < |s.slots|)
  {
    EnabledMeans(s, e);
    hide *;
    match e
    case Arrive => Accept(s, now)
    case Data(id, bytes) => OnData(cfg, s, id, bytes, now, date)
    case RecvEnd(id) => Close(s, id)
    case Taken(id, n) => OnTaken(cfg, s, id, n, now, date)
    case SendEnd(id) => Close(s, id)
    case HangUp(id) => Close(s, id)
    case Tick(at) => Sweep(s, 0, at, limit)
  }

  // ---- Whole runs ---------------------------------------------------------

  /** Free ids and live slots partition the table, and no id is free twice. */
  ghost predicate SlotInv(s: Server) {
    && (forall i, j :: 0 <= i < j < |s.free| ==> s.free[i] != s.free[j])
    && (forall i :: 0 <= i < |s.free| ==> s.free[i] < |s.slots| && s.slots[s.free[i]].None?)
    && (forall id :: 0 <= id < |s.slots| && s.slots[id].None? ==> id in s.free)
  }

  /** What is left behind by a closed connection: a prefix of the answers its input calls for, and their
      bytes in order, the last response possibly cut by the peer. */
  ghost predicate ClosedInv(cfg: Config, c: Conn)
    requires Parseable(cfg)
  {
    && (exists rest :: Greedy(cfg, c.received) == Decisions(c.served) + rest)
    && SentInOrder(c) && AllRendered(c.served)
  }

  ghost predicate ServerInv(cfg: Config, s: Server)
    requires Parseable(cfg)
  {
    && SlotInv(s)
    && (forall id :: 0 <= id < |s.slots| && s.slots[id].Some? ==> ConnInv(cfg, s.slots[id].value))
    && (forall k :: 0 <= k < |s.closed| ==> ClosedInv(cfg, s.closed[k]))
  }

  lemma StartInv(cfg: Config)
    requires Parseable(cfg)
    ensures ServerInv(cfg, Start()) && |Start().slots| == MAX_CONNECTIONS
  {
    hide ConnInv, ClosedInv;
    var s := Start();
    forall id | 0 <= id < |s.slots| ensures id in s.free { assert s.free[MAX_CONNECTIONS - 1 - id] == id; }
  }

  /** A live connection, closed at any moment, leaves a faithful record. */
  lemma ConnCloses(cfg: Config, c: Conn)
    requires Parseable(cfg) && ConnInv(cfg, c)
    ensures ClosedInv(cfg, c)
  {
    hide Greedy, Decisions, Ahead, Mode, SentInOrder, AllRendered, Decide;
    assert c.received + "" == c.received;
    assert Greedy(cfg, c.received + "") == Decisions(c.served) + Ahead(cfg, c, "");
  }

  lemma CloseKeeps(cfg: Config, s: Server, id: nat)
    requires Parseable(cfg) && Live(s, id) && ClosedInv(cfg, s.slots[id].value)
    requires SlotInv(s) && forall k :: 0 <= k < |s.closed| ==> ClosedInv(cfg, s.closed[k])
    requires forall i :: 0 <= i < |s.slots| && i != id && s.slots[i].Some? ==> ConnInv(cfg, s.slots[i].value)
    ensures ServerInv(cfg, Close(s, id))
  {
    hide ConnInv, ClosedInv;
    var t := Close(s, id);
    assert t.free[|s.free|] == id;
    forall i | 0 <= i < |t.slots| && t.slots[i].None? ensures i in t.free {
      if i != id { assert i in s.free; }
    }
  }

  /** The id handed out belongs to no live connection. */
  lemma AcceptSlots(s: Server, now: int)
    requires SlotInv(s)
    ensures s.free != [] ==> s.free[|s.free| - 1] < |s.slots| && !Live(s, s.free[|s.free| - 1])
    ensures SlotInv(Accept(s, now))
  {
    hide NewConn;
    if s.free != [] {
      var n := |s.free| - 1;
      var t := Accept(s, now);
      forall i | 0 <= i < |t.slots| && t.slots[i].None? ensures i in t.free {
        var k :| 0 <= k < |s.free| && s.free[k] == i;
        assert t.free[k] == i;
      }
    }
  }

  lemma AcceptKeeps(cfg: Config, s: Server, now: int)
    requires ValidConfig(cfg) && ServerInv(cfg, s)
    ensures (s.free != [] ==> s.free[|s.free| - 1] < |s.slots|) && ServerInv(cfg, Accept(s, now))
    ensures s.free != [] ==> !Live(s, s.free[|s.free| - 1])
    ensures |Accept(s, now).slots| == |s.slots|
  {
    hide ConnInv, ClosedInv, NewConn, SlotInv, Parseable, Polite;
    AcceptSlots(s, now);
    NewConnInv(cfg, now);
  }

  lemma UpdateKeeps(cfg: Config, s: Server, id: nat, c: Conn)
    requires Parseable(cfg) && ServerInv(cfg, s) && Live(s, id) && ConnInv(cfg, c)
    ensures ServerInv(cfg, s.(slots := s.slots[id := Some(c)]))
  {
    hide ConnInv, ClosedInv;
  }

  lemma {:induction false} SweepKeeps(cfg: Config, s: Server, i: nat, now: int, limit: int)
    requires Parseable(cfg) && ServerInv(cfg, s) && i <= |s.slots|
    ensures ServerInv(cfg, Sweep(s, i, now, limit)) && |Sweep(s, i, now, limit).slots| == |s.slots|
    decreases |s.slots| - i
  {
    hide ConnInv, ClosedInv, SlotInv;
    if i < |s.slots| {
      if s.slots[i].Some? && s.slots[i].value.phase == Reading && now - s.slots[i].value.touched > limit {
        ConnCloses(cfg, s.slots[i].value);
        CloseKeeps(cfg, s, i);
        SweepKeeps(cfg, Close(s, i), i + 1, now, limit);
      } else {
        SweepKeeps(cfg, s, i + 1, now, limit);
      }
    }
  }

  /** The idle sweep never cuts off a response: a connection that is writing is left as it is. */
  lemma {:induction false} SweepSparesWriters(s: Server, i: nat, now: int, limit: int, id: nat)
    requires i <= |s.slots| && Live(s, id) && s.slots[id].value.phase == Writing
    ensures |Sweep(s, i, now, limit).slots| == |s.slots| && Sweep(s, i, now, limit).slots[id] == s.slots[id]
    decreases |s.slots| - i
  {
    if i < |s.slots| {
      if s.slots[i].Some? && s.slots[i].value.phase == Reading && now - s.slots[i].value.touched > limit {
        SweepSparesWriters(Close(s, i), i + 1, now, limit, id);
      } else {
        SweepSparesWriters(s, i + 1, now, limit, id);
      }
    }
  }

  lemma FinishIs(c: Conn, n: nat)
    requires c.off + n <= |c.out|
    ensures Finish(c, n) == c.(off := c.off + n, sent := c.sent + c.out[c.off..c.off + n])
  {
  }

  lemma FinishCloses(cfg: Config, c: Conn, n: nat)
    requires Parseable(cfg) && ConnInv(cfg, c) && c.phase == Writing && c.off + n <= |c.out|
    ensures ClosedInv(cfg, Finish(c, n))
  {
    hide *;
    var d := Finish(c, n);
    FinishIs(c, n);
    ConnParts(cfg, c);
    ConnCloses(cfg, c);
    SentMore(c, d, n);
    SameRecord(cfg, c, Finish(c, n));
  }

  lemma SameRecord(cfg: Config, c: Conn, d: Conn)
    requires Parseable(cfg) && ClosedInv(cfg, c) && d.received == c.received && d.served == c.served && SentInOrder(d)
    ensures ClosedInv(cfg, d)
  {
    hide Greedy, Decisions, SentInOrder, RenderedOk;
  }

  /** Every event keeps the server invariant. */
  lemma StepKeeps(cfg: Config, limit: int, s: Server, e: Event, now: int, date: string)
    requires R.LineText(date)
    requires ValidConfig(cfg) && ServerInv(cfg, s) && Enabled(s, e)
    ensures s.free != [] ==> s.free[|s.free| - 1] < |s.slots|
    ensures ServerInv(cfg, Step(cfg, limit, s, e, now, date)) && |Step(cfg, limit, s, e, now, date).slots| == |s.slots|
  {
    hide *;
    ConfigParses(cfg);
    AcceptKeeps(cfg, s, now);
    StepCases(cfg, limit, s, e, now, date);
    match e
    case Arrive =>
    case Data(id, bytes) => DataKeeps(cfg, s, id, bytes, now, date);
    case Taken(id, n) => TakenKeeps(cfg, s, id, n, now, date);
    case Tick(at) => SweepKeeps(cfg, s, 0, at, limit);
    case _ => EndKeeps(cfg, s, e.id);
  }

  lemma StepCases(cfg: Config, limit: int, s: Server, e: Event, now: int, date: string)
    requires Parseable(cfg) && Enabled(s, e) && (s.free != [] ==> s.free[|s.free| - 1] < |s.slots|)
    ensures e.Arrive? ==> Step(cfg, limit, s, e, now, date) == Accept(s, now)
    ensures e.Data? ==> Live(s, e.id) && Step(cfg, limit, s, e, now, date) == OnData(cfg, s, e.id, e.bytes, now, date)
    ensures e.Taken? ==> Live(s, e.id) && s.slots[e.id].value.off + e.n <= |s.slots[e.id].value.out|
                         && Step(cfg, limit, s, e, now, date) == OnTaken(cfg, s, e.id, e.n, now, date)
    ensures e.Tick? ==> Step(cfg, limit, s, e, now, date) == Sweep(s, 0, e.now, limit)
    ensures e.RecvEnd? || e.SendEnd? || e.HangUp? ==> Live(s, e.id) && Step(cfg, limit, s, e, now, date) == Close(s, e.id)
  {
    hide OnData, OnTaken, Sweep, Close, Accept;
  }

  lemma EndKeeps(cfg: Config, s: Server, id: nat)
    requires Parseable(cfg) && ServerInv(cfg, s) && Live(s, id)
    ensures ServerInv(cfg, Close(s, id)) && |Close(s, id).slots| == |s.slots|
  {
    hide ConnInv, ClosedInv, SlotInv;
    ConnCloses(cfg, s.slots[id].value);
    CloseKeeps(cfg, s, id);
  }

  lemma DataKeeps(cfg: Config, s: Server, id: nat, bytes: string, now: int, date: string)
    requires R.LineText(date)
    requires ValidConfig(cfg) && ServerInv(cfg, s) && Enabled(s, Data(id, bytes))
    ensures ServerInv(cfg, OnData(cfg, s, id, bytes, now, date)) && |OnData(cfg, s, id, bytes, now, date).slots| == |s.slots|
  {
    ModeOf(cfg, s.slots[id].value);
    hide ConnInv, ClosedInv, SlotInv, Receive;
    ReceiveKeeps(cfg, s.slots[id].value, bytes, now, date);
    UpdateKeeps(cfg, s, id, Receive(cfg, s.slots[id].value, bytes, now, date));
  }

  lemma ModeOf(cfg: Config, c: Conn)
    requires Parseable(cfg) && ConnInv(cfg, c)
    ensures c.interest == In <==> c.phase == Reading
    ensures c.interest == Out <==> c.phase == Writing
    ensures c.phase == Writing ==> c.off < |c.out|
  {
  }

  lemma TakenMeans(s: Server, id: nat, n: nat)
    requires Enabled(s, Taken(id, n))
    ensures Live(s, id) && id < |s.slots| && s.slots[id].Some?
    ensures s.slots[id].value.interest == Out && 0 < n && s.slots[id].value.off + n <= |s.slots[id].value.out|
  {
  }

  lemma TakenKeeps(cfg: Config, s: Server, id: nat, n: nat, now: int, date: string)
    requires R.LineText(date) && Parseable(cfg) && Live(s, id) && s.slots[id].value.off + n <= |s.slots[id].value.out|
    requires ValidConfig(cfg) && ServerInv(cfg, s) && Enabled(s, Taken(id, n))
    ensures |OnTaken(cfg, s, id, n, now, date).slots| == |s.slots| && ServerInv(cfg, OnTaken(cfg, s, id, n, now, date))
  {
    hide *;
    ConfigParses(cfg);
    TakenMeans(s, id, n);
    LiveInv(cfg, s, id);
    var c := s.slots[id].value;
    ModeOf(cfg, c);
    TakenConn(cfg, c, n, now, date);
    OnTakenIs(cfg, s, id, n, now, date);
    match Transmit(cfg, c, n, now, date)
    case Some(d) => UpdateKeeps(cfg, s, id, d);
    case None => FinishedSlot(cfg, s, s.(slots := s.slots[id := Some(Finish(c, n))]), id, Finish(c, n));
  }

  lemma OnTakenIs(cfg: Config, s: Server, id: nat, n: nat, now: int, date: string)
    requires Parseable(cfg) && Live(s, id) && s.slots[id].value.off + n <= |s.slots[id].value.out|
    ensures var r := Transmit(cfg, s.slots[id].value, n, now, date);
      var closing := s.(slots := s.slots[id := Some(Finish(s.slots[id].value, n))]);
      && |OnTaken(cfg, s, id, n, now, date).slots| == |s.slots|
      && (r.Some? ==> OnTaken(cfg, s, id, n, now, date) == s.(slots := s.slots[id := r]))
      && (r.None? ==> Live(closing, id) && OnTaken(cfg, s, id, n, now, date) == Close(closing, id))
  {
    hide Transmit, Finish;
  }

  lemma LiveInv(cfg: Config, s: Server, id: nat)
    requires Parseable(cfg) && ServerInv(cfg, s) && Live(s, id)
    ensures ConnInv(cfg, s.slots[id].value)
  {
    hide ConnInv;
  }

  /** A send leaves the connection sound, or leaves a sound record behind. */
  lemma TakenConn(cfg: Config, c: Conn, n: nat, now: int, date: string)
    requires R.LineText(date)
    requires ValidConfig(cfg) && ConnInv(cfg, c) && c.phase == Writing && 0 < n && c.off + n <= |c.out|
    ensures var r := Transmit(cfg, c, n, now, date);
      && (r.Some? ==> ConnInv(cfg, r.value))
      && (r.None? ==> ClosedInv(cfg, Finish(c, n)))
  {
    TransmitKeeps(cfg, c, n, now, date);
    hide *;
    FinishCloses(cfg, c, n);
  }

  lemma FinishedSlot(cfg: Config, s: Server, t: Server, id: nat, c: Conn)
    requires Parseable(cfg) && Live(s, id)
    requires ServerInv(cfg, s) && ClosedInv(cfg, c) && t == s.(slots := s.slots[id := Some(c)]) && Live(t, id)
    ensures ServerInv(cfg, Close(t, id)) && |Close(t, id).slots| == |s.slots|
  {
    hide ConnInv, ClosedInv;
    assert SlotInv(t);
    CloseKeeps(cfg, t, id);
  }

  /** An event with its time and Date text. */
  datatype Moment = Moment(event: Event, now: int, date: string)

  /** The history is possible: every event is enabled when it happens. */
  ghost predicate Possible(cfg: Config, limit: int, s: Server, run: seq<Moment>)
    requires ValidConfig(cfg) && ServerInv(cfg, s)
    decreases |run|
  {
    run != [] ==>
      Enabled(s, run[0].event) && R.LineText(run[0].date) &&
      (StepKeeps(cfg, limit, s, run[0].event, run[0].now, run[0].date);
       Possible(cfg, limit, Step(cfg, limit, s, run[0].event, run[0].now, run[0].date), run[1..]))
  }

  ghost function After(cfg: Config, limit: int, s: Server, run: seq<Moment>): Server
    requires ValidConfig(cfg) && ServerInv(cfg, s) && Possible(cfg, limit, s, run)
    decreases |run|
  {
    if run == [] then s
    else
      StepKeeps(cfg, limit, s, run[0].event, run[0].now, run[0].date);
      After(cfg, limit, Step(cfg, limit, s, run[0].event, run[0].now, run[0].date), run[1..])
  }

  /** The server invariant holds after every possible history. */
  lemma {:induction false} RunKeeps(cfg: Config, limit: int, s: Server, run: seq<Moment>)
    requires ValidConfig(cfg) && ServerInv(cfg, s) && Possible(cfg, limit, s, run)
    ensures ServerInv(cfg, After(cfg, limit, s, run)) && |After(cfg, limit, s, run).slots| == |s.slots|
    decreases |run|
  {
    hide ServerInv, Step, Enabled, R.LineText;
    if run != [] {
      StepKeeps(cfg, limit, s, run[0].event, run[0].now, run[0].date);
      RunKeeps(cfg, limit, Step(cfg, limit, s, run[0].event, run[0].now, run[0].date), run[1..]);
    }
  }

  /** A possible history, followed by an event that is enabled where it ends, is a possible history. */
  lemma {:induction false} PossibleMore(cfg: Config, limit: int, s: Server, run: seq<Moment>, m: Moment)
    requires ValidConfig(cfg) && ServerInv(cfg, s) && Possible(cfg, limit, s, run)
    requires Enabled(After(cfg, limit, s, run), m.event) && R.LineText(m.date)
    ensures (RunKeeps(cfg, limit, s, run);
             StepKeeps(cfg, limit, After(cfg, limit, s, run), m.event, m.now, m.date);
             Possible(cfg, limit, s, run + [m])
             && After(cfg, limit, s, run + [m]) == Step(cfg, limit, After(cfg, limit, s, run), m.event, m.now, m.date))
    decreases |run|
  {
    hide ServerInv, Step, Enabled, R.LineText;
    RunKeeps(cfg, limit, s, run);
    StepKeeps(cfg, limit, After(cfg, limit, s, run), m.event, m.now, m.date);
    if run == [] {
      assert (run + [m])[1..] == [];
    } else {
      assert (run + [m])[0] == run[0] && (run + [m])[1..] == run[1..] + [m];
      StepKeeps(cfg, limit, s, run[0].event, run[0].now, run[0].date);
      PossibleMore(cfg, limit, Step(cfg, limit, s, run[0].event, run[0].now, run[0].date), run[1..], m);
    }
  }

  // ---- The whole-run results ----------------------------------------------

  ghost function Reached(cfg: Config, limit: int, run: seq<Moment>): Server
    requires ValidConfig(cfg)
    requires (StartInv(cfg); Possible(cfg, limit, Start(), run))
  {
    StartInv(cfg);
    After(cfg, limit, Start(), run)
  }

  /** Whatever happened so far, in every slot the answers given are the first ones the input calls for,
      and all of them once the connection is reading again. */
  lemma AnswersAreGreedy(cfg: Config, limit: int, run: seq<Moment>, id: nat)
    requires ValidConfig(cfg)
    requires (StartInv(cfg); Possible(cfg, limit, Start(), run)) && Live(Reached(cfg, limit, run), id)
    ensures var c := Reached(cfg, limit, run).slots[id].value;
      && (exists rest :: Greedy(cfg, c.received) == Decisions(c.served) + rest)
      && (c.phase == Reading ==> Decisions(c.served) == Greedy(cfg, c.received))
  {
    StartInv(cfg);
    RunKeeps(cfg, limit, Start(), run);
    var c := Reached(cfg, limit, run).slots[id].value;
    hide Reached, After, Possible, SlotInv;
    ConnCloses(cfg, c);
    if c.phase == Reading { ReadingIsGreedy(cfg, c); }
  }

  lemma ReadingIsGreedy(cfg: Config, c: Conn)
    requires Parseable(cfg) && ConnInv(cfg, c) && c.phase == Reading
    ensures Decisions(c.served) == Greedy(cfg, c.received)
  {
    hide Greedy, Decide, Decisions;
    assert c.received + "" == c.received && c.buf + "" == c.buf;
    assert Greedy(cfg, c.received + "") == Decisions(c.served) + Ahead(cfg, c, "");
    GreedyUnfold(cfg, c.buf);
    assert Decisions(c.served) + [] == Decisions(c.served);
  }

  /** Chunking does not matter: two connections, in any two histories, that have received the same bytes and
      are both reading have given the same answers. */
  lemma ChunkingIndependent(cfg: Config, limit: int, run: seq<Moment>, id: nat, other: seq<Moment>, id': nat)
    requires ValidConfig(cfg)
    requires (StartInv(cfg); Possible(cfg, limit, Start(), run) && Possible(cfg, limit, Start(), other))
    requires Live(Reached(cfg, limit, run), id) && Live(Reached(cfg, limit, other), id')
    requires var c, d := Reached(cfg, limit, run).slots[id].value, Reached(cfg, limit, other).slots[id'].value;
      c.phase == Reading && d.phase == Reading && c.received == d.received
    ensures Decisions(Reached(cfg, limit, run).slots[id].value.served) == Decisions(Reached(cfg, limit, other).slots[id'].value.served)
  {
    AnswersAreGreedy(cfg, limit, run, id);
    AnswersAreGreedy(cfg, limit, other, id');
  }

  lemma ReachedIs(cfg: Config, limit: int, run: seq<Moment>)
    requires ValidConfig(cfg) && (StartInv(cfg); Possible(cfg, limit, Start(), run))
    ensures Parseable(cfg) && ServerInv(cfg, Start()) && Reached(cfg, limit, run) == After(cfg, limit, Start(), run)
  {
    hide After, ServerInv, Possible;
    StartInv(cfg);
  }

  lemma ServerParts(cfg: Config, s: Server)
    requires Parseable(cfg) && ServerInv(cfg, s)
    ensures SlotInv(s)
    ensures forall id :: 0 <= id < |s.slots| && s.slots[id].Some? ==> Mode(s.slots[id].value) && SentInOrder(s.slots[id].value)
    ensures forall k :: 0 <= k < |s.closed| ==> ClosedInv(cfg, s.closed[k])
  {
    hide SlotInv, Mode, SentInOrder, ClosedInv, Faithful, AllRendered, Decide;
  }

  /** In every reachable state: free ids and live slots partition the table; each live connection is reading
      with room to receive, or writing with bytes to send, and epoll is asked for exactly that; the bytes sent
      are the responses in order, the current one up to its offset. */
  lemma ReachableStates(cfg: Config, limit: int, run: seq<Moment>)
    requires ValidConfig(cfg) && (StartInv(cfg); Possible(cfg, limit, Start(), run))
    ensures var s := Reached(cfg, limit, run);
      && |s.slots| == 10240 && SlotInv(s)
      && (forall id :: 0 <= id < |s.slots| && s.slots[id].Some? ==> Mode(s.slots[id].value) && SentInOrder(s.slots[id].value))
      && (forall k :: 0 <= k < |s.closed| ==> ClosedInv(cfg, s.closed[k]))
  {
    assert MAX_CONNECTIONS == 10240;
    hide *;
    ConfigParses(cfg);
    StartInv(cfg);
    RunKeeps(cfg, limit, Start(), run);
    ReachedIs(cfg, limit, run);
    ServerParts(cfg, Reached(cfg, limit, run));
  }

  // ---- Events and the other connections -----------------------------------

  /** The idle sweep closes exactly the connections that are reading and have been idle for longer than the limit; every
      other slot is as it was. */
  lemma {:induction false} SweepExactly(s: Server, i: nat, now: int, limit: int, id: nat)
    requires i <= |s.slots| && Live(s, id)
    ensures var c := s.slots[id].value;
      |Sweep(s, i, now, limit).slots| == |s.slots| &&
      Sweep(s, i, now, limit).slots[id] ==
        if i <= id && c.phase == Reading && now - c.touched > limit then None else s.slots[id]
    decreases |s.slots| - i
  {
    if i < |s.slots| {
      if s.slots[i].Some? && s.slots[i].value.phase == Reading && now - s.slots[i].value.touched > limit {
        if i == id { ClosedStays(Close(s, i), i + 1, now, limit, id); } else { SweepExactly(Close(s, i), i + 1, now, limit, id); }
      } else {
        SweepExactly(s, i + 1, now, limit, id);
      }
    }
  }

  lemma {:induction false} ClosedStays(s: Server, i: nat, now: int, limit: int, id: nat)
    requires i <= |s.slots| && id < |s.slots| && s.slots[id].None?
    ensures |Sweep(s, i, now, limit).slots| == |s.slots| && Sweep(s, i, now, limit).slots[id] == None
    decreases |s.slots| - i
  {
    if i < |s.slots| {
      if s.slots[i].Some? && s.slots[i].value.phase == Reading && now - s.slots[i].value.touched > limit {
        ClosedStays(Close(s, i), i + 1, now, limit, id);
      } else {
        ClosedStays(s, i + 1, now, limit, id);
      }
    }
  }

  /** The event is about that connection, or about all. */
  predicate About(e: Event, id: nat) {
    match e
    case Arrive => false
    case Tick(_) => true
    case _ => e.id == id
  }

  function SlotOf(s: Server, id: nat): Option<Conn> { if id < |s.slots| then s.slots[id] else None }

  /** An event leaves every other live connection exactly as it was. */
  lemma StepSpares(cfg: Config, limit: int, s: Server, e: Event, now: int, date: string, id: nat)
    requires R.LineText(date) && ValidConfig(cfg) && ServerInv(cfg, s) && Enabled(s, e) && Live(s, id) && !About(e, id)
    ensures (StepKeeps(cfg, limit, s, e, now, date); SlotOf(Step(cfg, limit, s, e, now, date), id) == SlotOf(s, id))
  {
    hide *;
    ConfigParses(cfg);
    StepKeeps(cfg, limit, s, e, now, date);
    ServerParts(cfg, s);
    AcceptSlots(s, now);
    StepCases(cfg, limit, s, e, now, date);
    AboutMeans(e, id);
    match e
    case Arrive => AcceptSpares(s, now, id);
    case Data(i, bytes) => DataOnly(cfg, s, i, bytes, now, date, id);
    case Taken(i, n) => TakenOnly(cfg, s, i, n, now, date, id);
    case Tick(_) => assert false;
    case _ => CloseOnly(s, e.id, id);
  }

  lemma AboutMeans(e: Event, id: nat)
    ensures About(e, id) <==> e.Tick? || (!e.Arrive? && e.id == id)
  {
  }

  lemma AcceptSpares(s: Server, now: int, id: nat)
    requires Live(s, id) && (s.free != [] ==> s.free[|s.free| - 1] < |s.slots| && !Live(s, s.free[|s.free| - 1]))
    ensures SlotOf(Accept(s, now), id) == SlotOf(s, id)
  {
    hide NewConn;
  }

  lemma DataOnly(cfg: Config, s: Server, i: nat, bytes: string, now: int, date: string, id: nat)
    requires Parseable(cfg) && Live(s, i) && i != id
    ensures SlotOf(OnData(cfg, s, i, bytes, now, date), id) == SlotOf(s, id)
  {
    hide Receive;
  }

  lemma TakenOnly(cfg: Config, s: Server, i: nat, n: nat, now: int, date: string, id: nat)
    requires Parseable(cfg) && Live(s, i) && i != id && s.slots[i].value.off + n <= |s.slots[i].value.out|
    ensures SlotOf(OnTaken(cfg, s, i, n, now, date), id) == SlotOf(s, id)
  {
    hide Transmit, Finish;
  }

  lemma CloseOnly(s: Server, i: nat, id: nat)
    requires Live(s, i) && i != id
    ensures SlotOf(Close(s, i), id) == SlotOf(s, id)
  {
  }

  /** When a connection counts as active: it does when bytes arrive, and when a response has been taken in full; not
      while a response is being sent. */
  lemma DataTouches(cfg: Config, s: Server, id: nat, bytes: string, now: int, date: string)
    requires Parseable(cfg) && Live(s, id)
    ensures var c := SlotOf(OnData(cfg, s, id, bytes, now, date), id); c.Some? && c.value.touched == now
  {
    hide Decide, Render;
  }

  lemma TakenTouches(cfg: Config, s: Server, id: nat, n: nat, now: int, date: string)
    requires Parseable(cfg) && Live(s, id) && s.slots[id].value.off + n <= |s.slots[id].value.out|
    ensures var before, after := s.slots[id].value, SlotOf(OnTaken(cfg, s, id, n, now, date), id);
      after.Some? ==> after.value.touched == if before.off + n == |before.out| then now else before.touched
  {
    hide Decide, Render;
  }

  /** A new connection is active from its arrival on. */
  lemma AcceptTouches(s: Server, now: int)
    requires s.free != [] && s.free[|s.free| - 1] < |s.slots|
    ensures SlotOf(Accept(s, now), s.free[|s.free| - 1]) == Some(NewConn(now)) && NewConn(now).touched == now
  {
  }
}
