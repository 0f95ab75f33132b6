/** The epoll backend (src/epoll_loop.cpp) over the shared event handlers (src/event_loop.cpp): the slot table,
    the free list, the registered interests and the drain loops with their break flags. */
module EpollLoop {
  import opened Text
  import opened Serve
  import opened Protocol
  import opened Slots
  import Cn = Connection
  import E = EventLoop
  import A = Arena
  import R = Response

  /** What a handler asks the backend to do next with its connection. */
  datatype Next = Recv | Send | Shut

  /** on_recv up to the start_* call. */
  method ReceiveOn(cfg: Config, c: Cn.Connection, data: string, now: int, date: string) returns (next: Next)
    requires ValidConfig(cfg) && c.Valid() && c.state == Reading && c.lastConsumed == 0 && c.recvLen + |data| <= WINDOW
    modifies c, c.recvBuf, c.arena, c.arena.main
    ensures c.Valid() && !next.Shut?
    ensures c.sendBuf == old(c.sendBuf) || c.sendBuf == c.arena.main || fresh(c.sendBuf)
    ensures c.View().(interest := if next.Recv? then In else Out) == Receive(cfg, old(c.View()), data, now, date)
  {
    hide *;
    ReceiveIs(cfg, c.View(), data, now, date);
    c.Look();
    c.Touch(now);
    c.Look();
    c.AdvanceRecv(data);
    c.Look();
    c.Process();
    c.Fields(0);
    var want := E.ProcessRequest(cfg, c, date);
    return if want.In? then Recv else Send;
  }

  lemma ReceiveIs(cfg: Config, c: Conn, data: string, now: int, date: string)
    requires ValidConfig(cfg)
    ensures Parseable(cfg)
    ensures Receive(cfg, c, data, now, date)
         == Process(cfg, c.(phase := Processing, buf := c.buf + data, received := c.received + data, touched := now), date)
  {
    hide Process;
  }

  /** A send of `n` bytes leads from `before` to `after`, or to a close with those bytes on record. */
  ghost predicate Sends(cfg: Config, before: Conn, after: Conn, next: Next, n: nat, now: int, date: string)
  {
    && Parseable(cfg) && before.off + n <= |before.out|
    && match Transmit(cfg, before, n, now, date)
       case None => next.Shut? && after == Finish(before, n)
       case Some(d) => !next.Shut? && after.(interest := if next.Recv? then In else Out) == d
  }

  /** on_send up to the start_* call: the kernel took `n` bytes. */
  method SendOn(cfg: Config, c: Cn.Connection, n: nat, now: int, date: string) returns (next: Next)
    requires ValidConfig(cfg) && c.Valid() && c.state == Writing && c.sendOffset + n <= c.sendLen
    modifies c, c.recvBuf, c.arena, c.arena.main
    ensures c.Valid()
    ensures c.sendBuf == old(c.sendBuf) || c.sendBuf == c.arena.main || fresh(c.sendBuf)
    ensures Sends(cfg, old(c.View()), c.View(), next, n, now, date)
  {
    hide *;
    ghost var v := c.View();
    c.Look();
    TransmitIs(cfg, v, n, now, date);
    c.AdvanceSend(n);
    c.Look();
    SendsWhen(cfg, v, c.View(), Send, n, now, date);
    SendsWhen(cfg, v, c.View(), Shut, n, now, date);
    if c.sendOffset < c.sendLen { return Send; }
    if c.closeAfterSend { return Shut; }
    c.ResetForNextRequest(c.lastConsumed, now);
    c.Look();
    SendsWhen(cfg, v, c.View(), Recv, n, now, date);
    if c.recvLen == 0 { return Recv; }
    c.Process();
    c.Fields(0);
    var want := E.ProcessRequest(cfg, c, date);
    next := if want.In? then Recv else Send;
    SendsWhen(cfg, v, c.View(), next, n, now, date);
  }

  lemma SendsWhen(cfg: Config, before: Conn, after: Conn, next: Next, n: nat, now: int, date: string)
    requires Parseable(cfg) && before.off + n <= |before.out|
    ensures Sends(cfg, before, after, next, n, now, date) <==>
      match Transmit(cfg, before, n, now, date)
      case None => next.Shut? && after == Finish(before, n)
      case Some(d) => !next.Shut? && after.(interest := if next.Recv? then In else Out) == d
  {
    hide Transmit, Finish;
  }

  /** on_send, step by step. */
  lemma TransmitIs(cfg: Config, c: Conn, n: nat, now: int, date: string)
    requires ValidConfig(cfg) && c.off + n <= |c.out|
    ensures Parseable(cfg)
    ensures Finish(c, n) == c.(off := c.off + n, sent := c.sent + c.out[c.off..c.off + n])
    ensures var d := Finish(c, n); var e := Reset(d, now);
      e.phase == Reading && e.consumed == 0 && Transmit(cfg, c, n, now, date) ==
        if d.off < |d.out| then Some(d.(interest := Out))
        else if d.close then None
        else Some(if e.buf != "" then Process(cfg, e.(phase := Processing), date) else e.(interest := In))
  {
    hide Process;
  }

  /** One recv or send call of a drain loop: what the kernel returned (nothing for EAGAIN), and when. */
  datatype Call<T> = Call(result: Option<T>, now: int, date: string)

  /** `after` continues `before` with receive events, or send events, of one slot only. */
  ghost predicate OnlyReads(before: seq<Moment>, after: seq<Moment>, id: nat) {
    && |before| <= |after| && after[..|before|] == before
    && forall k :: |before| <= k < |after| ==> (after[k].event.Data? || after[k].event.RecvEnd?) && after[k].event.id == id
  }

  ghost predicate OnlySends(before: seq<Moment>, after: seq<Moment>, id: nat) {
    && |before| <= |after| && after[..|before|] == before
    && forall k :: |before| <= k < |after| ==> (after[k].event.Taken? || after[k].event.SendEnd?) && after[k].event.id == id
  }

  /** The state a history leads to; the initial one for a history that is not possible. */
  ghost function Replay(cfg: Config, limit: int, run: seq<Moment>): Server
    requires ValidConfig(cfg)
  {
    StartInv(cfg);
    if Possible(cfg, limit, Start(), run) then Reached(cfg, limit, run) else Start()
  }

  /** The bytes a slot's buffer has room for, and the bytes of its response that are still to be sent. */
  function Room(s: Server, id: nat): nat {
    if Live(s, id) && |s.slots[id].value.buf| <= WINDOW then WINDOW - |s.slots[id].value.buf| else 0
  }

  function Unsent(s: Server, id: nat): nat {
    if Live(s, id) && s.slots[id].value.off <= |s.slots[id].value.out| then |s.slots[id].value.out| - s.slots[id].value.off else 0
  }

  /** What one recv that returned `data` is in state `s`: those bytes, at most as many as were asked for; the end
      of the input when there are none. */
  function ReadMoment(s: Server, id: nat, data: string, now: int, date: string): Moment {
    var got := if |data| <= Room(s, id) then data else data[..Room(s, id)];
    Moment(if got == "" then RecvEnd(id) else Data(id, got), now, date)
  }

  /** What one send that returned `n` is in state `s`: that many bytes taken, at most as many as were offered. */
  function SendMoment(s: Server, id: nat, n: nat, now: int, date: string): Moment {
    var took := if n <= Unsent(s, id) then n else Unsent(s, id);
    Moment(if took == 0 then SendEnd(id) else Taken(id, took), now, date)
  }

  /** The history `run` continued by what the recv calls returned, each in the state the ones before it led to. */
  ghost function AfterReads(cfg: Config, limit: int, run: seq<Moment>, id: nat, calls: seq<Call<string>>): seq<Moment>
    requires ValidConfig(cfg)
  {
    if calls == [] then run
    else
      var so, last := AfterReads(cfg, limit, run, id, calls[..|calls| - 1]), calls[|calls| - 1];
      if last.result.None? then so
      else so + [ReadMoment(Replay(cfg, limit, so), id, last.result.value, last.now, last.date)]
  }

  /** The same for send calls. */
  ghost function AfterSends(cfg: Config, limit: int, run: seq<Moment>, id: nat, calls: seq<Call<nat>>): seq<Moment>
    requires ValidConfig(cfg)
  {
    if calls == [] then run
    else
      var so, last := AfterSends(cfg, limit, run, id, calls[..|calls| - 1]), calls[|calls| - 1];
      if last.result.None? then so
      else so + [SendMoment(Replay(cfg, limit, so), id, last.result.value, last.now, last.date)]
  }

  lemma ReadsStart(cfg: Config, limit: int, run: seq<Moment>, id: nat, calls: seq<Call<string>>)
    requires ValidConfig(cfg)
    ensures AfterReads(cfg, limit, run, id, calls[..0]) == run
  {
  }

  lemma ReadsStep(cfg: Config, limit: int, run: seq<Moment>, id: nat, calls: seq<Call<string>>, k: nat)
    requires ValidConfig(cfg) && k < |calls| && calls[k].result.Some?
    ensures var so := AfterReads(cfg, limit, run, id, calls[..k]);
      AfterReads(cfg, limit, run, id, calls[..k + 1])
      == so + [ReadMoment(Replay(cfg, limit, so), id, calls[k].result.value, calls[k].now, calls[k].date)]
  {
    hide ValidConfig, Replay, ReadMoment;
    assert calls[..k + 1][..k] == calls[..k];
  }

  lemma SendsStart(cfg: Config, limit: int, run: seq<Moment>, id: nat, calls: seq<Call<nat>>)
    requires ValidConfig(cfg)
    ensures AfterSends(cfg, limit, run, id, calls[..0]) == run
  {
  }

  lemma SendsStep(cfg: Config, limit: int, run: seq<Moment>, id: nat, calls: seq<Call<nat>>, k: nat)
    requires ValidConfig(cfg) && k < |calls| && calls[k].result.Some?
    ensures var so := AfterSends(cfg, limit, run, id, calls[..k]);
      AfterSends(cfg, limit, run, id, calls[..k + 1])
      == so + [SendMoment(Replay(cfg, limit, so), id, calls[k].result.value, calls[k].now, calls[k].date)]
  {
    hide ValidConfig, Replay, SendMoment;
    assert calls[..k + 1][..k] == calls[..k];
  }

  // ---- The loop object ----------------------------------------------------

  /** No object belongs to two connections. */
  ghost predicate Distinct(c: Cn.Connection, d: Cn.Connection)
    reads c, d
  {
    c.Footprint() !! d.Footprint()
  }

  class EpollLoop {
    const cfg: Config
    const limit: int
    const connections: array<Cn.Connection?>
    var freeList: seq<nat>
    var recvBreak: bool
    var sendBreak: bool
    /** The state as the protocol sees it, the events so far, and everything the connections own. */
    ghost var model: Server
    ghost var history: seq<Moment>
    ghost var repr: set<object>

    ghost predicate Holds(i: nat)
      reads this`model, this`repr, connections, repr
      requires i < connections.Length && i < |model.slots|
    {
      var c := connections[i];
      if c == null then model.slots[i].None?
      else c in repr && c.Footprint() <= repr && c.Valid() && model.slots[i] == Some(c.View())
    }

    /** The slots hold what the model says, in memory of their own. */
    ghost predicate Slots()
      reads this`freeList, this`model, this`repr, connections, repr
    {
      && connections.Length == MAX_CONNECTIONS == |model.slots| && freeList == model.free
      && this !in repr && connections !in repr
      && (forall i :: 0 <= i < connections.Length ==> Holds(i))
      && (forall i, j :: 0 <= i < j < connections.Length && connections[i] != null && connections[j] != null ==>
            connections[i] in repr && connections[j] in repr && Distinct(connections[i], connections[j]))
    }

    /** The events so far lead from the start to `s`. */
    ghost predicate At(s: Server)
      reads this`history
    {
      && ValidConfig(cfg)
      && (StartInv(cfg); Possible(cfg, limit, Start(), history))
      && s == Reached(cfg, limit, history)
    }

    ghost predicate Valid()
      reads this`freeList, this`model, this`repr, this`history, connections, repr
    {
      Slots() && At(model)
    }

    /** Valid, part by part. */
    lemma Parts()
      ensures Valid() <==> Slots() && At(model)
    {
    }

    /** So the invariant of the protocol holds now. */
    lemma Sound(s: Server)
      requires At(s)
      ensures ValidConfig(cfg) && Parseable(cfg) && ServerInv(cfg, s) && |s.slots| == MAX_CONNECTIONS
      ensures s.free != [] ==> s.free[|s.free| - 1] < |s.slots|
    {
      StartInv(cfg);
      RunKeeps(cfg, limit, Start(), history);
      AcceptKeeps(cfg, s, 0);
    }

    /** The state after one more event. */
    ghost function After1(s: Server, m: Moment): Server
      requires Parseable(cfg) && Enabled(s, m.event) && (s.free != [] ==> s.free[|s.free| - 1] < |s.slots|)
    {
      Step(cfg, limit, s, m.event, m.now, m.date)
    }

    /** A table without connections. */
    lemma Unoccupied()
      requires connections.Length == MAX_CONNECTIONS && forall i :: 0 <= i < connections.Length ==> connections[i] == null
      requires model == Start() && freeList == InitialFree(MAX_CONNECTIONS) && repr == {}
      ensures Slots()
    {
      var s := Start();
      assert s.free == freeList && |s.slots| == MAX_CONNECTIONS && forall i :: 0 <= i < |s.slots| ==> s.slots[i].None?;
      hide Start, Cn.Connection.Valid, Cn.Connection.View, Distinct;
    }

    constructor (cfg: Config, limit: int)
      requires ValidConfig(cfg)
      ensures Valid() && history == [] && this.cfg == cfg && this.limit == limit
      ensures fresh(connections) && repr == {}
    {
      this.cfg, this.limit := cfg, limit;
      connections := new Cn.Connection?[MAX_CONNECTIONS](_ => null);
      freeList := InitialFree(MAX_CONNECTIONS);
      recvBreak, sendBreak := false, false;
      model, history, repr := Start(), [], {};
      new;
      hide *;
      Initial();
      Unoccupied();
      Parts();
    }

    /** What it means to be in a state, in terms of the history, and when that is so. */
    lemma AtMeans(s: Server)
      requires At(s)
      ensures ValidConfig(cfg) && Parseable(cfg) && ServerInv(cfg, Start())
      ensures Possible(cfg, limit, Start(), history) && s == After(cfg, limit, Start(), history)
    {
      hide Possible, After, ServerInv, Parseable, Polite;
      StartInv(cfg);
    }

    lemma AtWhen(s: Server)
      requires ValidConfig(cfg) && Parseable(cfg) && ServerInv(cfg, Start())
      requires Possible(cfg, limit, Start(), history) && s == After(cfg, limit, Start(), history)
      ensures At(s)
    {
      hide Possible, After, ServerInv, Parseable, Polite;
    }

    lemma StepIs(s: Server, m: Moment)
      requires Parseable(cfg) && Enabled(s, m.event) && (s.free != [] ==> s.free[|s.free| - 1] < |s.slots|)
      ensures After1(s, m) == Step(cfg, limit, s, m.event, m.now, m.date)
    {
      hide Step, Enabled, Parseable;
    }

    /** The table of the constructor is the initial state. */
    lemma Initial()
      requires ValidConfig(cfg) && history == [] && model == Start()
      ensures At(model)
    {
      hide ServerInv, Parseable, Polite, Start;
    }

    /** Enters one event into the history. */
    ghost method Record(s: Server, m: Moment)
      requires At(s) && Parseable(cfg) && Enabled(s, m.event) && (s.free != [] ==> s.free[|s.free| - 1] < |s.slots|)
      requires R.LineText(m.date) && model == After1(s, m)
      modifies this`history
      ensures At(model) && history == old(history) + [m]
    {
      hide *;
      AtMeans(s);
      PossibleMore(cfg, limit, Start(), history, m);
      StepIs(s, m);
      history := history + [m];
      AtWhen(model);
    }

    /** Slot `id` has been worked on; every other slot is as it was. */
    twostate lemma Rebooked(id: nat)
      requires old(Slots()) && id < connections.Length && connections[id] != null
      requires unchanged(connections) && freeList == old(freeList)
      requires unchanged(old(repr) - old(connections[id].Footprint()))
      requires connections[id].Valid() && fresh(connections[id].Footprint() - old(connections[id].Footprint()))
      requires repr == old(repr) + connections[id].Footprint()
      requires model == old(model).(slots := old(model.slots)[id := Some(connections[id].View())])
      ensures Slots() && this !in repr && connections !in repr
    {
      hide Cn.Connection.Valid, Cn.Connection.View;
      forall i | 0 <= i < connections.Length ensures Holds(i) {
        assert old(Holds(i));
        if i != id && connections[i] != null {
          assert old(connections[i] != null);
          assert old(if i < id then Distinct(connections[i], connections[id]) else Distinct(connections[id], connections[i]));
        }
      }
      forall i, j | 0 <= i < j < connections.Length && connections[i] != null && connections[j] != null
        ensures connections[i] in repr && connections[j] in repr && Distinct(connections[i], connections[j])
      {
        assert old(Distinct(connections[i], connections[j]));
        assert old(Holds(i)) && old(Holds(j));
      }
    }

    // ---- start_recv, start_send, start_close ------------------------------

    method StartRecv(c: Cn.Connection)
      requires c.Valid()
      modifies this`sendBreak, c`interest
      ensures sendBreak && c.Valid() && c.View() == old(c.View()).(interest := In)
    {
      c.interest := In;
      sendBreak := true;
    }

    method StartSend(c: Cn.Connection)
      requires c.Valid()
      modifies this`recvBreak, c`interest
      ensures recvBreak && c.Valid() && c.View() == old(c.View()).(interest := Out)
    {
      c.interest := Out;
      recvBreak := true;
    }

    /** start_close and free_conn_id: the descriptor is closed, the slot emptied, its id free again. */
    method StartClose(id: nat)
      requires Slots() && Live(model, id)
      modifies this`recvBreak, this`sendBreak, this`freeList, this`model, connections
      ensures Slots() && recvBreak && sendBreak && this !in repr && connections !in repr
      ensures model == Close(old(model), id)
    {
      hide Cn.Connection.Valid, Cn.Connection.View, Distinct;
      connections[id] := null;
      freeList := freeList + [id];
      recvBreak, sendBreak := true, true;
      model := Close(model, id);
      forall i | 0 <= i < connections.Length ensures Holds(i) { assert old(Holds(i)); }
    }

    // ---- on_recv ----------------------------------------------------------

    ghost predicate CanRead(id: nat)
      reads this`model
    {
      Live(model, id) && model.slots[id].value.interest == In
    }

    ghost predicate CanWrite(id: nat)
      reads this`model
    {
      Live(model, id) && model.slots[id].value.interest == Out
    }

    /** The connection in a live slot, and the memory it may touch. */
    lemma Occupant(id: nat)
      requires Slots() && Live(model, id)
      ensures id < connections.Length && connections[id] != null && this !in repr && connections !in repr
      ensures var c := connections[id];
        && c.Valid() && c.View() == model.slots[id].value
        && c.state == model.slots[id].value.phase && c.lastActivity == model.slots[id].value.touched
        && {c, c.recvBuf, c.arena, c.arena.main} <= c.Footprint() <= repr
    {
      assert Holds(id);
    }

    /** An empty slot is empty in the model too. */
    lemma Vacant(id: nat)
      requires Slots() && id < connections.Length
      ensures id < |model.slots| && (connections[id] == null <==> model.slots[id].None?) && (Live(model, id) <==> connections[id] != null)
    {
      assert Holds(id);
      hide Cn.Connection.Valid, Cn.Connection.View;
    }

    /** The connection of a slot the kernel may report as readable is reading and has room. */
    lemma Readable(id: nat)
      requires Slots() && At(model) && CanRead(id)
      ensures id < connections.Length && connections[id] != null
      ensures connections[id].state == Reading && connections[id].lastConsumed == 0
      ensures connections[id].recvLen < WINDOW && |model.slots[id].value.buf| == connections[id].recvLen
    {
      hide *;
      Reader(id);
      Sound(model);
      Occupant(id);
      LiveInv(cfg, model, id);
      ReadingMode(cfg, model.slots[id].value);
      connections[id].Look();
    }

    lemma ReadingMode(cfg: Config, c: Conn)
      requires Parseable(cfg) && ConnInv(cfg, c) && c.interest == In
      ensures c.phase == Reading && |c.buf| < WINDOW && c.consumed == 0
    {
      hide SentInOrder, Faithful, AllRendered, Decide;
    }

    /** What the kernel is asked for after slot `id` has been worked on. */
    lemma Asked(s: Server, id: nat, c: Conn)
      requires id < |s.slots| && model == s.(slots := s.slots[id := Some(c)])
      ensures CanRead(id) <==> c.interest == In
      ensures CanWrite(id) <==> c.interest == Out
    {
    }

    method OnRecv(id: nat, data: string, now: int, date: string)
      requires Valid() && CanRead(id) && |data| <= WINDOW - |model.slots[id].value.buf| && R.LineText(date)
      modifies this, connections, repr
      ensures Valid() && fresh(repr - old(repr))
      ensures data == "" ==> history == old(history) + [Moment(RecvEnd(id), now, date)] && model == Close(old(model), id) && recvBreak
      ensures data != "" ==> history == old(history) + [Moment(Data(id, data), now, date)]
                             && model == OnData(cfg, old(model), id, data, now, date)
      ensures recvBreak == (old(recvBreak) || !CanRead(id))
    {
      if data == "" { EndRecv(id, now, date); } else { TakeData(id, data, now, date); }
    }

    lemma EndIs(id: nat, now: int, date: string)
      requires Parseable(cfg) && CanRead(id) && (model.free != [] ==> model.free[|model.free| - 1] < |model.slots|)
      ensures Live(model, id) && Enabled(model, RecvEnd(id))
      ensures After1(model, Moment(RecvEnd(id), now, date)) == Close(model, id) && !Live(Close(model, id), id)
    {
    }

    /** on_recv with nothing, or an error: the peer is gone. */
    method EndRecv(id: nat, now: int, date: string)
      requires Valid() && CanRead(id) && R.LineText(date)
      modifies this, connections
      ensures Valid() && repr == old(repr) && recvBreak && !Live(model, id)
      ensures history == old(history) + [Moment(RecvEnd(id), now, date)] && model == Close(old(model), id)
    {
      hide *;
      Parts();
      Sound(model);
      EndIs(id, now, date);
      StartClose(id);
      Record(old(model), Moment(RecvEnd(id), now, date));
      Parts();
    }

    lemma DataIs(id: nat, data: string, now: int, date: string)
      requires Parseable(cfg) && CanRead(id) && (model.free != [] ==> model.free[|model.free| - 1] < |model.slots|)
      requires 0 < |data| <= WINDOW - |model.slots[id].value.buf|
      ensures id < |model.slots| && model.slots[id].Some? && Live(model, id) && Enabled(model, Data(id, data))
      ensures After1(model, Moment(Data(id, data), now, date)) == OnData(cfg, model, id, data, now, date)
      ensures OnData(cfg, model, id, data, now, date)
           == model.(slots := model.slots[id := Some(Receive(cfg, model.slots[id].value, data, now, date))])
    {
      hide Receive;
    }

    /** on_recv with data, on the connection itself. */
    method ReadInto(c: Cn.Connection, data: string, now: int, date: string)
      requires ValidConfig(cfg) && c.Valid() && c.state == Reading && c.lastConsumed == 0 && c.recvLen + |data| <= WINDOW
      modifies this`recvBreak, this`sendBreak, c, c.recvBuf, c.arena, c.arena.main
      ensures c.Valid() && c.View() == Receive(cfg, old(c.View()), data, now, date)
      ensures recvBreak == (old(recvBreak) || c.View().interest == Out)
      ensures fresh(c.Footprint() - old(c.Footprint()))
    {
      hide Receive, Cn.Connection.Valid, Parseable, Polite, A.Arena.Valid;
      var next := ReceiveOn(cfg, c, data, now, date);
      if next.Recv? { StartRecv(c); } else { StartSend(c); }
    }

    /** on_recv with data. */
    method TakeData(id: nat, data: string, now: int, date: string)
      requires Valid() && CanRead(id) && 0 < |data| <= WINDOW - |model.slots[id].value.buf| && R.LineText(date)
      modifies this, connections, repr
      ensures Valid() && fresh(repr - old(repr))
      ensures history == old(history) + [Moment(Data(id, data), now, date)] && model == OnData(cfg, old(model), id, data, now, date)
      ensures recvBreak == (old(recvBreak) || !CanRead(id))
    {
      hide *;
      Parts();
      Sound(model);
      DataIs(id, data, now, date);
      Readable(id);
      Occupant(id);
      var c := connections[id];
      ReadInto(c, data, now, date);
      repr := repr + c.Footprint();
      model := OnData(cfg, model, id, data, now, date);
      Rebooked(id);
      Asked(old(model), id, Receive(cfg, old(model.slots[id].value), data, now, date));
      Record(old(model), Moment(Data(id, data), now, date));
      Parts();
    }

    // ---- on_send ----------------------------------------------------------

    /** The connection of a slot the kernel may report as writable has bytes left to send. */
    lemma Writable(id: nat)
      requires Slots() && At(model) && CanWrite(id)
      ensures id < connections.Length && connections[id] != null && connections[id].state == Writing
      ensures connections[id].sendOffset < connections[id].sendLen
      ensures |model.slots[id].value.out| == connections[id].sendLen && model.slots[id].value.off == connections[id].sendOffset
    {
      hide *;
      Writer(id);
      Sound(model);
      Occupant(id);
      LiveInv(cfg, model, id);
      WritingMode(cfg, model.slots[id].value);
      connections[id].Look();
    }

    lemma WritingMode(cfg: Config, c: Conn)
      requires Parseable(cfg) && ConnInv(cfg, c) && c.interest == Out
      ensures c.phase == Writing && c.off < |c.out|
    {
      hide SentInOrder, Faithful, AllRendered, Decide;
    }

    lemma CanTake(id: nat, n: nat)
      requires CanWrite(id) && 0 < n <= |model.slots[id].value.out| - model.slots[id].value.off
      ensures id < |model.slots| && model.slots[id].Some? && Live(model, id) && Enabled(model, Taken(id, n))
    {
    }

    lemma TakenIs(s: Server, id: nat, n: nat, now: int, date: string)
      requires Parseable(cfg) && Enabled(s, Taken(id, n)) && (s.free != [] ==> s.free[|s.free| - 1] < |s.slots|)
      ensures Live(s, id) && s.slots[id].value.off + n <= |s.slots[id].value.out|
      ensures After1(s, Moment(Taken(id, n), now, date)) == OnTaken(cfg, s, id, n, now, date)
    {
      hide *;
      StepIs(s, Moment(Taken(id, n), now, date));
      StepCases(cfg, limit, s, Taken(id, n), now, date);
    }

    lemma SendEndIs(id: nat, now: int, date: string)
      requires Parseable(cfg) && CanWrite(id) && (model.free != [] ==> model.free[|model.free| - 1] < |model.slots|)
      ensures Live(model, id) && Enabled(model, SendEnd(id))
      ensures After1(model, Moment(SendEnd(id), now, date)) == Close(model, id) && !Live(Close(model, id), id)
    {
    }

    /** on_send on the connection itself; true when it is to be closed. */
    method WriteFrom(c: Cn.Connection, n: nat, now: int, date: string) returns (shut: bool)
      requires ValidConfig(cfg) && c.Valid() && c.state == Writing && c.sendOffset + n <= c.sendLen
      modifies this`recvBreak, this`sendBreak, c, c.recvBuf, c.arena, c.arena.main
      ensures c.Valid()
      ensures shut == Transmit(cfg, old(c.View()), n, now, date).None?
      ensures c.View() == if shut then Finish(old(c.View()), n) else Transmit(cfg, old(c.View()), n, now, date).value
      ensures !shut ==> sendBreak == (old(sendBreak) || c.View().interest == In)
      ensures fresh(c.Footprint() - old(c.Footprint()))
    {
      hide Transmit, Finish, Cn.Connection.Valid, Parseable, Polite, A.Arena.Valid;
      var next := SendOn(cfg, c, n, now, date);
      if next.Recv? { StartRecv(c); }
      if next.Send? { StartSend(c); }
      return next.Shut?;
    }

    method OnSend(id: nat, n: nat, now: int, date: string)
      requires Valid() && CanWrite(id) && n <= |model.slots[id].value.out| - model.slots[id].value.off && R.LineText(date)
      modifies this, connections, repr
      ensures Valid() && fresh(repr - old(repr))
      ensures n == 0 ==> history == old(history) + [Moment(SendEnd(id), now, date)] && model == Close(old(model), id)
      ensures n > 0 ==> history == old(history) + [Moment(Taken(id, n), now, date)]
                        && model == OnTaken(cfg, old(model), id, n, now, date)
      ensures sendBreak == (old(sendBreak) || !CanWrite(id))
    {
      if n == 0 { EndSend(id, now, date); } else { TakeBytes(id, n, now, date); }
    }

    /** on_send with an error: the peer is gone. */
    method EndSend(id: nat, now: int, date: string)
      requires Valid() && CanWrite(id) && R.LineText(date)
      modifies this, connections
      ensures Valid() && repr == old(repr) && sendBreak && !Live(model, id)
      ensures history == old(history) + [Moment(SendEnd(id), now, date)] && model == Close(old(model), id)
    {
      hide *;
      Parts();
      Sound(model);
      SendEndIs(id, now, date);
      StartClose(id);
      Record(old(model), Moment(SendEnd(id), now, date));
      Parts();
    }

    /** on_send with bytes taken. */
    method TakeBytes(id: nat, n: nat, now: int, date: string)
      requires Valid() && CanWrite(id) && 0 < n <= |model.slots[id].value.out| - model.slots[id].value.off && R.LineText(date)
      modifies this, connections, repr
      ensures Valid() && fresh(repr - old(repr))
      ensures history == old(history) + [Moment(Taken(id, n), now, date)] && model == OnTaken(cfg, old(model), id, n, now, date)
      ensures sendBreak == (old(sendBreak) || !CanWrite(id))
    {
      hide *;
      Parts();
      Sound(model);
      CanTake(id, n);
      TakenIs(model, id, n, now, date);
      OnTakenIs(cfg, model, id, n, now, date);
      Writable(id);
      Occupant(id);
      var c := connections[id];
      var shut := WriteFrom(c, n, now, date);
      repr := repr + c.Footprint();
      ghost var d := if shut then Finish(old(model.slots[id].value), n) else Transmit(cfg, old(model.slots[id].value), n, now, date).value;
      model := model.(slots := model.slots[id := Some(d)]);
      Rebooked(id);
      ghost var closing := model;
      if shut {
        StartClose(id);
        Emptied(closing, id);
      } else {
        Asked(old(model), id, d);
      }
      Record(old(model), Moment(Taken(id, n), now, date));
      Parts();
    }

    lemma Emptied(s: Server, id: nat)
      requires Live(s, id) && model == Close(s, id)
      ensures !CanRead(id) && !CanWrite(id)
    {
    }

    // ---- Hang-ups, arrivals and the idle sweep ----------------------------

    lemma HangUpIs(s: Server, id: nat, now: int, date: string)
      requires Parseable(cfg) && Live(s, id) && (s.free != [] ==> s.free[|s.free| - 1] < |s.slots|)
      ensures Enabled(s, HangUp(id)) && After1(s, Moment(HangUp(id), now, date)) == Close(s, id)
      ensures !Live(Close(s, id), id)
    {
    }

    /** EPOLLERR or EPOLLHUP on a live slot. */
    method OnHangUp(id: nat, now: int, date: string)
      requires Valid() && Live(model, id) && R.LineText(date)
      modifies this, connections
      ensures Valid() && repr == old(repr) && !Live(model, id)
      ensures history == old(history) + [Moment(HangUp(id), now, date)]
    {
      hide *;
      Parts();
      Sound(model);
      HangUpIs(model, id, now, date);
      StartClose(id);
      Record(old(model), Moment(HangUp(id), now, date));
      Parts();
    }

    /** The id at the back of the free list belongs to no live connection. */
    lemma BackIsFree()
      requires Slots() && At(model) && freeList != []
      ensures model.free == freeList && MAX_CONNECTIONS == connections.Length == |model.slots|
      ensures var id := freeList[|freeList| - 1];
        id < MAX_CONNECTIONS && model.slots[id].None? && !Live(model, id) && connections[id] == null
    {
      Sound(model);
      AcceptSlots(model, 0);
      hide Cn.Connection.Valid, Cn.Connection.View, At, SlotInv;
      assert Holds(freeList[|freeList| - 1]);
    }

    /** alloc_conn_id; the table's size says that it is full. */
    method AllocConnId() returns (id: nat)
      requires Slots() && At(model)
      modifies this`freeList
      ensures id <= MAX_CONNECTIONS == connections.Length == |model.slots|
      ensures if old(freeList) == [] then id == MAX_CONNECTIONS && freeList == [] else
        id < MAX_CONNECTIONS && old(freeList) == freeList + [id] && !Live(model, id) && connections[id] == null
    {
      hide *;
      if freeList == [] {
        TableSize();
        return MAX_CONNECTIONS;
      }
      BackIsFree();
      id := freeList[|freeList| - 1];
      freeList := freeList[..|freeList| - 1];
    }

    lemma TableSize()
      requires Slots()
      ensures MAX_CONNECTIONS == connections.Length == |model.slots| && freeList == model.free && this !in repr && connections !in repr
    {
    }

    lemma ArriveIs(s: Server, now: int, date: string)
      requires Parseable(cfg) && (s.free != [] ==> s.free[|s.free| - 1] < |s.slots|)
      ensures Enabled(s, Arrive)
      ensures var t := After1(s, Moment(Arrive, now, date));
        if s.free == [] then t == s
        else t == s.(free := s.free[..|s.free| - 1], slots := s.slots[s.free[|s.free| - 1] := Some(NewConn(now))])
    {
    }

    /** A fresh connection has been put into the empty slot `id`; every other slot is as it was. */
    twostate lemma Placed(id: nat)
      requires old(Slots()) && id < connections.Length && old(connections[id]) == null && connections[id] != null
      requires forall i :: 0 <= i < connections.Length && i != id ==> connections[i] == old(connections[i])
      requires unchanged(old(repr)) && freeList == model.free
      requires connections[id].Valid() && fresh(connections[id].Footprint()) && fresh(connections[id])
      requires repr == old(repr) + connections[id].Footprint()
      requires model.slots == old(model.slots)[id := Some(connections[id].View())]
      ensures Slots() && this !in repr && connections !in repr
    {
      hide Cn.Connection.Valid, Cn.Connection.View;
      forall i | 0 <= i < connections.Length ensures Holds(i) { assert old(Holds(i)); }
      forall i, j | 0 <= i < j < connections.Length && connections[i] != null && connections[j] != null
        ensures connections[i] in repr && connections[j] in repr && Distinct(connections[i], connections[j])
      {
        assert old(Holds(i)) && old(Holds(j));
        if i != id && j != id { assert old(Distinct(connections[i], connections[j])); }
      }
    }

    /** One accepted descriptor: a fresh connection in a free slot, or turned away when the table is full. */
    method OnAccept(base: nat, now: int, date: string)
      requires Valid() && R.LineText(date)
      modifies this, connections
      ensures Valid() && fresh(repr - old(repr))
      ensures history == old(history) + [Moment(Arrive, now, date)]
      ensures old(freeList) == [] ==> model == old(model)
      ensures old(freeList) != [] ==>
        var id := old(freeList)[|old(freeList)| - 1];
        id < |old(model.slots)| && !Live(old(model), id)
        && model == old(model).(free := old(freeList)[..|old(freeList)| - 1], slots := old(model.slots)[id := Some(NewConn(now))])
    {
      hide *;
      Parts();
      Sound(model);
      TableSize();
      ArriveIs(model, now, date);
      var id := AllocConnId();
      if id < MAX_CONNECTIONS {
        var c := new Cn.Connection(base, now);
        connections[id] := c;
        repr := repr + c.Footprint();
        model := model.(free := freeList, slots := model.slots[id := Some(NewConn(now))]);
        Placed(id);
      }
      Record(old(model), Moment(Arrive, now, date));
      Parts();
    }

    lemma TickEnabled(s: Server, at: int)
      ensures Enabled(s, Tick(at))
    {
    }

    lemma TickIs(s: Server, at: int, date: string)
      requires Parseable(cfg) && Enabled(s, Tick(at)) && (s.free != [] ==> s.free[|s.free| - 1] < |s.slots|)
      ensures After1(s, Moment(Tick(at), at, date)) == Sweep(s, 0, at, limit)
    {
      StepCases(cfg, limit, s, Tick(at), at, date);
      hide Step, Sweep;
    }

    /** One round of the sweep. */
    lemma SweepRound(s: Server, i: nat, at: int)
      requires i < |s.slots|
      ensures Sweep(s, i, at, limit) ==
        if Live(s, i) && s.slots[i].value.phase == Reading && at - s.slots[i].value.touched > limit
        then Sweep(Close(s, i), i + 1, at, limit) else Sweep(s, i + 1, at, limit)
    {
    }

    /** on_timeout: closes every connection that has been reading for too long. */
    method OnTimeout(at: int, date: string)
      requires Valid() && R.LineText(date)
      modifies this, connections
      ensures Valid() && repr == old(repr)
      ensures history == old(history) + [Moment(Tick(at), at, date)] && |old(model.slots)| == MAX_CONNECTIONS
      ensures model == Sweep(old(model), 0, at, limit)
    {
      hide *;
      Parts();
      Sound(model);
      TableSize();
      TickEnabled(model, at);
      TickIs(model, at, date);
      for i := 0 to MAX_CONNECTIONS
        invariant Slots() && At(old(model)) && history == old(history) && repr == old(repr)
        invariant |model.slots| == MAX_CONNECTIONS == connections.Length
        invariant Sweep(old(model), 0, at, limit) == Sweep(model, i, at, limit)
      {
        Vacant(i);
        TableSize();
        SweepRound(model, i, at);
        var c := connections[i];
        if c != null {
          Occupant(i);
          if c.state == Reading && at - c.lastActivity > limit {
            StartClose(i);
            TableSize();
          }
        }
      }
      TableSize();
      SweepEnd(model, at);
      Record(old(model), Moment(Tick(at), at, date));
      Parts();
    }

    lemma SweepEnd(s: Server, at: int)
      ensures Sweep(s, |s.slots|, at, limit) == s
    {
    }

    // ---- The drain loops --------------------------------------------------

    /** The state the recorded history leads to is the current one. */
    lemma Here()
      requires At(model)
      ensures ValidConfig(cfg) && Replay(cfg, limit, history) == model
    {
      hide ValidConfig, ServerInv, Possible, Reached;
    }

    /** The moment a recv call stands for, on the connection in the slot. */
    lemma ReadIs(id: nat, data: string, now: int, date: string)
      requires Live(model, id) && |model.slots[id].value.buf| <= WINDOW
      ensures var room := WINDOW - |model.slots[id].value.buf|;
        var got := if |data| <= room then data else data[..room];
        ReadMoment(model, id, data, now, date) == Moment(if got == "" then RecvEnd(id) else Data(id, got), now, date)
    {
    }

    lemma SendIs(id: nat, n: nat, now: int, date: string)
      requires Live(model, id) && model.slots[id].value.off <= |model.slots[id].value.out|
      ensures var left := |model.slots[id].value.out| - model.slots[id].value.off;
        var took := if n <= left then n else left;
        SendMoment(model, id, n, now, date) == Moment(if took == 0 then SendEnd(id) else Taken(id, took), now, date)
    {
    }

    /** One round of the receiving loop: what the call returned is received, cut to the room there is. */
    method ReadCall(id: nat, call: Call<string>) returns (got: string)
      requires Valid() && CanRead(id) && call.result.Some? && R.LineText(call.date)
      modifies this, connections, repr
      ensures Valid() && fresh(repr - old(repr)) && recvBreak == (old(recvBreak) || !CanRead(id))
      ensures history == old(history) + [ReadMoment(Replay(cfg, limit, old(history)), id, call.result.value, call.now, call.date)]
      ensures OnlyReads(old(history), history, id) && (got == "" ==> !CanRead(id))
    {
      hide *;
      Parts();
      Here();
      Readable(id);
      Reader(id);
      var remaining := WINDOW - connections[id].recvLen;
      got := if |call.result.value| <= remaining then call.result.value else call.result.value[..remaining];
      ReadIs(id, call.result.value, call.now, call.date);
      ghost var before := history;
      OnRecv(id, got, call.now, call.date);
      SameReads(before, id);
      MoreReads(before, before, history[|before|], id);
      if got == "" { Parts(); Emptied(old(model), id); }
    }

    lemma Reader(id: nat)
      requires CanRead(id)
      ensures Live(model, id) && id < |model.slots| && model.slots[id].Some? && model.slots[id].value.interest == In
    {
    }

    lemma Writer(id: nat)
      requires CanWrite(id)
      ensures Live(model, id) && id < |model.slots| && model.slots[id].Some? && model.slots[id].value.interest == Out
    {
    }

    /** The loop on a readable connection: receives until the kernel has nothing more, the connection is closed,
        or a response is under way. Every call asks for at least one byte, and the history goes on with what the
        calls returned. */
    method DrainRecv(id: nat, calls: seq<Call<string>>) returns (used: nat)
      requires Valid() && CanRead(id) && forall k :: 0 <= k < |calls| ==> R.LineText(calls[k].date)
      modifies this, connections, repr
      ensures Valid() && fresh(repr - old(repr)) && OnlyReads(old(history), history, id)
      ensures used <= |calls| && (used == |calls| || calls[used].result.None? || !CanRead(id))
      ensures ValidConfig(cfg) && history == AfterReads(cfg, limit, old(history), id, calls[..used])
    {
      hide *;
      Parts();
      TableSize();
      Readable(id);
      SameReads(history, id);
      Here();
      recvBreak, used := false, 0;
      ReadsStart(cfg, limit, history, id, calls);
      Parts();
      while used < |calls|
        invariant Valid() && fresh(repr - old(repr)) && OnlyReads(old(history), history, id)
        invariant used <= |calls| && id < connections.Length && (CanRead(id) || !Live(model, id)) && !recvBreak
        invariant history == AfterReads(cfg, limit, old(history), id, calls[..used])
      {
        Parts();
        Vacant(id);
        Unasked(id);
        if connections[id] == null { break; }
        var call := calls[used];
        if call.result.None? { break; }
        ReadsStep(cfg, limit, old(history), id, calls, used);
        ghost var before := history;
        var got := ReadCall(id, call);
        StillReads(old(history), before, history, id);
        used := used + 1;
        if got == "" || recvBreak { break; }
      }
    }

    lemma Unasked(id: nat)
      ensures !Live(model, id) ==> !CanRead(id) && !CanWrite(id)
    {
    }

    /** One round of the sending loop: the kernel takes what the call returned, at most what is left to send. */
    method SendCall(id: nat, call: Call<nat>)
      requires Valid() && CanWrite(id) && call.result.Some? && R.LineText(call.date)
      modifies this, connections, repr
      ensures Valid() && fresh(repr - old(repr)) && sendBreak == (old(sendBreak) || !CanWrite(id))
      ensures history == old(history) + [SendMoment(Replay(cfg, limit, old(history)), id, call.result.value, call.now, call.date)]
      ensures OnlySends(old(history), history, id)
    {
      hide *;
      Parts();
      Here();
      Writable(id);
      Writer(id);
      var len := connections[id].sendLen - connections[id].sendOffset;
      SendIs(id, call.result.value, call.now, call.date);
      ghost var before := history;
      OnSend(id, if call.result.value <= len then call.result.value else len, call.now, call.date);
      SameSends(before, id);
      MoreSends(before, before, history[|before|], id);
    }

    /** The loop on a writable connection: sends, response after response, until the kernel takes no more, the
        connection is closed, or more input is needed. Every call offers at least one byte, and the history goes
        on with what the calls returned. */
    method DrainSend(id: nat, calls: seq<Call<nat>>) returns (used: nat)
      requires Valid() && CanWrite(id) && forall k :: 0 <= k < |calls| ==> R.LineText(calls[k].date)
      modifies this, connections, repr
      ensures Valid() && fresh(repr - old(repr)) && OnlySends(old(history), history, id)
      ensures used <= |calls| && (used == |calls| || calls[used].result.None? || !CanWrite(id))
      ensures ValidConfig(cfg) && history == AfterSends(cfg, limit, old(history), id, calls[..used])
    {
      hide *;
      Parts();
      TableSize();
      Writable(id);
      SameSends(history, id);
      Here();
      sendBreak, used := false, 0;
      SendsStart(cfg, limit, history, id, calls);
      Parts();
      while used < |calls|
        invariant Valid() && fresh(repr - old(repr)) && OnlySends(old(history), history, id)
        invariant used <= |calls| && id < connections.Length && (CanWrite(id) || !Live(model, id)) && !sendBreak
        invariant history == AfterSends(cfg, limit, old(history), id, calls[..used])
      {
        Parts();
        Vacant(id);
        Unasked(id);
        if connections[id] == null { break; }
        var call := calls[used];
        if call.result.None? { break; }
        SendsStep(cfg, limit, old(history), id, calls, used);
        ghost var before := history;
        SendCall(id, call);
        StillSends(old(history), before, history, id);
        used := used + 1;
        if sendBreak { break; }
      }
    }

    // ---- One reported event -----------------------------------------------

    /** The handling of one client event. epoll reports only what it was asked for; a hang-up names a live slot. */
    method OnClient(id: nat, hangUp: bool, readable: bool, writable: bool, now: int, date: string,
                    recvs: seq<Call<string>>, sends: seq<Call<nat>>) returns (used: nat)
      requires Valid() && id < MAX_CONNECTIONS && R.LineText(date)
      requires (forall k :: 0 <= k < |recvs| ==> R.LineText(recvs[k].date)) && (forall k :: 0 <= k < |sends| ==> R.LineText(sends[k].date))
      requires hangUp ==> Live(model, id)
      requires Live(model, id) && readable ==> CanRead(id)
      requires Live(model, id) && writable && !readable ==> CanWrite(id)
      modifies this, connections, repr
      ensures Valid() && fresh(repr - old(repr))
      ensures hangUp ==> history == old(history) + [Moment(HangUp(id), now, date)] && !Live(model, id)
      ensures !hangUp && readable ==> OnlyReads(old(history), history, id)
      ensures !hangUp && !readable ==> OnlySends(old(history), history, id)
      ensures !Live(old(model), id) ==> history == old(history)
      ensures ValidConfig(cfg) && used <= |recvs| + |sends|
      ensures !hangUp && Live(old(model), id) && readable ==>
        && used <= |recvs| && (used == |recvs| || recvs[used].result.None? || !CanRead(id))
        && history == AfterReads(cfg, limit, old(history), id, recvs[..used])
      ensures !hangUp && Live(old(model), id) && !readable && writable ==>
        && used <= |sends| && (used == |sends| || sends[used].result.None? || !CanWrite(id))
        && history == AfterSends(cfg, limit, old(history), id, sends[..used])
    {
      hide *;
      Parts();
      TableSize();
      Vacant(id);
      Here();
      used := 0;
      SameReads(history, id);
      SameSends(history, id);
      if hangUp {
        OnHangUp(id, now, date);
        return;
      }
      if connections[id] == null { return; }
      if readable {
        used := DrainRecv(id, recvs);
      } else if writable {
        used := DrainSend(id, sends);
      }
    }

    // ---- What holds between events ----------------------------------------

    /** The bytes still to be parsed lie in the buffer exactly as the peer sent them: they end what was received. */
    ghost predicate Untouched(c: Cn.Connection)
      reads c, c.recvBuf
    {
      && c.recvLen <= c.recvBuf.Length && c.recvLen <= |c.received|
      && forall k :: c.Edited() <= k < c.recvLen ==> c.recvBuf[k] == c.received[|c.received| - c.recvLen + k]
    }

    /** Between events every live connection is reading with room in its buffer, or writing with bytes left of a
        response; epoll is asked for exactly that. Unless the response is prebuilt, it lies in a region the arena has
        handed out since the last reset, in the main block or in an overflow block that has not been freed. */
    lemma Modes(id: nat)
      requires Valid() && id < connections.Length && connections[id] != null
      ensures var c := connections[id];
        || (c.state == Reading && c.interest == In && c.recvLen < c.recvBuf.Length)
        || (c.state == Writing && c.interest == Out && c.sendOffset < c.sendLen && c.SendAlive() && c.Lent())
      ensures Untouched(connections[id])
      ensures var c := connections[id]; c.state == Writing && !c.borrowed ==>
        exists r :: r in c.arena.live && c.SendsFrom(r) && c.arena.Placed(r)
    {
      hide *;
      Parts();
      Vacant(id);
      Sound(model);
      Occupant(id);
      LiveInv(cfg, model, id);
      ConnParts(cfg, model.slots[id].value);
      ModeOfConnection(connections[id]);
      connections[id].Kept();
    }

    /** The mode of a connection, read off its fields. */
    lemma ModeOfConnection(c: Cn.Connection)
      requires c.Valid() && Mode(c.View())
      requires var v := c.View(); |v.received| >= |v.buf| && v.received[|v.received| - |v.buf|..] == v.buf
      ensures
        || (c.state == Reading && c.interest == In && c.recvLen < c.recvBuf.Length)
        || (c.state == Writing && c.interest == Out && c.sendOffset < c.sendLen && c.SendAlive() && c.Lent())
      ensures Untouched(c)
    {
      hide A.Arena.Valid, Cn.Connection.SendAlive;
      assert c.raw == c.received[|c.received| - c.recvLen..];
    }

    /** Free ids and occupied slots partition the table, and no id is free twice. */
    lemma Partition()
      requires Valid()
      ensures connections.Length == MAX_CONNECTIONS
      ensures forall i, j :: 0 <= i < j < |freeList| ==> freeList[i] != freeList[j]
      ensures forall id: nat :: id < MAX_CONNECTIONS ==> (id in freeList <==> connections[id] == null)
    {
      TableSize();
      Sound(model);
      assert SlotInv(model);
      hide ConnInv, ClosedInv, At, Cn.Connection.Valid, Cn.Connection.View, ServerInv;
      forall id: nat | id < MAX_CONNECTIONS ensures id in freeList <==> connections[id] == null { Vacant(id); }
    }
  }

  lemma SameReads(run: seq<Moment>, id: nat)
    ensures OnlyReads(run, run, id)
  {
  }

  lemma MoreReads(before: seq<Moment>, run: seq<Moment>, m: Moment, id: nat)
    requires OnlyReads(before, run, id) && (m.event.Data? || m.event.RecvEnd?) && m.event.id == id
    ensures OnlyReads(before, run + [m], id)
  {
  }

  lemma StillReads(start: seq<Moment>, before: seq<Moment>, after: seq<Moment>, id: nat)
    requires OnlyReads(start, before, id) && OnlyReads(before, after, id)
    ensures OnlyReads(start, after, id)
  {
    assert after[..|before|][..|start|] == after[..|start|];
    forall k | |start| <= k < |after| ensures (after[k].event.Data? || after[k].event.RecvEnd?) && after[k].event.id == id {
      if k < |before| { assert after[k] == before[k]; }
    }
  }

  lemma StillSends(start: seq<Moment>, before: seq<Moment>, after: seq<Moment>, id: nat)
    requires OnlySends(start, before, id) && OnlySends(before, after, id)
    ensures OnlySends(start, after, id)
  {
    assert after[..|before|][..|start|] == after[..|start|];
    forall k | |start| <= k < |after| ensures (after[k].event.Taken? || after[k].event.SendEnd?) && after[k].event.id == id {
      if k < |before| { assert after[k] == before[k]; }
    }
  }

  lemma SameSends(run: seq<Moment>, id: nat)
    ensures OnlySends(run, run, id)
  {
  }

  lemma MoreSends(before: seq<Moment>, run: seq<Moment>, m: Moment, id: nat)
    requires OnlySends(before, run, id) && (m.event.Taken? || m.event.SendEnd?) && m.event.id == id
    ensures OnlySends(before, run + [m], id)
  {
  }
}
