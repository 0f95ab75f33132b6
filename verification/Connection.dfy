/** One client connection (src/connection.h, src/connection.cpp): a fixed receive buffer edited in place,
    a response under way in arena memory, and the flags of the current request. */
module Connection {
  import opened Serve
  import opened Protocol
  import A = Arena
  import M = Memory

  const BLOCK_SIZE: nat := 8192

  class Connection {
    var state: Phase
    const recvBuf: array<char>
    var recvLen: nat
    var sendBuf: array<char>
    var sendStart: nat
    var sendLen: nat
    var sendOffset: nat
    var lastActivity: int
    var lastConsumed: nat
    var closeAfterSend: bool
    const arena: A.Arena
    /** The response under way is prebuilt data of the application; only send_prebuilt makes it so. */
    ghost var borrowed: bool
    /** What epoll was last asked to report for this descriptor. */
    ghost var interest: Interest
    /** The unconsumed bytes as the peer sent them, and the history of the connection. */
    ghost var raw: string
    ghost var received: string
    ghost var sent: string
    ghost var served: seq<Served>

    /** The objects this connection reads and writes. */
    ghost function Footprint(): set<object>
      reads this
    {
      {this, recvBuf, arena, arena.main, sendBuf}
    }

    /** Bytes below this offset may have been edited in place. */
    ghost function Edited(): nat
      reads this
    {
      if state == Writing then lastConsumed else 0
    }

    /** The response lies in the region `r`. */
    ghost predicate SendsFrom(r: A.Region)
      reads this`sendBuf, this`sendStart, this`sendLen
    {
      r.mem == sendBuf && r.start == sendStart && sendLen <= r.len
    }

    /** The response lies in memory the arena has handed out and not reclaimed; prebuilt data lies outside the arena. */
    ghost predicate SendAlive()
      reads this, arena
    {
      if borrowed then sendBuf !in arena.Owned() else exists r :: r in arena.live && SendsFrom(r)
    }

    /** The answer under way is borrowed exactly when its page is prebuilt. */
    ghost predicate Lent()
      reads this
    {
      served != [] && served[|served| - 1].decision.Answer? && borrowed == served[|served| - 1].decision.verdict.page.Raw?
    }

    /** Everything about memory: from offset `e` on, the buffer holds what the peer sent. */
    ghost predicate Sound(e: nat)
      reads this, recvBuf, arena
    {
      && recvBuf.Length == WINDOW && recvLen <= WINDOW && |raw| == recvLen
      && arena.Valid() && arena.blockSize == BLOCK_SIZE
      && recvBuf != arena.main && recvBuf != sendBuf
      && sendStart + sendLen <= sendBuf.Length && sendOffset <= sendLen
      && (forall k :: e <= k < recvLen ==> recvBuf[k] == raw[k])
    }

    ghost predicate Valid()
      reads this, recvBuf, arena
    {
      Sound(Edited()) && (state == Writing ==> SendAlive() && Lent())
    }

    /** The bytes of the response under way. */
    ghost function Out(): string
      reads this, sendBuf
    {
      if sendStart + sendLen <= sendBuf.Length then sendBuf[sendStart..sendStart + sendLen] else ""
    }

    ghost function View(): Conn
      reads this, sendBuf
    {
      Conn(state, interest, raw, Out(), sendOffset, lastConsumed, closeAfterSend, lastActivity, received, sent, served)
    }

    /** The view of a sound connection, field by field. */
    lemma Fields(e: nat)
      requires Sound(e)
      ensures var v := View();
        && v.phase == state && v.interest == interest && v.buf == raw && |v.out| == sendLen && v.off == sendOffset
        && v.consumed == lastConsumed && v.close == closeAfterSend && v.touched == lastActivity
        && |raw| == recvLen
    {
      hide A.Arena.Valid;
    }

    /** The same for a valid one; when it is not writing, its whole input is as the peer sent it. */
    lemma Look()
      requires Valid()
      ensures Sound(Edited()) && (state != Writing ==> Sound(0))
      ensures var v := View();
        && v.phase == state && v.interest == interest && v.buf == raw && |v.out| == sendLen && v.off == sendOffset
        && v.consumed == lastConsumed && v.close == closeAfterSend && v.touched == lastActivity
        && |raw| == recvLen
    {
      Fields(Edited());
    }

    /** A response of the connection's own lies in memory that the arena still holds. */
    lemma Kept()
      requires Valid()
      ensures state == Writing && !borrowed ==> exists r :: r in arena.live && SendsFrom(r) && arena.Placed(r)
    {
      hide SendsFrom, A.Arena.Placed;
    }

    /** Notes the time of the last activity. */
    method Touch(now: int)
      requires Valid() && state != Writing
      modifies this`lastActivity
      ensures Valid() && View() == old(View()).(touched := now)
    {
      hide A.Arena.Valid, SendAlive;
      lastActivity := now;
    }

    /** The input is about to be processed. */
    method Process()
      requires Valid() && state != Writing
      modifies this`state
      ensures state == Processing && Sound(0) && View() == old(View()).(phase := Processing)
    {
      hide A.Arena.Valid, SendAlive;
      state := Processing;
    }

    constructor (base: nat, now: int)
      ensures Valid() && View() == NewConn(now)
      ensures fresh(Footprint()) && arena.live == []
    {
      state, recvLen := Reading, 0;
      recvBuf := new char[WINDOW];
      var none := new char[0];
      sendBuf, sendStart, sendLen, sendOffset := none, 0, 0, 0;
      lastActivity, lastConsumed, closeAfterSend := now, 0, false;
      arena := new A.Arena(base, BLOCK_SIZE);
      borrowed := false;
      interest, raw, received, sent, served := In, "", "", "", [];
    }

    /** recv and advance_recv: the kernel puts `data` behind the bytes already there. */
    method AdvanceRecv(data: string)
      requires Valid() && state != Writing && recvLen + |data| <= WINDOW
      modifies this, recvBuf
      ensures Valid() && View() == old(View()).(buf := old(View()).buf + data, received := old(View()).received + data)
      ensures sendBuf == old(sendBuf)
    {
      hide A.Arena.Valid, SendAlive;
      var q := M.Put(recvBuf, recvLen, data);
      assert forall k :: recvLen <= k < q ==> recvBuf[k] == recvBuf[recvLen..q][k - recvLen];
      recvLen := q;
      raw, received := raw + data, received + data;
    }

    /** set_send; `lent` says whose memory it is. */
    method SetSend(buf: array<char>, start: nat, len: nat, ghost lent: bool)
      requires start + len <= buf.Length
      modifies this
      ensures sendBuf == buf && sendStart == start && sendLen == len && sendOffset == 0 && borrowed == lent
      ensures unchanged(`state) && unchanged(`recvLen) && unchanged(`lastActivity) && unchanged(`lastConsumed)
              && unchanged(`closeAfterSend) && unchanged(`interest) && unchanged(`raw) && unchanged(`received)
              && unchanged(`sent) && unchanged(`served)
    {
      sendBuf, sendStart, sendLen, sendOffset := buf, start, len, 0;
      borrowed := lent;
    }

    /** Editing the buffer below `e` leaves a connection sound from `e` on, and its view as it was. */
    twostate lemma EditedBelow(e: nat)
      requires old(Sound(e)) && unchanged(this) && unchanged(arena)
      requires forall k :: e <= k < recvBuf.Length ==> recvBuf[k] == old(recvBuf[k])
      requires unchanged(sendBuf)
      ensures Sound(e) && View() == old(View())
    {
      hide A.Arena.Valid;
    }

    lemma SoundLater(e: nat, f: nat)
      requires Sound(e) && e <= f
      ensures Sound(f)
    {
      hide A.Arena.Valid;
    }

    /** The objects of a sound connection that must not be confused. */
    lemma Separate(e: nat)
      requires Sound(e)
      ensures recvBuf != sendBuf && recvBuf != arena.main && |raw| == recvLen <= recvBuf.Length
      ensures forall k :: e <= k < |raw| ==> recvBuf[k] == raw[k]
    {
      hide A.Arena.Valid;
    }

    /** Writing to other objects can change nothing of the view but the response bytes. */
    twostate lemma SameButOut()
      requires unchanged(this)
      ensures View() == old(View()).(out := View().out)
    {
    }

    /** Memory of the arena for a response of `n` bytes. */
    method Reserve(n: nat, ghost e: nat) returns (r: A.Region)
      requires Sound(e)
      modifies arena
      ensures Sound(e) && arena.live == old(arena.live) + [r] && r.len == n && r.start + n <= r.mem.Length
      ensures r.mem != recvBuf && (r.mem == arena.main || fresh(r.mem))
    {
      hide A.Arena.Valid;
      r := arena.Alloc(n, 1);
    }

    /** set_send on the first `len` bytes of a region. */
    method SendFrom(r: A.Region, len: nat, ghost e: nat)
      requires Sound(e) && r in arena.live && len <= r.len && r.start + r.len <= r.mem.Length && r.mem != recvBuf
      modifies this
      ensures Sound(e) && SendAlive() && !borrowed && sendBuf == r.mem && SendsFrom(r) && lastConsumed == old(lastConsumed)
      ensures View() == old(View()).(out := r.mem[r.start..r.start + len], off := 0)
    {
      hide A.Arena.Valid;
      SetSend(r.mem, r.start, len, false);
      assert SendsFrom(r);
    }

    /** Enters the answer just prepared into the record. */
    ghost method Note(d: Decision)
      requires state == Writing && Sound(lastConsumed) && SendAlive()
      requires d.Answer? && borrowed == d.verdict.page.Raw?
      modifies this`served
      ensures Valid() && View() == old(View()).(served := old(View()).served + [Served(d, old(View()).out)])
    {
      hide A.Arena.Valid;
      served := served + [Served(d, Out())];
    }

    /** advance_send: the kernel took `n` more bytes of the response. */
    method AdvanceSend(n: nat)
      requires Valid() && sendOffset + n <= sendLen
      modifies this
      ensures Valid() && View() == old(View()).(off := old(View()).off + n,
                sent := old(View()).sent + old(View()).out[old(View()).off..old(View()).off + n])
      ensures unchanged(`sendBuf) && unchanged(`state)
    {
      hide A.Arena.Valid;
      M.SubSlice(sendBuf, sendStart, sendStart + sendLen, sendOffset, sendOffset + n);
      sent := sent + sendBuf[sendStart + sendOffset..sendStart + sendOffset + n];
      sendOffset := sendOffset + n;
    }

    /** reset_for_next_request: once the response has been sent, shifts the pipelined bytes down and reclaims the arena. */
    method ResetForNextRequest(consumed: nat, now: int)
      requires Valid() && state == Writing && consumed == lastConsumed && sendOffset == sendLen
      modifies this, recvBuf, arena
      ensures Valid() && View() == Reset(old(View()), now)
      ensures arena.live == [] && fresh(sendBuf)
    {
      hide A.Arena.Valid, SendAlive;
      ghost var before := View();
      ShiftDown(consumed);
      ClearRequest(now);
      assert Sound(0);
      assert Out() == "";
    }

    /** The rest of reset_for_next_request: send fields, flags and arena. */
    method ClearRequest(now: int)
      requires arena.Valid()
      modifies this`state, this`sendBuf, this`sendStart, this`sendLen, this`sendOffset, this`lastConsumed,
               this`closeAfterSend, this`lastActivity, this`borrowed, arena
      ensures state == Reading && fresh(sendBuf) && sendStart == 0 && sendLen == 0 && sendOffset == 0
      ensures lastConsumed == 0 && !closeAfterSend && lastActivity == now && !borrowed
      ensures arena.Valid() && arena.live == []
    {
      hide A.Arena.Valid;
      state := Reading;
      var none := new char[0];
      sendBuf, sendStart, sendLen, sendOffset := none, 0, 0, 0;
      lastConsumed := 0;
      closeAfterSend := false;
      borrowed := false;
      arena.Reset();
      lastActivity := now;
    }

    /** The memmove of reset_for_next_request: what is left is what the peer sent behind the request. */
    method ShiftDown(consumed: nat)
      requires recvBuf.Length == WINDOW && recvLen <= WINDOW && |raw| == recvLen
      requires forall k :: consumed <= k < recvLen ==> recvBuf[k] == raw[k]
      modifies this`recvLen, this`raw, recvBuf
      ensures recvLen <= WINDOW && |raw| == recvLen
      ensures raw == (if consumed < |old(raw)| then old(raw)[consumed..] else "")
      ensures forall k :: 0 <= k < recvLen ==> recvBuf[k] == raw[k]
    {
      if consumed < recvLen {
        var remaining := recvLen - consumed;
        ghost var before := recvBuf[consumed..recvLen];
        assert before == raw[consumed..];
        M.MemMove(recvBuf, 0, consumed, remaining);
        assert forall k :: 0 <= k < remaining ==> recvBuf[k] == recvBuf[0..remaining][k];
        recvLen := remaining;
        raw := raw[consumed..];
      } else {
        recvLen := 0;
        raw := "";
      }
    }
  }
}
