/** The per-connection protocol (src/event_loop.cpp, src/connection.cpp) as transitions, and the invariant
    every transition keeps. */
module Protocol {
  import opened Text
  import opened Serve
  import R = Response

  datatype Phase = Reading | Processing | Writing

  /** What epoll is asked to report for a connection. */
  datatype Interest = In | Out

  /** One answered request: the decision taken and the bytes prepared for it. */
  datatype Served = Served(decision: Decision, bytes: string)

  /** A connection. `buf` is what was received and not yet consumed, as the peer sent it; the last three
      fields record the history: all bytes received, all bytes sent, all answers in order. */
  datatype Conn = Conn(phase: Phase, interest: Interest, buf: string, out: string, off: nat, consumed: nat,
                       close: bool, touched: int, received: string, sent: string, served: seq<Served>)

  function NewConn(now: int): Conn { Conn(Reading, In, "", "", 0, 0, false, now, "", "", []) }

  // ---- Steps of one connection --------------------------------------------

  /** process_request on the buffered bytes. */
  ghost function Process(cfg: Config, c: Conn, date: string): Conn
    requires Parseable(cfg)
  {
    match Decide(cfg, c.buf)
    case NeedMore => c.(phase := Reading, interest := In)
    case Answer(_, _, _) => Answered(c, Decide(cfg, c.buf), date)
  }

  /** The connection with an answer ready to be sent. */
  function Answered(c: Conn, d: Decision, date: string): Conn
    requires d.Answer?
  {
    var bytes := Render(d.verdict.page, d.verdict.close, date);
    c.(phase := Writing, interest := Out, out := bytes, off := 0, consumed := d.consumed, close := d.verdict.close,
       served := c.served + [Served(d, bytes)])
  }

  /** on_recv with `data` just received. */
  ghost function Receive(cfg: Config, c: Conn, data: string, now: int, date: string): Conn
    requires Parseable(cfg)
  {
    Process(cfg, c.(phase := Processing, buf := c.buf + data, received := c.received + data, touched := now), date)
  }

  /** reset_for_next_request. */
  function Reset(c: Conn, now: int): Conn {
    c.(phase := Reading, buf := if c.consumed < |c.buf| then c.buf[c.consumed..] else "",
       out := "", off := 0, consumed := 0, close := false, touched := now)
  }

  /** on_send after the kernel took `n` bytes; None when the connection is closed. */
  ghost function Transmit(cfg: Config, c: Conn, n: nat, now: int, date: string): Option<Conn>
    requires Parseable(cfg) && c.off + n <= |c.out|
  {
    var d := c.(off := c.off + n, sent := c.sent + c.out[c.off..c.off + n]);
    if d.off < |d.out| then Some(d.(interest := Out))
    else if d.close then None
    else
      var e := Reset(d, now);
      Some(if e.buf != "" then Process(cfg, e.(phase := Processing), date) else e.(interest := In))
  }

  // ---- The greedy reading of an input stream ------------------------------

  function Window(s: string): string { if |s| <= WINDOW then s else s[..WINDOW] }

  lemma WindowShorter(s: string)
    ensures |Window(s)| <= |s|
  {
  }

  /** The answers an input stream calls for: parse the first 4096 bytes, answer, drop what was consumed, go on;
      stop at the first close, error or incomplete request. */
  ghost function Greedy(cfg: Config, s: string): seq<Decision>
    requires Parseable(cfg)
    decreases |s|
  {
    hide *;
    DecideConsumes(cfg, Window(s));
    WindowShorter(s);
    match Decide(cfg, Window(s))
    case NeedMore => []
    case Answer(n, verb, v) => [Answer(n, verb, v)] + if v.close then [] else Greedy(cfg, s[n..])
  }

  function Decisions(served: seq<Served>): seq<Decision> {
    seq(|served|, i requires 0 <= i < |served| => served[i].decision)
  }

  function AllBytes(served: seq<Served>): string {
    if served == [] then "" else AllBytes(served[..|served| - 1]) + served[|served| - 1].bytes
  }

  /** What the buffered bytes still call for once `more` has arrived behind them. */
  ghost function Ahead(cfg: Config, c: Conn, more: string): seq<Decision>
    requires Parseable(cfg)
  {
    if c.phase != Writing then Greedy(cfg, c.buf + more)
    else if c.close || c.consumed > |c.buf| then []
    else Greedy(cfg, c.buf[c.consumed..] + more)
  }

  /** Nothing lost, duplicated or reordered: however the input goes on, the answers given are the first ones
      its greedy reading calls for, and the rest depends on the buffered bytes alone. */
  ghost predicate Faithful(cfg: Config, c: Conn)
    requires Parseable(cfg)
  {
    forall more :: Greedy(cfg, c.received + more) == Decisions(c.served) + Ahead(cfg, c, more)
  }

  /** Exactly one of two modes: reading with room in the buffer, or writing with bytes left to send. */
  ghost predicate Mode(c: Conn) {
    || (c.phase == Reading && c.interest == In && |c.buf| < WINDOW && c.out == "" && c.off == 0 && c.consumed == 0 && !c.close)
    || (c.phase == Writing && c.interest == Out && |c.buf| <= WINDOW && c.off < |c.out| && c.consumed <= |c.buf|)
  }

  /** The bytes sent are the earlier responses in order, then the sent part of the current one. */
  ghost predicate SentInOrder(c: Conn) {
    if c.phase == Writing then
      && c.served != [] && c.out == c.served[|c.served| - 1].bytes && c.off <= |c.out|
      && c.sent == AllBytes(c.served[..|c.served| - 1]) + c.out[..c.off]
    else c.sent == AllBytes(c.served)
  }

  /** The bytes of an answer are its page, printed with some Date text. */
  ghost predicate RenderedOk(s: Served) {
    s.decision.Answer? && Printable(s.decision.verdict.page) &&
    exists date :: R.LineText(date) && s.bytes == Render(s.decision.verdict.page, s.decision.verdict.close, date)
  }

  ghost predicate AllRendered(served: seq<Served>) { forall k :: 0 <= k < |served| ==> RenderedOk(served[k]) }

  ghost predicate ConnInv(cfg: Config, c: Conn)
    requires Parseable(cfg)
  {
    && Mode(c) && SentInOrder(c) && Faithful(cfg, c) && AllRendered(c.served)
    && (c.phase == Reading ==> Decide(cfg, c.buf).NeedMore?)
    && |c.received| >= |c.buf| && c.received[|c.received| - |c.buf|..] == c.buf
  }

  ghost predicate ValidConfig(cfg: Config) { Parseable(cfg) && Polite(cfg) }

  /** The invariant, part by part. */
  lemma ConnParts(cfg: Config, c: Conn)
    requires Parseable(cfg)
    ensures ConnInv(cfg, c) <==>
      && Mode(c) && SentInOrder(c) && Faithful(cfg, c) && AllRendered(c.served)
      && (c.phase == Reading ==> Decide(cfg, c.buf).NeedMore?)
      && |c.received| >= |c.buf| && c.received[|c.received| - |c.buf|..] == c.buf
  {
    hide Mode, SentInOrder, Faithful, AllRendered, Decide;
  }

  // ---- Steps keep the invariant -------------------------------------------

  lemma GreedyUnfold(cfg: Config, s: string)
    requires Parseable(cfg)
    ensures var d := Decide(cfg, Window(s));
      && (d.NeedMore? ==> Greedy(cfg, s) == [])
      && (d.Answer? ==> d.consumed <= |s| && (!d.verdict.close ==> 0 < d.consumed)
                        && Greedy(cfg, s) == [d] + if d.verdict.close then [] else Greedy(cfg, s[d.consumed..]))
  {
    DecideConsumes(cfg, Window(s));
    hide Decide;
  }

  /** An answer for the buffered bytes is the next answer of the stream, whatever follows them. */
  lemma GreedyAnswer(cfg: Config, buf: string, more: string)
    requires Parseable(cfg) && |buf| <= WINDOW && Decide(cfg, buf).Answer?
    ensures var d := Decide(cfg, buf);
      d.consumed <= |buf| &&
      Greedy(cfg, buf + more) == [d] + if d.verdict.close then [] else Greedy(cfg, buf[d.consumed..] + more)
  {
    hide Decide, Greedy;
    var s := buf + more;
    var k := |Window(s)| - |buf|;
    assert Window(s) == buf + more[..k];
    DecideStable(cfg, buf, more[..k]);
    DecideConsumes(cfg, buf);
    GreedyUnfold(cfg, s);
    assert s[Decide(cfg, buf).consumed..] == buf[Decide(cfg, buf).consumed..] + more;
  }

  /** Between two steps: `c` holds bytes to be processed and nothing to send. */
  ghost predicate Ready(cfg: Config, c: Conn)
    requires Parseable(cfg)
  {
    && c.phase != Writing && |c.buf| <= WINDOW && c.out == "" && c.off == 0 && c.consumed == 0 && !c.close
    && SentInOrder(c) && Faithful(cfg, c) && AllRendered(c.served)
    && |c.received| >= |c.buf| && c.received[|c.received| - |c.buf|..] == c.buf
  }

  lemma DecisionsSnoc(served: seq<Served>, s: Served)
    ensures Decisions(served + [s]) == Decisions(served) + [s.decision]
    ensures AllBytes(served + [s]) == AllBytes(served) + s.bytes
  {
    assert (served + [s])[..|served|] == served;
  }

  /** Only the input, the answers and what is ahead matter for faithfulness. */
  lemma FaithfulSame(cfg: Config, c: Conn, d: Conn)
    requires Parseable(cfg) && Faithful(cfg, c) && d.received == c.received && Decisions(d.served) == Decisions(c.served)
    requires forall more :: Ahead(cfg, d, more) == Ahead(cfg, c, more)
    ensures Faithful(cfg, d)
  {
    forall more ensures Greedy(cfg, d.received + more) == Decisions(d.served) + Ahead(cfg, d, more) {
      assert Greedy(cfg, c.received + more) == Decisions(c.served) + Ahead(cfg, c, more);
    }
  }

  /** Answering moves one decision from what is ahead to what is done. */
  lemma FaithfulAnswer(cfg: Config, c: Conn, d: Conn, s: Served)
    requires Parseable(cfg) && Faithful(cfg, c) && c.phase != Writing && |c.buf| <= WINDOW
    requires Decide(cfg, c.buf).Answer? && s.decision == Decide(cfg, c.buf)
    requires d.phase == Writing && d.received == c.received && d.buf == c.buf && d.served == c.served + [s]
    requires d.consumed == s.decision.consumed && d.close == s.decision.verdict.close
    ensures Faithful(cfg, d)
  {
    DecisionsSnoc(c.served, s);
    forall more ensures Greedy(cfg, d.received + more) == Decisions(d.served) + Ahead(cfg, d, more) {
      GreedyAnswer(cfg, c.buf, more);
      hide Decide, Greedy, Decisions;
      assert Greedy(cfg, c.received + more) == Decisions(c.served) + Ahead(cfg, c, more);
      Assoc(Decisions(c.served), [s.decision], Ahead(cfg, d, more));
    }
  }

  lemma AnswerKeeps(cfg: Config, c: Conn, d: Conn, s: Served)
    requires Parseable(cfg) && Ready(cfg, c) && Decide(cfg, c.buf) == s.decision && s.decision.Answer?
    requires s.bytes != "" && RenderedOk(s)
    requires s.decision.consumed <= |c.buf|
    requires d == c.(phase := Writing, interest := Out, out := s.bytes, off := 0, consumed := s.decision.consumed,
                     close := s.decision.verdict.close, served := c.served + [s])
    ensures ConnInv(cfg, d)
  {
    hide Decide, Greedy, Decisions, RenderedOk, Faithful, SentInOrder, AllRendered, AllBytes, Parseable;
    FaithfulAnswer(cfg, c, d, s);
    AnswerSent(c, d, s);
    RenderedSnoc(c.served, s);
  }

  lemma RenderedSnoc(served: seq<Served>, s: Served)
    requires AllRendered(served) && RenderedOk(s)
    ensures AllRendered(served + [s])
  {
  }

  lemma AnswerSent(c: Conn, d: Conn, s: Served)
    requires c.phase != Writing && SentInOrder(c) && d.phase == Writing && d.out == s.bytes && d.off == 0
    requires d.served == c.served + [s] && d.sent == c.sent
    ensures SentInOrder(d)
  {
    assert d.served[..|d.served| - 1] == c.served;
    assert d.sent == AllBytes(c.served) + d.out[..0];
  }

  lemma SameAheadIdle(cfg: Config, c: Conn, d: Conn)
    requires Parseable(cfg) && c.phase != Writing && d.phase != Writing && d.buf == c.buf
    ensures forall more :: Ahead(cfg, d, more) == Ahead(cfg, c, more)
  {
    hide Greedy;
  }

  lemma WaitKeeps(cfg: Config, c: Conn)
    requires Parseable(cfg) && Ready(cfg, c) && Decide(cfg, c.buf).NeedMore? && |c.buf| < WINDOW
    ensures ConnInv(cfg, c.(phase := Reading, interest := In))
  {
    hide Decide, Greedy, Decisions, AllBytes, Faithful, Parseable, AllRendered;
    SameAheadIdle(cfg, c, c.(phase := Reading, interest := In));
    FaithfulSame(cfg, c, c.(phase := Reading, interest := In));
  }

  lemma ProcessKeeps(cfg: Config, c: Conn, date: string)
    requires ValidConfig(cfg) && Ready(cfg, c) && R.LineText(date)
    ensures ConnInv(cfg, Process(cfg, c, date))
  {
    DecideConsumes(cfg, c.buf);
    hide Decide, Render, ConnInv, Ready, Polite, Printable;
    var d := Process(cfg, c, date);
    if Decide(cfg, c.buf).Answer? {
      DecidePrintable(cfg, c.buf);
      RenderNonEmpty(Decide(cfg, c.buf).verdict.page, Decide(cfg, c.buf).verdict.close, date);
      AnswerKeeps(cfg, c, d, Served(Decide(cfg, c.buf), d.out));
    } else {
      WaitKeeps(cfg, c);
    }
  }

  /** Bytes that arrive move from the future of the stream into the buffer. */
  lemma FaithfulReceive(cfg: Config, c: Conn, d: Conn, data: string)
    requires Parseable(cfg) && Faithful(cfg, c) && c.phase == Reading && d.phase == Processing
    requires d.received == c.received + data && d.buf == c.buf + data && d.served == c.served
    ensures Faithful(cfg, d)
  {
    hide Greedy, Decisions;
    forall more ensures Greedy(cfg, d.received + more) == Decisions(d.served) + Ahead(cfg, d, more) {
      Assoc(c.received, data, more);
      Assoc(c.buf, data, more);
      assert Greedy(cfg, c.received + (data + more)) == Decisions(c.served) + Ahead(cfg, c, data + more);
    }
  }

  lemma SuffixGrows(all: string, buf: string, data: string)
    requires |all| >= |buf| && all[|all| - |buf|..] == buf
    ensures (all + data)[|all + data| - |buf + data|..] == buf + data
  {
  }

  /** Receiving any chunk that fits keeps the connection invariant. */
  lemma ReceiveKeeps(cfg: Config, c: Conn, data: string, now: int, date: string)
    requires R.LineText(date)
    requires ValidConfig(cfg) && ConnInv(cfg, c) && c.phase == Reading && |c.buf| + |data| <= WINDOW
    ensures ConnInv(cfg, Receive(cfg, c, data, now, date))
  {
    hide Greedy, Decisions, Decide, AllBytes, Faithful, Process, Render;
    var d := c.(phase := Processing, buf := c.buf + data, received := c.received + data, touched := now);
    FaithfulReceive(cfg, c, d, data);
    SuffixGrows(c.received, c.buf, data);
    ProcessKeeps(cfg, d, date);
  }

  /** Sent bytes move from the current response to the output stream. */
  lemma SentMore(c: Conn, d: Conn, n: nat)
    requires c.phase == Writing && SentInOrder(c) && c.off + n <= |c.out|
    requires d == c.(off := c.off + n, sent := c.sent + c.out[c.off..c.off + n])
    ensures SentInOrder(d) && (d.off == |d.out| ==> d.sent == AllBytes(d.served) && c.sent + c.out[c.off..] == d.sent)
  {
    assert c.out[..c.off] + c.out[c.off..c.off + n] == c.out[..c.off + n];
    Assoc(AllBytes(c.served[..|c.served| - 1]), c.out[..c.off], c.out[c.off..c.off + n]);
    assert d.off == |d.out| ==> d.out[..d.off] == d.out && c.out[c.off..] == c.out[c.off..c.off + n];
  }

  lemma PartialKeeps(cfg: Config, c: Conn, d: Conn, n: nat)
    requires Parseable(cfg) && ConnInv(cfg, c) && c.phase == Writing && c.off + n < |c.out|
    requires d == c.(off := c.off + n, sent := c.sent + c.out[c.off..c.off + n])
    ensures ConnInv(cfg, d.(interest := Out))
  {
    hide *;
    ConnParts(cfg, c);
    PartialMode(c, d);
    SameAhead(cfg, c, d);
    SentMore(c, d, n);
    FaithfulSame(cfg, c, d);
    ConnParts(cfg, d);
  }

  lemma PartialMode(c: Conn, d: Conn)
    requires Mode(c) && c.phase == Writing && d == c.(off := d.off, sent := d.sent) && d.off < |c.out|
    ensures Mode(d) && d.(interest := Out) == d
  {
  }

  lemma SameAhead(cfg: Config, c: Conn, d: Conn)
    requires Parseable(cfg) && d.phase == c.phase && d.close == c.close && d.consumed == c.consumed && d.buf == c.buf
    ensures forall more :: Ahead(cfg, d, more) == Ahead(cfg, c, more)
  {
    hide Greedy;
  }

  lemma NextKeeps(cfg: Config, c: Conn, d: Conn, now: int, date: string)
    requires R.LineText(date)
    requires ValidConfig(cfg) && ConnInv(cfg, c) && c.phase == Writing && !c.close
    requires d == c.(off := |c.out|, sent := d.sent) && d.sent == AllBytes(c.served)
    ensures var e := Reset(d, now);
      ConnInv(cfg, if e.buf != "" then Process(cfg, e.(phase := Processing), date) else e.(interest := In))
  {
    ResetReady(cfg, c, d, now);
    var e := Reset(d, now);
    assert e.phase == Reading;
    hide Ready, ConnInv, Process, Reset;
    if e.buf != "" { ProcessKeeps(cfg, e.(phase := Processing), date); } else { IdleInv(cfg, e); }
  }

  /** A partial or complete send keeps the invariant, or ends the connection with every response sent in full. */
  lemma TransmitKeeps(cfg: Config, c: Conn, n: nat, now: int, date: string)
    requires R.LineText(date)
    requires ValidConfig(cfg) && ConnInv(cfg, c) && c.phase == Writing && 0 < n && c.off + n <= |c.out|
    ensures var r := Transmit(cfg, c, n, now, date);
      && (r.Some? ==> ConnInv(cfg, r.value))
      && (r.None? ==> c.off + n == |c.out| && c.close && c.sent + c.out[c.off..] == AllBytes(c.served))
  {
    var d := c.(off := c.off + n, sent := c.sent + c.out[c.off..c.off + n]);
    assert SentInOrder(c);
    hide *;
    SentMore(c, d, n);
    TransmitCases(cfg, c, n, now, date);
    if d.off < |d.out| {
      PartialKeeps(cfg, c, d, n);
    } else if !d.close {
      NextKeeps(cfg, c, d, now, date);
    }
  }

  lemma TransmitCases(cfg: Config, c: Conn, n: nat, now: int, date: string)
    requires Parseable(cfg) && c.off + n <= |c.out|
    ensures var d := c.(off := c.off + n, sent := c.sent + c.out[c.off..c.off + n]);
      var e := Reset(d, now);
      Transmit(cfg, c, n, now, date) ==
        if d.off < |d.out| then Some(d.(interest := Out))
        else if d.close then None
        else Some(if e.buf != "" then Process(cfg, e.(phase := Processing), date) else e.(interest := In))
  {
    hide Process;
  }

  lemma IdleInv(cfg: Config, e: Conn)
    requires Parseable(cfg) && Ready(cfg, e) && e.phase == Reading && e.buf == ""
    ensures ConnInv(cfg, e.(interest := In))
  {
    hide Greedy, Decisions, AllRendered, AllBytes, Decide;
    var d := e.(interest := In);
    DecideConsumes(cfg, "");
    FaithfulSame(cfg, e, d);
  }

  /** After a complete response the shifted buffer is the untouched rest of the input. */
  lemma ResetReady(cfg: Config, c: Conn, d: Conn, now: int)
    requires Parseable(cfg) && ConnInv(cfg, c) && c.phase == Writing && !c.close
    requires d == c.(off := |c.out|, sent := d.sent) && d.sent == AllBytes(c.served)
    ensures var e := Reset(d, now); Ready(cfg, e) && Ready(cfg, e.(phase := Processing)) && e.buf == c.buf[c.consumed..]
  {
    var e := Reset(d, now);
    var f := e.(phase := Processing);
    hide Greedy, Decisions, AllRendered, AllBytes, Decide;
    assert e.buf == c.buf[c.consumed..];
    FaithfulSame(cfg, c, e);
    FaithfulSame(cfg, c, f);
    SuffixShrinks(c.received, c.buf, c.consumed);
  }

  lemma SuffixShrinks(all: string, buf: string, n: nat)
    requires |all| >= |buf| && all[|all| - |buf|..] == buf && n <= |buf|
    ensures all[|all| - |buf[n..]|..] == buf[n..]
  {
    assert all[|all| - |buf|..][n..] == all[|all| - |buf| + n..];
  }

  lemma ConfigParses(cfg: Config)
    requires ValidConfig(cfg)
    ensures Parseable(cfg)
  {
    hide Parseable, Polite;
  }

  lemma NewConnInv(cfg: Config, now: int)
    requires ValidConfig(cfg)
    ensures ConnInv(cfg, NewConn(now))
  {
    hide Greedy, Decide, Parseable, Polite;
    var c := NewConn(now);
    assert Parseable(cfg) by { ConfigParses(cfg); }
    DecideConsumes(cfg, "");
    forall more ensures Greedy(cfg, c.received + more) == Decisions(c.served) + Ahead(cfg, c, more) {
      assert "" + more == more;
    }
  }
}
