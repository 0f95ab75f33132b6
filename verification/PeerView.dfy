/** The output stream of a connection as the peer reads it: one response after another, going by the methods of
    the requests it sent. */
module PeerView {
  import opened Text
  import opened Serve
  import opened Protocol
  import opened Slots
  import opened HttpParser
  import A = Answers
  import opened Routing
  import opened Trie
  import D = Decimal
  import C = Ctx
  import N = Normalize
  import R = Response

  // ---- Reading a stream of responses --------------------------------------

  /** What is left of a stream after `j` responses; `asked[k]` says that request `k` was HEAD. */
  function Left(s: string, asked: seq<bool>, j: nat): Option<string>
    requires j <= |asked|
  {
    if j == 0 then Some(s)
    else
      match Left(s, asked, j - 1)
      case None => None
      case Some(t) =>
        match R.ReadMessage(t, asked[j - 1])
        case None => None
        case Some(m) => Some(m.rest)
  }

  /** Response number `j` of a stream. */
  function Nth(s: string, asked: seq<bool>, j: nat): Option<R.Message>
    requires j < |asked|
  {
    match Left(s, asked, j) case None => None case Some(t) => R.ReadMessage(t, asked[j])
  }

  /** What a peer knows of its requests: which were HEAD. Where the server accepted a request, that is its method; of
      input that was no request the server knows nothing. */
  predicate Knows(asked: seq<bool>, served: seq<Served>) {
    && |asked| == |served|
    && forall k :: 0 <= k < |served| && served[k].decision.Answer? && served[k].decision.verb != "" ==>
         asked[k] == (served[k].decision.verb == "HEAD")
  }

  /** A page the results speak of: printed by the server, with a one-line content type. */
  predicate Plain(s: Served) {
    && s.decision.Answer? && !s.decision.verdict.page.Raw?
    && (s.decision.verdict.page.Built? ==> R.LineText(s.decision.verdict.page.contentType))
  }

  predicate AllPlain(served: seq<Served>) { forall k :: 0 <= k < |served| ==> Plain(served[k]) }

  function ReplyOf(s: Served): R.Reply
    requires s.decision.Answer? && s.decision.verdict.page.Built?
  {
    var p := s.decision.verdict.page;
    R.Reply(p.code, p.contentType, p.body, p.headers, p.head, s.decision.verdict.close)
  }

  /** The response ends where a peer takes it to end; `asked` says that its request was HEAD. */
  predicate Fits(s: Served, asked: bool) {
    Plain(s) &&
    match s.decision.verdict.page
    case Built(_, _, _, _, _) => R.Framed(ReplyOf(s), asked)
    case ErrorPage(status, body) => !R.Bodiless(status, asked) || body == ""
    case Raw(_) => false
  }

  /** The message tells the page: code, custom headers behind the server's own, and the body that was printed. */
  predicate Tells(m: R.Message, s: Served) {
    Plain(s) &&
    match s.decision.verdict.page
    case Built(code, _, _, headers, _) => m.code == code && m.body == R.PrintedBody(ReplyOf(s)) && headers <= Last(m.fields, |headers|)
    case ErrorPage(status, body) => m.code == status && m.body == body
    case Raw(_) => false
  }

  function Last<T>(s: seq<T>, n: nat): seq<T> { if n <= |s| then s[|s| - n..] else s }

  /** One response, followed by anything, is read exactly to its end if and only if it fits. */
  lemma OneInStep(s: Served, more: string, asked: bool)
    requires RenderedOk(s) && Plain(s)
    ensures var m := R.ReadMessage(s.bytes + more, asked);
      && (m.Some? && m.value.rest == more <==> Fits(s, asked))
      && (Fits(s, asked) ==> Tells(m.value, s))
  {
    var date := DateOf(s);
    if s.decision.verdict.page.Built? { BuiltInStep(s, date, more, asked); } else { ErrorInStep(s, date, more, asked); }
  }

  lemma DateOf(s: Served) returns (date: string)
    requires RenderedOk(s)
    ensures R.LineText(date) && s.bytes == Render(s.decision.verdict.page, s.decision.verdict.close, date)
  {
    hide R.LineText, Render;
    date :| R.LineText(date) && s.bytes == Render(s.decision.verdict.page, s.decision.verdict.close, date);
  }

  lemma BuiltInStep(s: Served, date: string, more: string, asked: bool)
    requires RenderedOk(s) && Plain(s) && s.decision.verdict.page.Built?
    requires R.LineText(date) && s.bytes == Render(s.decision.verdict.page, s.decision.verdict.close, date)
    ensures var m := R.ReadMessage(s.bytes + more, asked);
      && (m.Some? && m.value.rest == more <==> Fits(s, asked))
      && (Fits(s, asked) ==> Tells(m.value, s))
  {
    var p := s.decision.verdict.page;
    hide R.ReadMessage, R.Print, R.OwnFields, R.Framed, R.LineText;
    R.PrintReadBack(ReplyOf(s), date, more, asked);
    assert Last(R.Fields(ReplyOf(s), date), |p.headers|) == p.headers;
  }

  lemma ErrorInStep(s: Served, date: string, more: string, asked: bool)
    requires RenderedOk(s) && Plain(s) && s.decision.verdict.page.ErrorPage?
    requires R.LineText(date) && s.bytes == Render(s.decision.verdict.page, s.decision.verdict.close, date)
    ensures var m := R.ReadMessage(s.bytes + more, asked);
      && (m.Some? && m.value.rest == more <==> Fits(s, asked))
      && (Fits(s, asked) ==> Tells(m.value, s))
  {
    var p := s.decision.verdict.page;
    hide R.ReadMessage, R.ErrorPrint, R.LineText, R.ErrorFields;
    R.ErrorReadBack(p.status, p.body, date, more, asked);
    assert p.body + more == more ==> |p.body| == 0;
  }

  lemma {:induction false} BytesFromFront(served: seq<Served>)
    requires served != []
    ensures AllBytes(served) == served[0].bytes + AllBytes(served[1..])
  {
    var n := |served| - 1;
    if n > 0 {
      assert served[1..][..n - 1] == served[..n][1..];
      BytesFromFront(served[..n]);
      Assoc(served[0].bytes, AllBytes(served[..n][1..]), served[n].bytes);
    } else {
      assert served[..0] == [] && served[1..] == [];
      assert "" + served[0].bytes == served[0].bytes + "";
    }
  }

  /** The peer is in step: before and after each response it stands where that response begins or ends. */
  ghost predicate InStep(served: seq<Served>, asked: seq<bool>, tail: string)
    requires |asked| == |served|
  {
    forall j :: 0 <= j <= |served| ==> StandsAt(served, asked, tail, j)
  }

  predicate StandsAt(served: seq<Served>, asked: seq<bool>, tail: string, j: nat)
    requires j <= |served| == |asked|
  {
    Left(AllBytes(served) + tail, asked, j) == Some(AllBytes(served[j..]) + tail)
  }

  lemma BytesAt(served: seq<Served>, tail: string, j: nat)
    requires j < |served|
    ensures AllBytes(served[j..]) + tail == served[j].bytes + (AllBytes(served[j + 1..]) + tail)
  {
    assert served[j..][1..] == served[j + 1..];
    BytesFromFront(served[j..]);
    Assoc(served[j].bytes, AllBytes(served[j + 1..]), tail);
  }

  /** One response further. */
  lemma NextStep(served: seq<Served>, asked: seq<bool>, tail: string, j: nat)
    requires AllRendered(served) && AllPlain(served) && j < |served| == |asked| && StandsAt(served, asked, tail, j)
    ensures StandsAt(served, asked, tail, j + 1) <==> Fits(served[j], asked[j])
    ensures Fits(served[j], asked[j]) ==> Nth(AllBytes(served) + tail, asked, j).Some?
                                          && Tells(Nth(AllBytes(served) + tail, asked, j).value, served[j])
  {
    hide *;
    EachOk(served, j);
    BytesAt(served, tail, j);
    StandsIs(served, asked, tail, j);
    StandsIs(served, asked, tail, j + 1);
    LeftStep(AllBytes(served) + tail, asked, j);
    OneInStep(served[j], AllBytes(served[j + 1..]) + tail, asked[j]);
  }

  lemma EachOk(served: seq<Served>, j: nat)
    requires AllRendered(served) && AllPlain(served) && j < |served|
    ensures RenderedOk(served[j]) && Plain(served[j])
  {
    hide RenderedOk, Plain;
  }

  lemma StandsIs(served: seq<Served>, asked: seq<bool>, tail: string, j: nat)
    requires j <= |served| == |asked|
    ensures StandsAt(served, asked, tail, j) <==> Left(AllBytes(served) + tail, asked, j) == Some(AllBytes(served[j..]) + tail)
  {
    hide Left, AllBytes;
  }

  /** What is left after one more response. */
  lemma LeftStep(s: string, asked: seq<bool>, j: nat)
    requires j < |asked| && Left(s, asked, j).Some?
    ensures var m := R.ReadMessage(Left(s, asked, j).value, asked[j]);
      Nth(s, asked, j) == m && Left(s, asked, j + 1) == match m { case None => None case Some(x) => Some(x.rest) }
  {
    hide R.ReadMessage;
  }

  lemma StandsAtStart(served: seq<Served>, asked: seq<bool>, tail: string)
    requires |asked| == |served|
    ensures StandsAt(served, asked, tail, 0)
  {
    hide AllBytes;
    assert served[0..] == served;
  }

  lemma {:induction false} StepsUpTo(served: seq<Served>, asked: seq<bool>, tail: string, n: nat)
    requires AllRendered(served) && AllPlain(served) && n <= |served| == |asked|
    requires forall k :: 0 <= k < n ==> Fits(served[k], asked[k])
    ensures StandsAt(served, asked, tail, n)
  {
    hide *;
    if n > 0 {
      StepsUpTo(served, asked, tail, n - 1);
      NextStep(served, asked, tail, n - 1);
    } else {
      StandsAtStart(served, asked, tail);
    }
  }

  /** A stream of responses, with anything behind it, keeps the peer in step if and only if every one of them
      fits; then each is read as what it is. */
  lemma StreamInStep(served: seq<Served>, asked: seq<bool>, tail: string)
    requires AllRendered(served) && AllPlain(served) && |asked| == |served|
    ensures InStep(served, asked, tail) <==> forall k :: 0 <= k < |served| ==> Fits(served[k], asked[k])
    ensures InStep(served, asked, tail) ==> forall k :: 0 <= k < |served| ==>
      var m := Nth(AllBytes(served) + tail, asked, k); m.Some? && Tells(m.value, served[k])
  {
    hide StandsAt, Fits, AllRendered, AllPlain, Nth, Tells;
    if InStep(served, asked, tail) {
      forall k | 0 <= k < |served|
        ensures Fits(served[k], asked[k]) && Nth(AllBytes(served) + tail, asked, k).Some?
        ensures Tells(Nth(AllBytes(served) + tail, asked, k).value, served[k])
      {
        assert StandsAt(served, asked, tail, k) && StandsAt(served, asked, tail, k + 1);
        NextStep(served, asked, tail, k);
      }
    } else if forall k :: 0 <= k < |served| ==> Fits(served[k], asked[k]) {
      forall j | 0 <= j <= |served| ensures StandsAt(served, asked, tail, j) { StepsUpTo(served, asked, tail, j); }
    }
  }

  // ---- Connections --------------------------------------------------------

  /** The answers of a connection that have been sent in full, and what of the next one has been sent. */
  predicate Cut(c: Conn) { c.phase == Writing && c.off < |c.out| }

  function Done(c: Conn): seq<Served> { if Cut(c) && c.served != [] then c.served[..|c.served| - 1] else c.served }

  function Partly(c: Conn): string { if Cut(c) then c.out[..c.off] else "" }

  /** The decision was taken on some bytes. */
  ghost predicate DecidedOn(cfg: Config, d: Decision)
    requires Parseable(cfg)
  {
    d.Answer? && exists w :: Decide(cfg, w) == d
  }

  predicate StaysOpen(d: Decision) { d.Answer? && !d.verdict.close }

  /** Answers given on some bytes, of which only the last can close. */
  ghost predicate OpenSoFar(cfg: Config, ds: seq<Decision>)
    requires Parseable(cfg)
  {
    && (forall k :: 0 <= k < |ds| ==> DecidedOn(cfg, ds[k]))
    && (forall k :: 0 <= k < |ds| - 1 ==> StaysOpen(ds[k]))
  }

  lemma OpenCons(cfg: Config, d: Decision, ds: seq<Decision>)
    requires Parseable(cfg) && OpenSoFar(cfg, ds) && DecidedOn(cfg, d) && (ds != [] ==> StaysOpen(d))
    ensures OpenSoFar(cfg, [d] + ds)
  {
    hide DecidedOn, StaysOpen;
  }

  /** Only the last answer a stream calls for can close. */
  lemma {:induction false} GreedyOpen(cfg: Config, s: string)
    requires Parseable(cfg)
    ensures OpenSoFar(cfg, Greedy(cfg, s))
    decreases |s|
  {
    var d := Decide(cfg, Window(s));
    if d.Answer? {
      assert DecidedOn(cfg, d) by { hide Decide; }
      assert !d.verdict.close ==> StaysOpen(d);
      assert OpenSoFar(cfg, []);
      hide *;
      GreedyUnfold(cfg, s);
      if d.verdict.close {
        OpenCons(cfg, d, []);
      } else {
        GreedyOpen(cfg, s[d.consumed..]);
        OpenCons(cfg, d, Greedy(cfg, s[d.consumed..]));
      }
    } else {
      hide Decide, Greedy;
      GreedyUnfold(cfg, s);
    }
  }

  /** The last answer closes the connection. */
  predicate Closed(served: seq<Served>) {
    var n := |served|;
    n > 0 && served[n - 1].decision.Answer? && served[n - 1].decision.verdict.close
  }

  /** What was answered on a connection, live or closed: every answer was given on bytes received, only the last can
      close, and if it does it is the last one its input calls for. */
  lemma AnswersGiven(cfg: Config, c: Conn)
    requires Parseable(cfg) && ClosedInv(cfg, c)
    ensures OpenSoFar(cfg, Decisions(c.served))
    ensures Closed(c.served) ==> Decisions(c.served) == Greedy(cfg, c.received)
  {
    hide SentInOrder, AllRendered, Greedy, DecidedOn, Decide;
    GreedyOpen(cfg, c.received);
    var ds := Greedy(cfg, c.received);
    var rest :| ds == Decisions(c.served) + rest;
    var n := |c.served|;
    assert forall k :: 0 <= k < n ==> ds[k] == Decisions(c.served)[k] == c.served[k].decision;
    if n > 0 && rest != [] { assert StaysOpen(ds[n - 1]); }
    if rest == [] { assert ds == Decisions(c.served); }
  }

  /** The answer was given to this request. */
  ghost predicate AnswerTo(cfg: Config, d: Decision, r: RawRequest) {
    d.Answer? && d.verb == r.verb && d.verdict == Respond(cfg, r)
  }

  /** The answer keeps step: an error page when its request was not HEAD, any other when the request it answers says so. */
  ghost predicate AnswerKeepsStep(cfg: Config, s: Served, asked: bool) {
    Plain(s) &&
    if s.decision.verdict.page.ErrorPage? then !asked
    else exists r :: AnswerTo(cfg, s.decision, r) && A.KeepsStep(cfg, r, s.decision.verdict.page)
  }

  lemma KeepsStepIsFits(cfg: Config, s: Served, asked: bool)
    requires ValidConfig(cfg) && DecidedOn(cfg, s.decision) && Plain(s)
    requires s.decision.verb != "" ==> asked == (s.decision.verb == "HEAD")
    ensures Fits(s, asked) <==> AnswerKeepsStep(cfg, s, asked)
  {
    hide *;
    ParseableConfig(cfg);
    var w := DecidedBy(cfg, s.decision);
    if s.decision.verdict.page.ErrorPage? {
      DecideErrors(cfg, w);
      ErrorFits(cfg, s, asked);
    } else {
      var r := RequestOf(cfg, w);
      PlainBuilt(s);
      BuiltKeeps(cfg, s, r, asked);
    }
  }

  lemma ParseableConfig(cfg: Config)
    requires ValidConfig(cfg)
    ensures Parseable(cfg) && Polite(cfg) && ValidHeadParser(cfg.phr)
  {
    hide Polite, ValidHeadParser;
  }

  lemma DecidedBy(cfg: Config, d: Decision) returns (w: string)
    requires Parseable(cfg) && DecidedOn(cfg, d)
    ensures d.Answer? && Decide(cfg, w) == d
  {
    hide Decide;
    w :| Decide(cfg, w) == d;
  }

  lemma PlainBuilt(s: Served)
    requires Plain(s)
    ensures s.decision.Answer? && (s.decision.verdict.page.Built? || s.decision.verdict.page.ErrorPage?)
  {
    hide R.LineText;
  }

  /** Only an accepted request gets anything but an error page. */
  lemma RequestOf(cfg: Config, w: string) returns (r: RawRequest)
    requires Parseable(cfg) && Decide(cfg, w).Answer? && !Decide(cfg, w).verdict.page.ErrorPage?
    ensures AnswerTo(cfg, Decide(cfg, w), r)
  {
    hide Respond, Parse, ReadRequest;
    DecideAccepted(cfg, w);
    r := ReadRequest(w, Parse(cfg.phr, w, cfg.maxBody).req);
  }

  /** Every error page the server sends has a text, and a code that allows one. */
  lemma DecideErrors(cfg: Config, w: string)
    requires Parseable(cfg) && Decide(cfg, w).Answer? && Decide(cfg, w).verdict.page.ErrorPage?
    ensures var p := Decide(cfg, w).verdict.page; !R.Bodiless(p.status, false) && p.body != ""
  {
    hide Respond, Parse, ReadRequest;
    if Parse(cfg.phr, w, cfg.maxBody).Parsed? {
      DecideAccepted(cfg, w);
      A.ErrorPages(cfg, ReadRequest(w, Parse(cfg.phr, w, cfg.maxBody).req));
    }
  }

  lemma ErrorFits(cfg: Config, s: Served, asked: bool)
    requires Plain(s) && s.decision.verdict.page.ErrorPage?
    requires !R.Bodiless(s.decision.verdict.page.status, false) && s.decision.verdict.page.body != ""
    ensures Fits(s, asked) <==> !asked
    ensures AnswerKeepsStep(cfg, s, asked) <==> !asked
  {
    hide Respond, A.KeepsStep;
  }

  lemma BuiltKeeps(cfg: Config, s: Served, r: RawRequest, asked: bool)
    requires Polite(cfg) && Plain(s) && s.decision.verdict.page.Built? && AnswerTo(cfg, s.decision, r)
    requires s.decision.verb != "" ==> asked == (s.decision.verb == "HEAD")
    ensures Fits(s, asked) <==> AnswerKeepsStep(cfg, s, asked)
  {
    hide R.Framed, A.KeepsStep, Polite, Respond;
    BuiltHasVerb(cfg, r);
    A.KeepsStepExactly(cfg, r, s.decision.verdict.close);
    if AnswerKeepsStep(cfg, s, asked) {
      var r' :| AnswerTo(cfg, s.decision, r') && A.KeepsStep(cfg, r', s.decision.verdict.page);
      A.KeepsStepExactly(cfg, r', s.decision.verdict.close);
    }
  }

  lemma BuiltHasVerb(cfg: Config, r: RawRequest)
    requires !Respond(cfg, r).page.ErrorPage?
    ensures r.verb != ""
  {
    hide RespondAt, N.Normalized, HeaderValue;
  }

  /** No opaque prebuilt bytes and no line break in a content type. */
  predicate Peerable(served: seq<Served>) {
    forall k :: 0 <= k < |served| && served[k].decision.Answer? ==>
      var p := served[k].decision.verdict.page; !p.Raw? && (p.Built? ==> R.LineText(p.contentType))
  }

  /** What the peer of a connection has been sent, live or closed, cut off or complete. */
  ghost predicate PeerSees(cfg: Config, c: Conn, asked: seq<bool>)
    requires Parseable(cfg) && |asked| == |Done(c)|
  {
    && c.sent == AllBytes(Done(c)) + Partly(c)
    && (InStep(Done(c), asked, Partly(c)) <==> forall k :: 0 <= k < |Done(c)| ==> AnswerKeepsStep(cfg, Done(c)[k], asked[k]))
    && (InStep(Done(c), asked, Partly(c)) ==> forall k :: 0 <= k < |Done(c)| ==>
          var m := Nth(c.sent, asked, k); m.Some? && Tells(m.value, Done(c)[k]))
  }

  lemma PeerReadsOne(cfg: Config, c: Conn, asked: seq<bool>)
    requires ValidConfig(cfg) && ClosedInv(cfg, c) && Peerable(Done(c)) && Knows(asked, Done(c))
    ensures PeerSees(cfg, c, asked)
  {
    hide *;
    ParseableConfig(cfg);
    AnswersGiven(cfg, c);
    SentParts(cfg, c);
    var served := Done(c);
    KnowsMeans(asked, served);
    forall k | 0 <= k < |served| ensures Plain(served[k]) && (Fits(served[k], asked[k]) <==> AnswerKeepsStep(cfg, served[k], asked[k])) {
      DoneDecided(cfg, c, k);
      PeerableAt(served, k);
      KeepsStepIsFits(cfg, served[k], asked[k]);
    }
    PlainAll(served);
    StreamInStep(served, asked, Partly(c));
    SeesWhen(cfg, c, asked);
  }

  lemma SeesWhen(cfg: Config, c: Conn, asked: seq<bool>)
    requires Parseable(cfg) && |asked| == |Done(c)| && c.sent == AllBytes(Done(c)) + Partly(c)
    requires InStep(Done(c), asked, Partly(c)) <==> forall k :: 0 <= k < |Done(c)| ==> Fits(Done(c)[k], asked[k])
    requires forall k :: 0 <= k < |Done(c)| ==> (Fits(Done(c)[k], asked[k]) <==> AnswerKeepsStep(cfg, Done(c)[k], asked[k]))
    requires InStep(Done(c), asked, Partly(c)) ==> forall k :: 0 <= k < |Done(c)| ==>
      var m := Nth(AllBytes(Done(c)) + Partly(c), asked, k); m.Some? && Tells(m.value, Done(c)[k])
    ensures PeerSees(cfg, c, asked)
  {
    hide InStep, Fits, AnswerKeepsStep, Nth, Tells, AllBytes;
  }

  lemma KnowsMeans(asked: seq<bool>, served: seq<Served>)
    requires Knows(asked, served)
    ensures |asked| == |served|
    ensures forall k :: 0 <= k < |served| && served[k].decision.Answer? && served[k].decision.verb != "" ==>
      asked[k] == (served[k].decision.verb == "HEAD")
  {
  }

  /** An answer sent in full was given on bytes received. */
  lemma DoneDecided(cfg: Config, c: Conn, k: nat)
    requires Parseable(cfg) && OpenSoFar(cfg, Decisions(c.served)) && k < |Done(c)|
    ensures DecidedOn(cfg, Done(c)[k].decision) && Done(c)[k].decision.Answer?
  {
    hide StaysOpen, Decide;
    assert Decisions(c.served)[k] == c.served[k].decision;
  }

  lemma SentParts(cfg: Config, c: Conn)
    requires Parseable(cfg) && ClosedInv(cfg, c)
    ensures c.sent == AllBytes(Done(c)) + Partly(c) && AllRendered(Done(c))
  {
    hide Greedy, RenderedOk;
    var n := |c.served|;
    if c.phase == Writing && c.off == |c.out| {
      assert c.out[..c.off] == c.out;
      assert AllBytes(c.served) == AllBytes(c.served[..n - 1]) + c.served[n - 1].bytes;
    }
    hide AllBytes;
    assert AllBytes(Done(c)) + "" == AllBytes(Done(c));
  }

  lemma PeerableAt(served: seq<Served>, k: nat)
    requires Peerable(served) && k < |served| && served[k].decision.Answer?
    ensures Plain(served[k])
  {
    hide R.LineText;
  }

  lemma PlainAll(served: seq<Served>)
    requires forall k :: 0 <= k < |served| ==> Plain(served[k])
    ensures AllPlain(served)
  {
    hide Plain;
  }

  /** In every reachable state of a live connection, the peer has been sent the answers the greedy reading of its
      input calls for, in order, and is in step with them if and only if each of them keeps step with the request
      it answers. */
  lemma PeerReadsAll(cfg: Config, limit: int, run: seq<Moment>, id: nat, asked: seq<bool>)
    requires ValidConfig(cfg)
    requires (StartInv(cfg); Possible(cfg, limit, Start(), run)) && Live(Reached(cfg, limit, run), id)
    requires var c := Reached(cfg, limit, run).slots[id].value; Peerable(Done(c)) && Knows(asked, Done(c))
    ensures var c := Reached(cfg, limit, run).slots[id].value;
      PeerSees(cfg, c, asked) && (c.phase == Reading ==> Decisions(Done(c)) == Greedy(cfg, c.received))
  {
    hide *;
    ParseableConfig(cfg);
    StartInv(cfg);
    ReachedIs(cfg, limit, run);
    RunKeeps(cfg, limit, Start(), run);
    AnswersAreGreedy(cfg, limit, run, id);
    LiveInv(cfg, Reached(cfg, limit, run), id);
    IsLive(Reached(cfg, limit, run), id);
    var c := Reached(cfg, limit, run).slots[id].value;
    ConnCloses(cfg, c);
    ReadingDone(c);
    PeerReadsOne(cfg, c, asked);
  }

  lemma IsLive(s: Server, id: nat)
    requires Live(s, id)
    ensures id < |s.slots| && s.slots[id].Some?
  {
  }

  lemma ReadingDone(c: Conn)
    ensures c.phase == Reading ==> Done(c) == c.served
  {
  }

  /** The same for every connection closed so far, its closing answer and error page included: when that answer was
      sent in full, the peer has been sent all the answers its input calls for. */
  lemma PeerReadsClosed(cfg: Config, limit: int, run: seq<Moment>, k: nat, asked: seq<bool>)
    requires ValidConfig(cfg)
    requires (StartInv(cfg); Possible(cfg, limit, Start(), run)) && k < |Reached(cfg, limit, run).closed|
    requires var c := Reached(cfg, limit, run).closed[k]; Peerable(Done(c)) && Knows(asked, Done(c))
    ensures var c := Reached(cfg, limit, run).closed[k];
      PeerSees(cfg, c, asked) && (Closed(Done(c)) ==> Decisions(Done(c)) == Greedy(cfg, c.received))
  {
    hide *;
    ParseableConfig(cfg);
    StartInv(cfg);
    ReachedIs(cfg, limit, run);
    RunKeeps(cfg, limit, Start(), run);
    ServerParts(cfg, Reached(cfg, limit, run));
    var c := Reached(cfg, limit, run).closed[k];
    AnswersGiven(cfg, c);
    PeerReadsOne(cfg, c, asked);
    ClosingIsLast(cfg, c);
  }

  /** A closing answer sent in full is the last one given. */
  lemma ClosingIsLast(cfg: Config, c: Conn)
    requires Parseable(cfg) && OpenSoFar(cfg, Decisions(c.served))
    ensures Closed(Done(c)) ==> Done(c) == c.served
  {
    hide Decide;
    var n := |Done(c)|;
    if 0 < n < |c.served| { assert StaysOpen(Decisions(c.served)[n - 1]); }
  }
}
