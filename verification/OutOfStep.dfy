/** An application whose answer to a HEAD request carries a body, and a history in which its peer falls out of step. */
module OutOfStep {
  import opened Text
  import opened Trie
  import opened Routing
  import opened HttpParser
  import opened Serve
  import opened Protocol
  import opened Slots
  import opened PeerView
  import D = Decimal
  import C = Ctx
  import N = Normalize
  import R = Response

  const HEAD_TEXT: string := "HEAD / HTTP/1.1\r\nhost: h\r\n\r\n"

  const HEAD_HEAD: Head := Head(28, Slice(0, 4), Slice(5, 1), 1, [Header(Slice(17, 4), Slice(23, 1))])

  const HEAD_REQUEST: RawRequest := RawRequest("HEAD", "/", "", 1, [("host", "h")], "")

  const OOPS: Page := Built(200, "application/json", "oops", [], false)

  const OOPS_ANSWER: Decision := Answer(28, "HEAD", Verdict(false, OOPS))

  /** No routes, and a not-found handler that answers with four bytes. */
  function OopsConfig(): Config {
    Config(OneHead(HEAD_TEXT, HEAD_HEAD), 0, EMPTY_TABLE, (id, v) => C.Done,
           Some(v => C.Do(C.Send("oops", "application/json"), C.Done)), None)
  }

  function Printed(date: string): string { Render(OOPS, false, date) }

  /** A peer connects, sends its request, and takes the whole response. */
  function OopsRun(date: string): seq<Moment> {
    [Moment(Arrive, 0, date), Moment(Data(0, HEAD_TEXT), 0, date), Moment(Taken(0, |Printed(date)|), 0, date)]
  }

  // ---- The configuration --------------------------------------------------

  lemma OopsValid()
    ensures ValidConfig(OopsConfig())
  {
    HeadIsValid();
    OopsPolite();
    OopsRuns();
    hide PoliteProgram, RunAlone, ValidHeadParser, OneHead;
  }

  lemma HeadIsValid()
    ensures |HEAD_TEXT| == 28
    ensures ValidHeadParser(OneHead(HEAD_TEXT, HEAD_HEAD)) && OneHead(HEAD_TEXT, HEAD_HEAD)(HEAD_TEXT) == HeadComplete(HEAD_HEAD)
  {
    hide ValidHeadParser, OneHead;
    OneHeadIsValid(HEAD_TEXT, HEAD_HEAD);
  }

  lemma OopsPolite()
    ensures PoliteProgram(C.Do(C.Send("oops", "application/json"), C.Done)) && PoliteProgram(C.Done)
  {
  }

  /** The not-found handler, run alone. */
  lemma OopsRuns()
    ensures RunAlone(C.Do(C.Send("oops", "application/json"), C.Done)) ==
      C.Finished(C.State(200, true, None, [], "oops", "application/json", 0))
  {
    var p := C.Do(C.Send("oops", "application/json"), C.Done);
    assert !("text/" <= "application/json") by { assert "text/"[0] == 't' && "application/json"[0] == 'a'; }
    assert C.Apply(C.FRESH, p.act) == C.State(200, true, None, [], "oops", "application/json", 0);
  }

  // ---- The request and its answer -----------------------------------------

  lemma OopsTexts()
    ensures |HEAD_TEXT| == 28
    ensures TextOf(HEAD_TEXT, Slice(0, 4)) == "HEAD" && TextOf(HEAD_TEXT, Slice(5, 1)) == "/" && TextOf(HEAD_TEXT, Slice(6, 0)) == ""
    ensures TextOf(HEAD_TEXT, Slice(17, 4)) == "host" && TextOf(HEAD_TEXT, Slice(23, 1)) == "h" && TextOf(HEAD_TEXT, Slice(28, 0)) == ""
  {
    assert HEAD_TEXT[0..4] == "HEAD";
    assert HEAD_TEXT[5..6] == "/" by { assert HEAD_TEXT[5] == '/'; }
    assert HEAD_TEXT[17..21] == "host";
    assert HEAD_TEXT[23..24] == "h" by { assert HEAD_TEXT[23] == 'h'; }
    assert HEAD_TEXT[6..6] == "" && HEAD_TEXT[28..28] == "";
  }

  lemma OopsFraming()
    ensures InText(HEAD_TEXT, HEAD_HEAD.headers) && FramingOf(HEAD_TEXT, HEAD_HEAD.headers) == Framing(None, false)
  {
    OopsTexts();
    var hs := HEAD_HEAD.headers;
    assert |"host"| == 4 && |"content-length"| == 14 && |"transfer-encoding"| == 17;
    hide TextOf, HEAD_TEXT;
    assert hs[..0] == [];
  }

  lemma OopsSplit()
    ensures |HEAD_TEXT| == 28 && SplitTarget(HEAD_TEXT, Slice(5, 1)) == (Slice(5, 1), Slice(6, 0))
  {
    OopsTexts();
    assert IndexOf("/", '?', 0) == 1 by { assert "/"[0] != '?'; }
    hide TextOf, IndexOf, HEAD_TEXT;
  }

  lemma OopsFrame()
    ensures |HEAD_TEXT| == 28
    ensures Frame(HEAD_TEXT, HEAD_HEAD, 0) ==
      Parsed(Request(Slice(0, 4), Slice(5, 1), Slice(6, 0), 1, HEAD_HEAD.headers, Slice(28, 0), 28, 28))
  {
    OopsSplit();
    OopsFraming();
    hide SplitTarget, FramingOf, HEAD_TEXT;
  }

  lemma OopsParsed() returns (req: Request)
    ensures OneHead(HEAD_TEXT, HEAD_HEAD)(HEAD_TEXT) == HeadComplete(HEAD_HEAD) && HEAD_HEAD.size <= |HEAD_TEXT| && HeadInside(HEAD_HEAD)
    ensures Parse(OneHead(HEAD_TEXT, HEAD_HEAD), HEAD_TEXT, 0) == Parsed(req)
    ensures RequestInside(req, |HEAD_TEXT|) && req.consumed == 28 && ReadRequest(HEAD_TEXT, req) == HEAD_REQUEST
  {
    HeadIsValid();
    OopsTexts();
    OopsFrame();
    hide OneHead, TextOf, Frame, HEAD_TEXT, ValidHeadParser;
    assert HeaderTexts(HEAD_TEXT, HEAD_HEAD.headers) == [("host", "h")];
    req := Parse(OneHead(HEAD_TEXT, HEAD_HEAD), HEAD_TEXT, 0).req;
  }

  lemma RootIsNormal()
    ensures N.Normalized("/") == Some("/")
  {
    assert N.Canonical("/") by {
      assert N.Tidy([""]) && N.Join([""]) == "/";
    }
    N.NormalFormsAreFixedPoints("/");
  }

  lemma OopsAnswer()
    ensures Respond(OopsConfig(), HEAD_REQUEST) == Verdict(false, OOPS)
  {
    hide *;
    OopsHeaders();
    RootIsNormal();
    NoRoutes(HEAD);
    NoRoutes(GET);
    OopsHandler();
    OopsRuns();
    NobodyAnswers(OopsConfig(), HEAD_REQUEST, "/");
  }

  lemma OopsHeaders()
    ensures MethodOf(HEAD_REQUEST.verb) == Some(HEAD) && HEAD_REQUEST.path == "/" && HEAD_REQUEST.minor == 1
    ensures HeaderValue(HEAD_REQUEST.headers, "host") == Some("h") && HeaderValue(HEAD_REQUEST.headers, "connection") == None
  {
    var hs := HEAD_REQUEST.headers;
    assert hs[0].0 == "host" && hs[1..] == [];
    assert CiEq("host", "host");
    assert |"host"| == 4 && |"connection"| == 10;
  }

  lemma OopsHandler()
    ensures OopsConfig().table == EMPTY_TABLE && OopsConfig().notFound.Some?
    ensures forall v :: OopsConfig().notFound.value(v) == C.Do(C.Send("oops", "application/json"), C.Done)
    ensures PageOf(C.State(200, true, None, [], "oops", "application/json", 0), false) == OOPS
  {
    hide HEAD_TEXT, OneHead;
  }

  /** A HEAD request without a route goes to the not-found handler. */
  lemma NobodyAnswers(cfg: Config, r: RawRequest, path: string)
    requires HeaderValue(r.headers, "host").Some? && HeaderValue(r.headers, "connection").None? && r.minor == 1
    requires MethodOf(r.verb) == Some(HEAD) && N.Normalized(r.path) == Some(path)
    requires Lookup(cfg.table, HEAD, path) == None && Lookup(cfg.table, GET, path) == None && cfg.notFound.Some?
    requires RunAlone(cfg.notFound.value(ViewOf(r, path, []))).Finished?
    ensures Respond(cfg, r) == Verdict(false, PageOf(RunAlone(cfg.notFound.value(ViewOf(r, path, []))).st, false))
  {
    hide HeaderValue, MethodOf, N.Normalized, Lookup, RunAlone, PageOf, ViewOf;
  }

  lemma NoRoutes(m: Method)
    ensures Lookup(EMPTY_TABLE, m, "/") == None
  {
  }

  lemma OopsDecided()
    ensures Parseable(OopsConfig()) && Decide(OopsConfig(), HEAD_TEXT) == Answer(28, "HEAD", Verdict(false, OOPS))
  {
    hide *;
    OopsParts();
    OopsValid();
    ConfigParses(OopsConfig());
    var req := OopsParsed();
    OopsAnswer();
    DecideAccepted(OopsConfig(), HEAD_TEXT);
    AnswerForIs(OopsConfig(), HEAD_TEXT, req);
  }

  lemma OopsParts()
    ensures OopsConfig().phr == OneHead(HEAD_TEXT, HEAD_HEAD) && OopsConfig().maxBody == 0 && HEAD_REQUEST.verb == "HEAD"
  {
    hide OneHead, HEAD_TEXT, HEAD_HEAD;
  }

  // ---- The history --------------------------------------------------------

  /** The connection after the request arrived, and after the response was taken. */
  function Answering(date: string): Conn {
    Conn(Writing, Out, HEAD_TEXT, Printed(date), 0, 28, false, 0, HEAD_TEXT, "", [Served(OOPS_ANSWER, Printed(date))])
  }

  function Waiting(date: string): Conn {
    Conn(Reading, In, "", "", 0, 0, false, 0, HEAD_TEXT, Printed(date), [Served(OOPS_ANSWER, Printed(date))])
  }

  lemma OopsReceives(date: string)
    ensures Parseable(OopsConfig()) && Receive(OopsConfig(), NewConn(0), HEAD_TEXT, 0, date) == Answering(date)
  {
    OopsDecided();
    hide Decide, Render, OopsConfig, Parseable;
    assert "" + HEAD_TEXT == HEAD_TEXT;
    assert [] + [Served(OOPS_ANSWER, Printed(date))] == [Served(OOPS_ANSWER, Printed(date))];
  }

  lemma OopsTransmits(date: string)
    ensures Parseable(OopsConfig())
    ensures Transmit(OopsConfig(), Answering(date), |Printed(date)|, 0, date) == Some(Waiting(date))
  {
    OopsDecided();
    hide Decide, Render, OopsConfig, Parseable;
    var out := Printed(date);
    assert 0 + |out| == |out| && out[0..0 + |out|] == out && "" + out == out;
    assert |HEAD_TEXT| == 28;
  }

  /** The printed response is not empty, so the peer can take it. */
  lemma OopsPrints(date: string)
    ensures Printed(date) != ""
  {
    OopsPrintable();
    hide Render, Printable;
    RenderNonEmpty(OOPS, false, date);
  }

  lemma OopsPrintable()
    ensures Printable(OOPS)
  {
    NoHeaders();
    hide C.TableOk;
  }

  lemma FirstArrives(now: int)
    ensures var s := Start(); s.free != [] && s.free[|s.free| - 1] < |s.slots| && Enabled(s, Arrive)
    ensures Live(Accept(Start(), now), 0) && Accept(Start(), now).slots[0] == Some(NewConn(now))
  {
    hide NewConn;
  }

  lemma DataArrives(s: Server, date: string)
    requires Live(s, 0) && s.slots[0] == Some(NewConn(0))
    ensures Enabled(s, Data(0, HEAD_TEXT)) && Parseable(OopsConfig())
    ensures var t := OnData(OopsConfig(), s, 0, HEAD_TEXT, 0, date); Live(t, 0) && t.slots[0] == Some(Answering(date))
  {
    OopsReceives(date);
    hide Receive, OopsConfig, Parseable, Answering;
    assert |HEAD_TEXT| == 28;
  }

  lemma ResponseTaken(s: Server, date: string)
    requires Live(s, 0) && s.slots[0] == Some(Answering(date))
    ensures Enabled(s, Taken(0, |Printed(date)|)) && Parseable(OopsConfig())
    ensures s.slots[0].value.off + |Printed(date)| <= |s.slots[0].value.out|
    ensures var t := OnTaken(OopsConfig(), s, 0, |Printed(date)|, 0, date); Live(t, 0) && t.slots[0] == Some(Waiting(date))
  {
    OopsTransmits(date);
    OopsPrints(date);
    hide Transmit, OopsConfig, Parseable, Waiting, Printed, HEAD_TEXT;
  }

  /** A possible history goes on with an enabled event. */
  lemma OneMore(cfg: Config, limit: int, run: seq<Moment>, m: Moment) returns (t: Server)
    requires ValidConfig(cfg) && ServerInv(cfg, Start()) && Possible(cfg, limit, Start(), run)
    requires Enabled(After(cfg, limit, Start(), run), m.event) && R.LineText(m.date)
    ensures Parseable(cfg) && Possible(cfg, limit, Start(), run + [m]) && t == After(cfg, limit, Start(), run + [m])
    ensures var s, e := After(cfg, limit, Start(), run), m.event;
      && (s.free != [] ==> s.free[|s.free| - 1] < |s.slots|)
      && (e.Arrive? ==> t == Accept(s, m.now))
      && (e.Data? ==> Live(s, e.id) && t == OnData(cfg, s, e.id, e.bytes, m.now, m.date))
      && (e.Taken? ==> Live(s, e.id) && s.slots[e.id].value.off + e.n <= |s.slots[e.id].value.out|
                       && t == OnTaken(cfg, s, e.id, e.n, m.now, m.date))
  {
    hide *;
    ConfigParses(cfg);
    RunKeeps(cfg, limit, Start(), run);
    var s := After(cfg, limit, Start(), run);
    StepKeeps(cfg, limit, s, m.event, m.now, m.date);
    PossibleMore(cfg, limit, Start(), run, m);
    StepCases(cfg, limit, s, m.event, m.now, m.date);
    t := After(cfg, limit, Start(), run + [m]);
  }

  lemma Nothing(cfg: Config, limit: int)
    requires ValidConfig(cfg) && ServerInv(cfg, Start())
    ensures Possible(cfg, limit, Start(), []) && After(cfg, limit, Start(), []) == Start()
  {
    hide ServerInv, ValidConfig;
  }

  /** The history is possible, and afterwards the connection waits for the next request. */
  lemma OopsHappens(limit: int, date: string)
    requires R.LineText(date)
    ensures ValidConfig(OopsConfig())
    ensures (StartInv(OopsConfig()); Possible(OopsConfig(), limit, Start(), OopsRun(date)))
    ensures var s := Reached(OopsConfig(), limit, OopsRun(date)); Live(s, 0) && s.slots[0] == Some(Waiting(date))
  {
    hide *;
    var cfg, n := OopsConfig(), |Printed(date)|;
    var one, two, three := Moment(Arrive, 0, date), Moment(Data(0, HEAD_TEXT), 0, date), Moment(Taken(0, n), 0, date);
    OopsValid();
    ConfigParses(cfg);
    StartInv(cfg);
    Nothing(cfg, limit);
    FirstArrives(0);
    var s1 := OneMore(cfg, limit, [], one);
    DataArrives(s1, date);
    var s2 := OneMore(cfg, limit, [] + [one], two);
    ResponseTaken(s2, date);
    var s3 := OneMore(cfg, limit, [] + [one] + [two], three);
    RunIs(date);
    ReachedIs(cfg, limit, OopsRun(date));
  }

  lemma RunIs(date: string)
    ensures OopsRun(date) ==
      [] + [Moment(Arrive, 0, date)] + [Moment(Data(0, HEAD_TEXT), 0, date)] + [Moment(Taken(0, |Printed(date)|), 0, date)]
  {
    hide Printed, HEAD_TEXT;
  }

  // ---- What the peer reads ------------------------------------------------

  /** What the connection has answered, and the peer's one question: HEAD. */
  lemma WaitingMeans(date: string, asked: seq<bool>)
    ensures var c := Waiting(date);
      && c.phase == Reading && c.received == HEAD_TEXT && c.sent == Printed(date)
      && Done(c) == [Served(OOPS_ANSWER, Printed(date))] && Partly(c) == ""
      && (Knows(asked, Done(c)) <==> asked == [true])
  {
    hide Printed, HEAD_TEXT;
  }

  lemma OopsServed(s: Served, date: string)
    requires R.LineText(date) && s == Served(OOPS_ANSWER, Printed(date))
    ensures RenderedOk(s) && Plain(s) && !Fits(s, true)
  {
    OopsPrintable();
    OopsType();
    hide R.Print, R.LineText, Printable, HEAD_TEXT;
  }

  lemma OneServed(s: Served, asked: bool)
    requires RenderedOk(s) && Plain(s) && !Fits(s, asked)
    ensures !InStep([s], [asked], "")
  {
    hide RenderedOk, Plain, Fits, InStep;
    StreamInStep([s], [asked], "");
    assert !Fits([s][0], [asked][0]);
  }

  /** The not-found handler prints its body for HEAD too and leaves the connection open. In a possible history a peer
      sends this one request and takes the response; it expects no body, is left in front of bytes that are no
      response whatever follows them, and is out of step. */
  lemma HeadOutOfStep(limit: int, date: string)
    requires R.LineText(date)
    ensures ValidConfig(OopsConfig())
    ensures (StartInv(OopsConfig()); Possible(OopsConfig(), limit, Start(), OopsRun(date)))
    ensures Live(Reached(OopsConfig(), limit, OopsRun(date)), 0)
    ensures var c := Reached(OopsConfig(), limit, OopsRun(date)).slots[0].value;
      && c.phase == Reading && c.received == HEAD_TEXT && Knows([true], Done(c)) && !InStep(Done(c), [true], Partly(c))
      && Left(c.sent, [true], 1) == Some("oops") && forall more :: R.ReadMessage("oops" + more, false) == None
  {
    hide *;
    OopsHappens(limit, date);
    WaitingMeans(date, [true]);
    var s := Served(OOPS_ANSWER, Printed(date));
    OopsServed(s, date);
    OneServed(s, true);
    OopsRead(date);
    forall more ensures R.ReadMessage("oops" + more, false) == None {
      OopsRest(more);
      NoStatus("oops" + more);
    }
  }

  lemma OopsReply(r: R.Reply, date: string)
    requires r == R.Reply(200, "application/json", "oops", [], false, false)
    ensures Printed(date) == R.Print(r, date)
    ensures R.ThreeDigit(r.code) && |r.body| <= D.SIZE_MAX && C.TableOk(r.headers) && R.LineText(r.contentType)
  {
    NoHeaders();
    OopsType();
    hide R.Print, R.LineText, C.TableOk;
  }

  lemma OopsType()
    ensures R.LineText("application/json")
  {
  }

  lemma OopsRest(more: string)
    ensures "oops" + more != "" && ("oops" + more)[0] != 'H'
  {
  }

  lemma OopsRead(date: string)
    requires R.LineText(date)
    ensures Left(Printed(date), [true], 1) == Some("oops")
  {
    var r := R.Reply(200, "application/json", "oops", [], false, false);
    OopsReply(r, date);
    hide R.ReadMessage, R.Print, R.LineText, C.TableOk, Printed;
    HeadOnly(r, date);
    LeftStep(Printed(date), [true], 0);
  }

  /** Read as the answer to HEAD, a message leaves its body behind. */
  lemma HeadOnly(r: R.Reply, date: string)
    requires R.ThreeDigit(r.code) && |r.body| <= D.SIZE_MAX && C.TableOk(r.headers) && R.LineText(r.contentType) && R.LineText(date)
    requires !r.head
    ensures var m := R.ReadMessage(R.Print(r, date), true); m.Some? && m.value.rest == r.body
  {
    R.HeadIsPrefix(r, date);
    var h := r.(head := true);
    hide R.ReadMessage, R.Print, R.Fields, R.LineText, C.TableOk;
    R.PrintReadBack(h, date, r.body, true);
  }

  /** Only a status line starts a response. */
  lemma NoStatus(s: string)
    requires s != "" && s[0] != 'H'
    ensures R.ReadMessage(s, false) == None
  {
    var k := R.LineEnd(s);
    if k >= 9 { assert s[..k][..9][0] == s[0] && "HTTP/1.1 "[0] == 'H'; }
  }
}
