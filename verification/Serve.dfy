/** What process_request (src/event_loop.cpp) answers, as a function of the bytes in the receive buffer. */
module Serve {
  import opened Text
  import opened Trie
  import opened TrieSearch
  import TR = TrieRoutes
  import opened Routing
  import opened HttpParser
  import opened Decimal
  import N = Normalize
  import U = UrlDecode
  import C = Ctx
  import R = Response

  /** The receive buffer holds this many bytes. */
  const WINDOW: nat := 4096

  /** What a handler can read. */
  datatype View = View(verb: string, path: string, query: string, minor: nat, headers: seq<(string, string)>,
                       params: seq<(string, string)>, body: string)

  /** The application: head parser, limits, routes, and handler bodies by handler number. */
  datatype Config = Config(phr: HeadParser, maxBody: nat, table: Table, handler: (nat, View) -> C.Program,
                           notFound: Option<View -> C.Program>, onError: Option<View -> C.Program>)

  // ---- The request as text ------------------------------------------------

  datatype RawRequest = RawRequest(verb: string, path: string, query: string, minor: nat,
                                   headers: seq<(string, string)>, body: string)

  function HeaderTexts(b: string, hs: seq<Header>): seq<(string, string)>
    requires InText(b, hs)
  {
    seq(|hs|, i requires 0 <= i < |hs| => (TextOf(b, hs[i].name), TextOf(b, hs[i].value)))
  }

  function ReadRequest(b: string, r: Request): RawRequest
    requires RequestInside(r, |b|)
  {
    RawRequest(TextOf(b, r.verb), TextOf(b, r.path), TextOf(b, r.query), r.minor, HeaderTexts(b, r.headers), TextOf(b, r.body))
  }

  /** The value of the first header of that (lower-case) name. */
  function HeaderValue(hs: seq<(string, string)>, target: string): Option<string> {
    if hs == [] then None
    else if CiEq(hs[0].0, target) then Some(hs[0].1)
    else HeaderValue(hs[1..], target)
  }

  /** Header `k` is the first one of that name. */
  predicate FirstNamed(hs: seq<(string, string)>, name: string, k: nat) {
    k < |hs| && SameUpToCase(hs[k].0, name) && forall j :: 0 <= j < k ==> !SameUpToCase(hs[j].0, name)
  }

  predicate Nameless(hs: seq<(string, string)>, name: string) {
    forall k :: 0 <= k < |hs| ==> !SameUpToCase(hs[k].0, name)
  }

  predicate SmallLetters(name: string) { forall k :: 0 <= k < |name| ==> !('A' <= name[k] <= 'Z') }

  /** Where the value of a header is found. */
  lemma {:induction false} HeaderFound(hs: seq<(string, string)>, name: string) returns (k: nat)
    requires SmallLetters(name)
    ensures match HeaderValue(hs, name)
      case None => Nameless(hs, name)
      case Some(v) => FirstNamed(hs, name, k) && v == hs[k].1
  {
    hide CiEq, SameUpToCase;
    k := 0;
    if hs != [] {
      CiEqMeans(hs[0].0, name);
      if !CiEq(hs[0].0, name) {
        k := HeaderFound(hs[1..], name);
        assert forall j :: 0 <= j < |hs[1..]| ==> hs[1..][j] == hs[j + 1];
        assert forall j :: 1 <= j < |hs| ==> hs[j] == hs[1..][j - 1];
        k := k + 1;
      }
    }
  }

  /** The first header of that name has that value, both up to case. */
  ghost predicate Says(hs: seq<(string, string)>, name: string, value: string) {
    exists k: nat :: FirstNamed(hs, name, k) && SameUpToCase(hs[k].1, value)
  }

  lemma SaysIs(hs: seq<(string, string)>, name: string, value: string)
    requires SmallLetters(name) && SmallLetters(value)
    ensures Says(hs, name, value) <==> var v := HeaderValue(hs, name); v.Some? && CiEq(v.value, value)
  {
    hide CiEq, HeaderValue, SameUpToCase;
    var n := HeaderFound(hs, name);
    if HeaderValue(hs, name).Some? { CiEqMeans(hs[n].1, value); }
    if k: nat :| FirstNamed(hs, name, k) && SameUpToCase(hs[k].1, value) {
      assert HeaderValue(hs, name).Some? && n == k;
    }
  }

  /** Connection: close, or HTTP/1.0 without keep-alive. */
  predicate ShouldClose(r: RawRequest) {
    var c := HeaderValue(r.headers, "connection");
    || (c.Some? && CiEq(c.value, "close"))
    || (r.minor == 0 && !(c.Some? && CiEq(c.value, "keep-alive")))
  }

  function MethodOf(s: string): Option<Method> {
    if s == "GET" then Some(GET)
    else if s == "POST" then Some(POST)
    else if s == "PUT" then Some(PUT)
    else if s == "DELETE" then Some(DELETE)
    else if s == "PATCH" then Some(PATCH)
    else if s == "HEAD" then Some(HEAD)
    else if s == "OPTIONS" then Some(OPTIONS)
    else None
  }

  function MethodName(m: Method): string {
    match m
    case GET => "GET"
    case POST => "POST"
    case PUT => "PUT"
    case DELETE => "DELETE"
    case PATCH => "PATCH"
    case HEAD => "HEAD"
    case OPTIONS => "OPTIONS"
  }

  // ---- Routing a request --------------------------------------------------

  /** The registered methods of a path, in enumeration order (methods_for_path). */
  function MethodsFor(tab: Table, path: string, ms: seq<Method>): seq<Method> {
    if ms == [] then []
    else (if Lookup(tab, ms[0], path).Some? then [ms[0]] else []) + MethodsFor(tab, path, ms[1..])
  }

  function Listed(ms: seq<Method>): string {
    if ms == [] then "" else Listed(ms[..|ms| - 1]) + (if |ms| > 1 then ", " else "") + MethodName(ms[|ms| - 1])
  }

  /** The Allow header of an automatic OPTIONS answer. */
  function AllowText(ms: seq<Method>): string { Listed(if OPTIONS in ms then ms else ms + [OPTIONS]) }

  /** The bytes reserved for the Allow list. */
  const ALLOW_BUFFER: nat := 64

  /** The bytes of the names, each followed by a comma and a space. */
  function Width(ms: seq<Method>): nat { if ms == [] then 0 else |MethodName(ms[0])| + 2 + Width(ms[1..]) }

  lemma {:induction false} WidthConcat(a: seq<Method>, b: seq<Method>)
    ensures Width(a + b) == Width(a) + Width(b)
  {
    hide MethodName;
    if a == [] {
      assert a + b == b;
    } else {
      assert (a + b)[1..] == a[1..] + b;
      WidthConcat(a[1..], b);
    }
  }

  lemma {:induction false} ListedWidth(ms: seq<Method>)
    requires ms != []
    ensures |Listed(ms)| + 2 == Width(ms)
  {
    hide MethodName;
    var n := |ms| - 1;
    assert ms == ms[..n] + [ms[n]];
    WidthConcat(ms[..n], [ms[n]]);
    if n > 0 { ListedWidth(ms[..n]); }
  }

  /** A selection of methods is no wider than all of them, even with a missing OPTIONS added back. */
  lemma {:induction false} SelectionWidth(tab: Table, path: string, ms: seq<Method>)
    ensures var sel := MethodsFor(tab, path, ms);
      Width(sel) + (if OPTIONS in ms && OPTIONS !in sel then |MethodName(OPTIONS)| + 2 else 0) <= Width(ms)
  {
    hide Lookup, MethodName;
    if ms != [] {
      var rest := MethodsFor(tab, path, ms[1..]);
      SelectionWidth(tab, path, ms[1..]);
      WidthConcat(MethodsFor(tab, path, ms)[..|MethodsFor(tab, path, ms)| - |rest|], rest);
    }
  }

  /** The Allow list of any path fits the buffer it is written into. */
  lemma AllowFits(tab: Table, path: string)
    ensures |AllowText(MethodsFor(tab, path, ALL_METHODS))| <= 44 < ALLOW_BUFFER
  {
    var ms := MethodsFor(tab, path, ALL_METHODS);
    SelectionWidth(tab, path, ALL_METHODS);
    AllWidth();
    hide MethodsFor, Listed;
    var listed := if OPTIONS in ms then ms else ms + [OPTIONS];
    EveryMethod(OPTIONS);
    WidthConcat(ms, [OPTIONS]);
    ListedWidth(listed);
  }

  lemma AllWidth()
    ensures Width(ALL_METHODS) == 46 && Width([OPTIONS]) == 9
  {
    hide Width;
    WidthOne(OPTIONS);
    WidthCons(HEAD, [OPTIONS]);
    assert [HEAD] + [OPTIONS] == [HEAD, OPTIONS];
    WidthCons(PATCH, [HEAD, OPTIONS]);
    assert [PATCH] + [HEAD, OPTIONS] == [PATCH, HEAD, OPTIONS];
    WidthCons(DELETE, [PATCH, HEAD, OPTIONS]);
    assert [DELETE] + [PATCH, HEAD, OPTIONS] == [DELETE, PATCH, HEAD, OPTIONS];
    WidthCons(PUT, [DELETE, PATCH, HEAD, OPTIONS]);
    assert [PUT] + [DELETE, PATCH, HEAD, OPTIONS] == [PUT, DELETE, PATCH, HEAD, OPTIONS];
    WidthCons(POST, [PUT, DELETE, PATCH, HEAD, OPTIONS]);
    assert [POST] + [PUT, DELETE, PATCH, HEAD, OPTIONS] == [POST, PUT, DELETE, PATCH, HEAD, OPTIONS];
    WidthCons(GET, [POST, PUT, DELETE, PATCH, HEAD, OPTIONS]);
    assert [GET] + [POST, PUT, DELETE, PATCH, HEAD, OPTIONS] == ALL_METHODS;
  }

  lemma WidthCons(m: Method, ms: seq<Method>)
    ensures Width([m] + ms) == |MethodName(m)| + 2 + Width(ms)
  {
    assert ([m] + ms)[1..] == ms;
  }

  lemma WidthOne(m: Method)
    ensures Width([m]) == |MethodName(m)| + 2
  {
  }

  datatype Routed = Matched(found: Match, head: bool) | AutoOptions(ms: seq<Method>) | NoRoute

  function RouteOf(tab: Table, m: Method, path: string): Routed {
    var own := Lookup(tab, m, path);
    if own.Some? then Matched(own.value, false)
    else
      var get := if m == HEAD then Lookup(tab, GET, path) else None;
      if get.Some? then Matched(get.value, true)
      else
        var ms := if m == OPTIONS then MethodsFor(tab, path, ALL_METHODS) else [];
        if ms != [] then AutoOptions(ms) else NoRoute
  }

  // ---- Decoding the captured parameters -----------------------------------

  /** The value of each capture, decoded from its own slice of the path; None when one holds "%00". */
  function DecodedParams(path: string, caps: seq<Capture>): Option<seq<(string, string)>> {
    if caps == [] then Some([])
    else
      match U.Decoded(TR.Slice(path, caps[0]))
      case None => None
      case Some(v) =>
        match DecodedParams(path, caps[1..])
        case None => None
        case Some(rest) => Some([(caps[0].key, v)] + rest)
  }

  /** The path after one capture has been decoded where it stands. */
  function Patch(path: string, c: Capture): (r: string)
    requires c.start + c.len <= |path|
    ensures |r| == |path|
  {
    if U.Decoded(TR.Slice(path, c)).None? then path
    else
      U.DecodedShorter(TR.Slice(path, c));
      path[..c.start] + U.Overwritten(TR.Slice(path, c)) + path[c.start + c.len..]
  }

  /** The path after all captures have been decoded in turn. */
  function PatchAll(path: string, caps: seq<Capture>): (r: string)
    requires forall k :: 0 <= k < |caps| ==> caps[k].start + caps[k].len <= |path|
    ensures |r| == |path|
  {
    if caps == [] then path else Patch(PatchAll(path, caps[..|caps| - 1]), caps[|caps| - 1])
  }

  // ---- The answer ---------------------------------------------------------

  datatype Page =
    | ErrorPage(status: int, body: string)
    | Built(code: int, contentType: string, body: string, headers: seq<C.Field>, head: bool)
    | Raw(data: string)

  /** The bytes put on the wire. */
  function Render(p: Page, close: bool, date: string): string {
    match p
    case ErrorPage(status, body) => R.ErrorPrint(status, body, date)
    case Built(code, contentType, body, headers, head) => R.Print(R.Reply(code, contentType, body, headers, head, close), date)
    case Raw(data) => data
  }

  /** The page a finished context stands for. */
  function PageOf(st: C.State, head: bool): Page {
    match st.prebuilt
    case Some(data) => Raw(data)
    case None => Built(st.status, st.contentType, st.body, st.headers, head)
  }

  /** The handlers of a chain; their number is kept in eight bits. */
  function Programs(cfg: Config, chain: Chain, v: View): seq<C.Program> {
    var n := |chain| % 256;
    seq(n, i requires 0 <= i < n => cfg.handler(chain[i], v))
  }

  function RunAlone(p: C.Program): C.Outcome { C.Exec([], p, C.FRESH) }

  /** A matched request, its parameters decoded. */
  function Handled(cfg: Config, chain: Chain, v: View, head: bool): Page {
    match C.Exec(Programs(cfg, chain, v), C.Next(C.Done), C.FRESH)
    case Finished(st) => PageOf(st, head)
    case Threw =>
      match cfg.onError
      case None => ErrorPage(500, "Internal Server Error")
      case Some(f) =>
        match RunAlone(f(v.(params := [])))
        case Finished(st) => PageOf(st, false)
        case Threw => ErrorPage(500, "Internal Server Error")
  }

  datatype Verdict = Verdict(close: bool, page: Page)

  function Failure(status: int, body: string): Verdict { Verdict(true, ErrorPage(status, body)) }

  function ViewOf(r: RawRequest, path: string, params: seq<(string, string)>): View {
    View(r.verb, path, r.query, r.minor, r.headers, params, r.body)
  }

  /** The answer to an accepted request. */
  function Respond(cfg: Config, r: RawRequest): Verdict {
    if r.minor >= 1 && HeaderValue(r.headers, "host").None? then Failure(400, "Bad Request")
    else if MethodOf(r.verb).None? then Failure(501, "Not Implemented")
    else match N.Normalized(r.path)
      case None => Failure(400, "Bad Request")
      case Some(path) => RespondAt(cfg, r, MethodOf(r.verb).value, path)
  }

  function RespondAt(cfg: Config, r: RawRequest, m: Method, path: string): Verdict {
    var close := ShouldClose(r);
    match RouteOf(cfg.table, m, path)
    case AutoOptions(ms) => Verdict(close, Built(204, "", "", C.SetIn([], "Allow", AllowText(ms)), false))
    case NoRoute => NotFoundVerdict(cfg, r, path)
    case Matched(found, head) =>
      (match DecodedParams(path, found.captures)
       case None => Failure(400, "Bad Request")
       case Some(params) => RespondMatched(cfg, r, path, found, params, head))
  }

  /** No route: the application's 404 handler, or the built-in page. */
  function NotFoundVerdict(cfg: Config, r: RawRequest, path: string): Verdict {
    match cfg.notFound
    case None => Failure(404, "Not Found")
    case Some(f) =>
      match RunAlone(f(ViewOf(r, path, [])))
      case Finished(st) => Verdict(ShouldClose(r), PageOf(st, false))
      case Threw => Failure(500, "Internal Server Error")
  }

  function RespondMatched(cfg: Config, r: RawRequest, path: string, found: Match, params: seq<(string, string)>, head: bool): Verdict {
    var after := if InBounds(path, found.captures) then PatchAll(path, found.captures) else path;
    var v := ViewOf(r, after, params);
    var page := Handled(cfg, found.chain, v, head);
    Verdict(ShouldClose(r) || ThrewUnhandled(cfg, found.chain, v), page)
  }

  predicate InBounds(path: string, caps: seq<Capture>) {
    forall k :: 0 <= k < |caps| ==> caps[k].start + caps[k].len <= |path|
  }

  /** The handler threw and the 500 page, which closes, answers. */
  predicate ThrewUnhandled(cfg: Config, chain: Chain, v: View) {
    C.Exec(Programs(cfg, chain, v), C.Next(C.Done), C.FRESH).Threw? && cfg.onError.None?
  }

  // ---- The decision for a window of bytes ---------------------------------

  /** An answer, with the method of the request it answers; empty when no request was accepted. */
  datatype Decision = NeedMore | Answer(consumed: nat, verb: string, verdict: Verdict)

  ghost predicate Parseable(cfg: Config) { ValidHeadParser(cfg.phr) }

  /** The answer to a request that has been parsed. */
  function AnswerFor(cfg: Config, b: string, r: Request): Decision
    requires RequestInside(r, |b|)
  {
    var raw := ReadRequest(b, r);
    Answer(r.consumed, raw.verb, Respond(cfg, raw))
  }

  /** What process_request does with the bytes received and not yet consumed. */
  ghost function Decide(cfg: Config, w: string): Decision
    requires Parseable(cfg)
  {
    match Parse(cfg.phr, w, cfg.maxBody)
    case Failed(Incomplete) =>
      if |w| >= WINDOW then Answer(0, "", Failure(431, "Request Header Fields Too Large")) else NeedMore
    case Failed(TooLarge) => Answer(0, "", Failure(413, "Payload Too Large"))
    case Failed(BadRequest) => Answer(0, "", Failure(400, "Bad Request"))
    case Parsed(r) =>
      ParsedInside(cfg.phr, w, cfg.maxBody);
      AnswerFor(cfg, w, r)
  }

  lemma ReadStable(b: string, more: string, r: Request)
    requires RequestInside(r, |b|)
    ensures RequestInside(r, |b + more|) && ReadRequest(b + more, r) == ReadRequest(b, r)
  {
    TextStable(b, more, r.verb);
    TextStable(b, more, r.path);
    TextStable(b, more, r.query);
    TextStable(b, more, r.body);
    forall k | 0 <= k < |r.headers|
      ensures TextOf(b + more, r.headers[k].name) == TextOf(b, r.headers[k].name)
      ensures TextOf(b + more, r.headers[k].value) == TextOf(b, r.headers[k].value)
    {
      TextStable(b, more, r.headers[k].name);
      TextStable(b, more, r.headers[k].value);
    }
    assert HeaderTexts(b + more, r.headers) == HeaderTexts(b, r.headers);
  }

  lemma DecideAccepted(cfg: Config, w: string)
    requires Parseable(cfg) && Parse(cfg.phr, w, cfg.maxBody).Parsed?
    ensures var r := Parse(cfg.phr, w, cfg.maxBody).req;
      RequestInside(r, |w|) && Decide(cfg, w) == AnswerFor(cfg, w, r)
  {
    ParsedInside(cfg.phr, w, cfg.maxBody);
    hide Respond, ReadRequest, Parse;
  }

  lemma AnswerForIs(cfg: Config, w: string, req: Request)
    requires RequestInside(req, |w|)
    ensures AnswerFor(cfg, w, req) == Answer(req.consumed, ReadRequest(w, req).verb, Respond(cfg, ReadRequest(w, req)))
  {
    hide Respond, ReadRequest;
  }

  lemma AcceptedStable(cfg: Config, b: string, more: string, r: Request)
    requires RequestInside(r, |b|)
    ensures RequestInside(r, |b + more|) && AnswerFor(cfg, b + more, r) == AnswerFor(cfg, b, r)
  {
    hide Respond, ReadRequest;
    assert RequestInside(r, |b + more|);
    ReadStable(b, more, r);
  }

  lemma DecideFailed(cfg: Config, w: string)
    requires Parseable(cfg) && Parse(cfg.phr, w, cfg.maxBody).Failed?
    ensures match Parse(cfg.phr, w, cfg.maxBody).error
      case Incomplete =>
        Decide(cfg, w) == if |w| >= WINDOW then Answer(0, "", Failure(431, "Request Header Fields Too Large")) else NeedMore
      case TooLarge => Decide(cfg, w) == Answer(0, "", Failure(413, "Payload Too Large"))
      case BadRequest => Decide(cfg, w) == Answer(0, "", Failure(400, "Bad Request"))
  {
    hide Respond, ReadRequest, Parse;
  }

  /** A decision, once taken, does not change when more bytes arrive in the window. */
  lemma DecideStable(cfg: Config, w: string, more: string)
    requires Parseable(cfg) && Decide(cfg, w).Answer? && |w + more| <= WINDOW
    ensures Decide(cfg, w + more) == Decide(cfg, w)
  {
    ParseableMeans(cfg);
    hide *;
    var parsed := Parse(cfg.phr, w, cfg.maxBody);
    if parsed == Failed(Incomplete) {
      DecideFailed(cfg, w);
      assert more == "" && w + more == w;
    } else {
      PrefixStable(cfg.phr, w, more, cfg.maxBody);
      if parsed.Parsed? {
        DecideAccepted(cfg, w);
        DecideAccepted(cfg, w + more);
        AcceptedStable(cfg, w, more, parsed.req);
      } else {
        DecideFailed(cfg, w);
        DecideFailed(cfg, w + more);
      }
    }
  }

  lemma ParseableMeans(cfg: Config)
    requires Parseable(cfg)
    ensures ValidHeadParser(cfg.phr)
  {
  }

  /** Only an accepted request keeps the connection open, and it consumes some of the bytes present. */
  lemma DecideConsumes(cfg: Config, w: string)
    requires Parseable(cfg)
    ensures w == "" ==> Decide(cfg, w).NeedMore?
    ensures Decide(cfg, w).NeedMore? ==> |w| < WINDOW
    ensures Decide(cfg, w).Answer? ==> Decide(cfg, w).consumed <= |w|
    ensures Decide(cfg, w).Answer? && !Decide(cfg, w).verdict.close ==> 0 < Decide(cfg, w).consumed
  {
    hide Respond, ReadRequest;
    if Parse(cfg.phr, w, cfg.maxBody).Parsed? { ParsedInside(cfg.phr, w, cfg.maxBody); }
  }

  // ---- What applications may do -------------------------------------------

  /** Handler bodies the results speak of: three-digit status codes, non-empty prebuilt data, bodies that fit in memory. */
  predicate PoliteAction(a: C.Action) {
    match a
    case Status(code) => R.ThreeDigit(code)
    case Redirect(_, code) => R.ThreeDigit(code)
    case Prebuilt(data) => data != ""
    case Send(body, _) => |body| <= SIZE_MAX
    case _ => true
  }

  predicate PoliteProgram(p: C.Program)
    decreases p
  {
    match p
    case Done => true
    case Throw => true
    case Do(a, rest) => PoliteAction(a) && PoliteProgram(rest)
    case Test(_, yes, no) => PoliteProgram(yes) && PoliteProgram(no)
    case Next(rest) => PoliteProgram(rest)
  }

  /** Every handler is polite, and the two fallback handlers do not throw. */
  ghost predicate Polite(cfg: Config) {
    && (forall id, v :: PoliteProgram(cfg.handler(id, v)))
    && (cfg.notFound.Some? ==> forall v :: PoliteProgram(cfg.notFound.value(v)) && RunAlone(cfg.notFound.value(v)).Finished?)
    && (cfg.onError.Some? ==> forall v :: PoliteProgram(cfg.onError.value(v)) && RunAlone(cfg.onError.value(v)).Finished?)
  }

  predicate PoliteState(st: C.State) {
    R.ThreeDigit(st.status) && |st.body| <= SIZE_MAX && C.TableOk(st.headers) && (st.prebuilt.Some? ==> st.prebuilt.value != "")
  }

  lemma {:induction false} ExecPolite(chain: seq<C.Program>, p: C.Program, st: C.State)
    requires (forall k :: 0 <= k < |chain| ==> PoliteProgram(chain[k])) && PoliteProgram(p) && PoliteState(st)
    ensures C.Exec(chain, p, st).Finished? ==> PoliteState(C.Exec(chain, p, st).st)
    decreases if st.index < |chain| then |chain| - st.index else 0, p
  {
    match p
    case Done =>
    case Throw =>
    case Do(a, rest) =>
      ApplyPolite(st, a);
      ExecPolite(chain, rest, C.Apply(st, a));
    case Test(cond, yes, no) =>
      if cond(st) { ExecPolite(chain, yes, st); } else { ExecPolite(chain, no, st); }
    case Next(rest) =>
      if st.index < |chain| {
        var st1 := st.(index := st.index + 1);
        ExecPolite(chain, chain[st.index], st1);
        if C.Exec(chain, chain[st.index], st1).Finished? {
          ExecPolite(chain, rest, C.Exec(chain, chain[st.index], st1).st);
        }
      } else {
        ExecPolite(chain, rest, st);
      }
  }

  lemma ApplyPolite(st: C.State, a: C.Action)
    requires PoliteState(st) && PoliteAction(a)
    ensures PoliteState(C.Apply(st, a))
  {
    match a
    case Set(name, value) => C.SetIsUpdate(st.headers, name, value);
    case Redirect(location, code) => C.SetIsUpdate(st.headers, "Location", location);
    case _ =>
  }

  /** A page the printers can handle within their size computations. */
  predicate Printable(p: Page) {
    match p
    case ErrorPage(status, body) => R.ThreeDigit(status) && status != 204 && |body| < 1_000_000_000
    case Built(code, contentType, body, headers, head) => R.ThreeDigit(code) && |body| <= SIZE_MAX && C.TableOk(headers)
    case Raw(data) => data != ""
  }

  lemma AlonePolite(p: C.Program)
    requires PoliteProgram(p)
    ensures RunAlone(p).Finished? ==> PoliteState(RunAlone(p).st)
  {
    ExecPolite([], p, C.FRESH);
  }

  /** The 500 page is given exactly when the handler threw and nobody handles it. */
  lemma HandledKind(cfg: Config, chain: Chain, v: View, head: bool)
    requires Polite(cfg)
    ensures ThrewUnhandled(cfg, chain, v) <==> Handled(cfg, chain, v, head).ErrorPage?
  {
    hide C.Exec, Programs;
  }

  lemma HandledPrintable(cfg: Config, chain: Chain, v: View, head: bool)
    requires Polite(cfg)
    ensures Printable(Handled(cfg, chain, v, head))
  {
    ExecPolite(Programs(cfg, chain, v), C.Next(C.Done), C.FRESH);
    if cfg.onError.Some? { AlonePolite(cfg.onError.value(v.(params := []))); }
    hide C.Exec, PoliteProgram, Programs, C.TableOk;
  }

  lemma RespondPrintable(cfg: Config, r: RawRequest)
    requires Polite(cfg)
    ensures Printable(Respond(cfg, r).page)
  {
    hide C.Exec, PoliteProgram, Programs, Handled, C.TableOk, N.Normalized, C.SetIn, RouteOf, DecodedParams, PatchAll, HeaderValue;
    hide ThrewUnhandled;
    if N.Normalized(r.path).Some? && MethodOf(r.verb).Some? {
      var path := N.Normalized(r.path).value;
      match RouteOf(cfg.table, MethodOf(r.verb).value, path)
      case AutoOptions(ms) =>
        C.SetIsUpdate([], "Allow", AllowText(ms)) by { assert C.TableOk([]) by { NoHeaders(); } }
      case NoRoute =>
        if cfg.notFound.Some? { AlonePolite(cfg.notFound.value(ViewOf(r, path, []))); }
      case Matched(found, head) =>
        if DecodedParams(path, found.captures).Some? {
          var after := if InBounds(path, found.captures) then PatchAll(path, found.captures) else path;
          HandledPrintable(cfg, found.chain, ViewOf(r, after, DecodedParams(path, found.captures).value), head);
        }
    }
  }

  lemma NoHeaders()
    ensures C.TableOk([])
  {
  }

  /** Polite applications only ever answer with pages the printers can handle. */
  lemma DecidePrintable(cfg: Config, w: string)
    requires Parseable(cfg) && Polite(cfg) && Decide(cfg, w).Answer?
    ensures Printable(Decide(cfg, w).verdict.page)
  {
    hide *;
    ParseableMeans(cfg);
    if Parse(cfg.phr, w, cfg.maxBody).Parsed? {
      DecideAccepted(cfg, w);
      AnswerPrintable(cfg, w, Parse(cfg.phr, w, cfg.maxBody).req);
    } else {
      DecideFailed(cfg, w);
      RefusalsPrintable();
    }
  }

  lemma AnswerPrintable(cfg: Config, b: string, r: Request)
    requires Polite(cfg) && RequestInside(r, |b|)
    ensures Printable(AnswerFor(cfg, b, r).verdict.page)
  {
    hide Respond, ReadRequest, Printable;
    RespondPrintable(cfg, ReadRequest(b, r));
  }

  lemma RefusalsPrintable()
    ensures Printable(Failure(431, "Request Header Fields Too Large").page)
    ensures Printable(Failure(413, "Payload Too Large").page) && Printable(Failure(400, "Bad Request").page)
  {
  }

  /** What is printed is never empty. */
  lemma RenderNonEmpty(p: Page, close: bool, date: string)
    requires Printable(p)
    ensures Render(p, close, date) != ""
  {
    match p
    case ErrorPage(status, body) => assert |R.ErrorPrint(status, body, date)| >= 9;
    case Built(code, contentType, body, headers, head) =>
      R.SizeIsExact(R.Reply(code, contentType, body, headers, head, close), date);
      R.ThreeBytesMeans(code);
    case Raw(_) =>
  }
}
