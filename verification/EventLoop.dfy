/** The shared event handlers (src/event_loop.cpp) on one connection: parse in the receive buffer, edit the
    path in place, run the handlers, print into the arena. */
module EventLoop {
  import opened Text
  import opened Trie
  import opened TrieSearch
  import opened Routing
  import opened Decimal
  import opened HttpParser
  import A = Arena
  import opened Serve
  import opened Patching
  import opened Protocol
  import Cn = Connection
  import TR = TrieRoutes
  import N = Normalize
  import U = UrlDecode
  import C = Ctx
  import R = Response

  // ---- Reading the request where it lies ----------------------------------

  /** The part of parse_request behind the head parser. */
  method FrameRequest(buf: array<char>, len: nat, h: Head, maxBody: nat) returns (r: ParseResult)
    requires len <= buf.Length && h.size <= len && HeadInside(h)
    ensures r == Frame(buf[..len], h, maxBody)
  {
    var f := ScanPrefix(buf, len, h.headers);
    hide FramingOf, IndexOf;
    match f
    case BadFraming => return Failed(BadRequest);
    case Framing(length, te) =>
      if te { return Failed(BadRequest); }
      if maxBody > 0 && length.Some? && length.value > maxBody { return Failed(TooLarge); }
      var available := if len > h.size then len - h.size else 0;
      if length.Some? && available < length.value { return Failed(Incomplete); }
      var (path, query) := SplitTarget(buf[..len], h.target);
      var body := Slice(h.size, if length.Some? then length.value else 0);
      return Parsed(Request(h.verb, path, query, h.minor, h.headers, body, h.size, h.size + body.len));
  }

  method ScanPrefix(buf: array<char>, len: nat, hs: seq<Header>) returns (f: Framing)
    requires len <= buf.Length && InText(buf[..len], hs)
    ensures f == FramingOf(buf[..len], hs)
  {
    assert buf[..] == buf[..len] + buf[len..];
    FramingStable(buf[..len], buf[len..], hs);
    f := ScanHeaders(buf, hs);
  }

  /** parse_request on the first `len` bytes of the buffer. */
  method ParseRequest(phr: HeadParser, buf: array<char>, len: nat, maxBody: nat) returns (r: ParseResult)
    requires ValidHeadParser(phr) && len <= buf.Length
    ensures r == Parse(phr, buf[..len], maxBody)
  {
    match phr(buf[..len])
    case HeadBad => r := Failed(BadRequest);
    case HeadIncomplete => r := Failed(Incomplete);
    case HeadComplete(h) => r := FrameRequest(buf, len, h, maxBody);
  }

  /** has_header_ci: the first header of that name. */
  method FindHeader(buf: array<char>, hs: seq<Header>, target: string) returns (v: Option<Slice>)
    requires InText(buf[..], hs)
    ensures v.Some? ==> v.value.End() <= buf.Length
    ensures HeaderValue(HeaderTexts(buf[..], hs), target) == match v case None => None case Some(s) => Some(TextOf(buf[..], s))
  {
    hide CiEq, TextOf;
    ghost var b := buf[..];
    assert hs[0..] == hs;
    for i := 0 to |hs|
      invariant HeaderValue(HeaderTexts(b, hs), target) == HeaderValue(HeaderTexts(b, hs[i..]), target)
    {
      ghost var texts := HeaderTexts(b, hs[i..]);
      assert texts[1..] == HeaderTexts(b, hs[i + 1..]);
      var same := CiEqual(buf, hs[i].name, target);
      if same { return Some(hs[i].value); }
    }
    return None;
  }

  /** should_close_connection. */
  method CloseWanted(buf: array<char>, minor: nat, hs: seq<Header>, ghost raw: RawRequest) returns (close: bool)
    requires InText(buf[..], hs) && raw.minor == minor && raw.headers == HeaderTexts(buf[..], hs)
    ensures close == ShouldClose(raw)
  {
    var conn := FindHeader(buf, hs, "connection");
    if conn.Some? {
      var isClose := CiEqual(buf, conn.value, "close");
      if isClose { return true; }
    }
    if minor == 0 {
      if conn.Some? {
        var isKeepAlive := CiEqual(buf, conn.value, "keep-alive");
        if isKeepAlive { return false; }
      }
      return true;
    }
    return false;
  }

  /** The methods registered for a path: one lookup each. */
  method AllowedMethods(tab: Table, path: string) returns (ms: seq<Method>)
    ensures ms == MethodsFor(tab, path, ALL_METHODS)
  {
    ms := [];
    assert ALL_METHODS[0..] == ALL_METHODS;
    for i := 0 to |ALL_METHODS|
      invariant MethodsFor(tab, path, ALL_METHODS) == ms + MethodsFor(tab, path, ALL_METHODS[i..])
    {
      assert ALL_METHODS[i..][1..] == ALL_METHODS[i + 1..];
      ghost var rest := MethodsFor(tab, path, ALL_METHODS[i + 1..]);
      if Lookup(tab, ALL_METHODS[i], path).Some? {
        Assoc(ms, [ALL_METHODS[i]], rest);
        ms := ms + [ALL_METHODS[i]];
      } else {
        assert [] + rest == rest;
      }
    }
    assert ms + [] == ms;
  }

  /** The Allow list, joined by a comma and a blank. */
  method JoinMethods(ms: seq<Method>) returns (s: string)
    ensures s == Listed(ms)
  {
    s := "";
    for i := 0 to |ms|
      invariant s == Listed(ms[..i])
    {
      assert ms[..i + 1][..i] == ms[..i];
      s := s + (if i > 0 then ", " else "") + MethodName(ms[i]);
    }
    assert ms[..|ms|] == ms;
  }

  // ---- Decoding captures in place -----------------------------------------

  /** Decoding one capture in the buffer is patching the path it is part of. */
  method DecodeCapture(buf: array<char>, base: nat, n: nat, c: TrieSearch.Capture) returns (nul: bool, len: nat)
    requires base + n <= buf.Length && c.start + c.len <= n
    modifies buf
    ensures forall k :: 0 <= k < buf.Length && !(base <= k < base + n) ==> buf[k] == old(buf[k])
    ensures var path := old(buf[base..base + n]);
      var value := U.Decoded(TR.Slice(path, c));
      && nul == value.None?
      && (!nul ==> len == |value.value| <= c.len && buf[base..base + n] == Patch(path, c))
  {
    hide *;
    ghost var before := buf[..];
    SliceAt(before, base, n, c);
    len, nul := U.DecodeInPlace(buf, base + c.start, c.len);
    if !nul {
      assert buf[..][base + c.start..base + c.start + c.len] == buf[base + c.start..base + c.start + c.len];
      CaptureDecoded(before, buf[..], base, n, c);
    }
  }

  lemma SliceAt(b: string, base: nat, n: nat, c: TrieSearch.Capture)
    requires base + n <= |b| && c.start + c.len <= n
    ensures TR.Slice(b[base..base + n], c) == b[base + c.start..base + c.start + c.len]
  {
    var s, t := TR.Slice(b[base..base + n], c), b[base + c.start..base + c.start + c.len];
    assert |s| == |t|;
    forall k | 0 <= k < |s| ensures s[k] == t[k] {
      assert s[k] == b[base..base + n][c.start + k] == b[base + (c.start + k)];
    }
  }

  /** Overwriting a capture in the buffer, and nothing else, patches the path. */
  lemma CaptureDecoded(b: string, b': string, base: nat, n: nat, c: TrieSearch.Capture)
    requires |b'| == |b| && base + n <= |b| && c.start + c.len <= n
    requires U.Decoded(b[base + c.start..base + c.start + c.len]).Some?
    requires b'[base + c.start..base + c.start + c.len] == U.Overwritten(b[base + c.start..base + c.start + c.len])
    requires forall k :: 0 <= k < |b| && !(base + c.start <= k < base + c.start + c.len) ==> b'[k] == b[k]
    ensures b'[base..base + n] == Patch(b[base..base + n], c)
  {
    SliceAt(b, base, n, c);
    SliceAt(b', base, n, c);
    var path, now := b[base..base + n], b'[base..base + n];
    assert now[c.start..c.start + c.len] == b'[base + c.start..base + c.start + c.len];
    hide *;
    assert forall k :: 0 <= k < n && !(c.start <= k < c.start + c.len) ==> now[k] == path[k];
    PatchedBy(path, now, c);
  }

  /** Every capture, decoded so far, still shows its own decoded value. */
  ghost predicate Shown(path: string, now: string, caps: seq<TrieSearch.Capture>, lens: seq<nat>, i: nat) {
    && i <= |lens| && i <= |caps| && |now| == |path|
    && forall k :: 0 <= k < i ==>
         && U.Decoded(TR.Slice(path, caps[k])).Some? && lens[k] == |U.Decoded(TR.Slice(path, caps[k])).value| <= caps[k].len
         && caps[k].start + caps[k].len <= |now|
         && now[caps[k].start..caps[k].start + lens[k]] == U.Decoded(TR.Slice(path, caps[k])).value
  }

  /** Decodes the captures one after another in the buffer. Since they are disjoint and in order, each gets
      the value of decoding its original slice alone, and keeps it. */
  method DecodeCaptures(buf: array<char>, base: nat, n: nat, caps: seq<TrieSearch.Capture>, ghost lo: nat)
    returns (ok: bool, lens: seq<nat>)
    requires base + n <= buf.Length && TR.InOrder(caps, lo, n)
    modifies buf
    ensures forall k :: 0 <= k < buf.Length && !(base <= k < base + n) ==> buf[k] == old(buf[k])
    ensures InBounds(old(buf[base..base + n]), caps)
    ensures ok == DecodedParams(old(buf[base..base + n]), caps).Some?
    ensures ok ==> |lens| == |caps| && Shown(old(buf[base..base + n]), buf[base..base + n], caps, lens, |caps|)
                   && buf[base..base + n] == PatchAll(old(buf[base..base + n]), caps)
  {
    hide *;
    ghost var path := buf[base..base + n];
    CapturesInside(path, caps, lo);
    lens := [];
    NothingYet(path, caps);
    for i := 0 to |caps|
      invariant |lens| == i
      invariant forall k :: 0 <= k < buf.Length && !(base <= k < base + n) ==> buf[k] == old(buf[k])
      invariant buf[base..base + n] == PatchAll(path, caps[..i])
      invariant Shown(path, buf[base..base + n], caps, lens, i)
    {
      ghost var before := buf[base..base + n];
      FirstSpare(path, caps, i);
      PatchNext(path, caps, i);
      var nul, len := DecodeCapture(buf, base, n, caps[i]);
      if nul {
        ParamsAre(path, caps);
        return false, [];
      }
      ShownMore(path, before, buf[base..base + n], caps, lens, i, len);
      lens := lens + [len];
    }
    assert caps[..|caps|] == caps;
    ShownParams(path, buf[base..base + n], caps, lens);
    return true, lens;
  }

  /** Captures in order lie apart, inside the path. */
  lemma CapturesInside(path: string, caps: seq<TrieSearch.Capture>, lo: nat)
    requires TR.InOrder(caps, lo, |path|)
    ensures InBounds(path, caps) && forall k :: 0 <= k < |caps| ==> caps[k].start + caps[k].len <= |path|
    ensures forall a, b :: 0 <= a < b < |caps| ==> caps[a].start + caps[a].len <= caps[b].start
  {
    TR.InOrderDisjoint(caps, lo, |path|);
    hide TR.InOrder;
  }

  lemma NothingYet(path: string, caps: seq<TrieSearch.Capture>)
    ensures PatchAll(path, caps[..0]) == path && Shown(path, path, caps, [], 0)
  {
  }

  lemma PatchNext(path: string, caps: seq<TrieSearch.Capture>, i: nat)
    requires i < |caps| && InBounds(path, caps)
    ensures PatchAll(path, caps[..i + 1]) == Patch(PatchAll(path, caps[..i]), caps[i])
  {
    assert caps[..i + 1][..i] == caps[..i];
    PatchLast(path, caps[..i + 1]);
  }

  lemma ShownParams(path: string, now: string, caps: seq<TrieSearch.Capture>, lens: seq<nat>)
    requires Shown(path, now, caps, lens, |caps|)
    ensures DecodedParams(path, caps).Some?
  {
    ParamsAre(path, caps);
    hide DecodedParams, U.Decoded;
  }

  lemma ShownMore(path: string, before: string, now: string, caps: seq<TrieSearch.Capture>, lens: seq<nat>, i: nat, len: nat)
    requires i < |caps| && |lens| == i && Shown(path, before, caps, lens, i) && InBounds(path, caps)
    requires forall a, b :: 0 <= a < b < |caps| ==> caps[a].start + caps[a].len <= caps[b].start
    requires TR.Slice(before, caps[i]) == TR.Slice(path, caps[i]) && U.Decoded(TR.Slice(path, caps[i])).Some?
    requires now == Patch(before, caps[i]) && len == |U.Decoded(TR.Slice(path, caps[i])).value|
    ensures Shown(path, now, caps, lens + [len], i + 1)
  {
    hide U.Decoded, Patch, TR.Slice;
    PatchShows(before, caps[i]);
    PatchOutside(before, caps[i]);
    forall k | 0 <= k < i ensures now[caps[k].start..caps[k].start + lens[k]] == before[caps[k].start..caps[k].start + lens[k]] {
      assert caps[k].start + caps[k].len <= caps[i].start;
    }
  }

  /** Patching keeps the length and everything in front of the capture. */
  lemma PatchOutside(path: string, c: TrieSearch.Capture)
    requires c.start + c.len <= |path| && U.Decoded(TR.Slice(path, c)).Some?
    ensures |Patch(path, c)| == |path| && forall k :: 0 <= k < c.start ==> Patch(path, c)[k] == path[k]
  {
    PatchIs(path, c);
    hide U.Decoded, U.Overwritten, Patch, TR.Slice;
  }

  // ---- The view a handler gets --------------------------------------------

  /** Header texts, read from the buffer. */
  method ReadHeaders(buf: array<char>, hs: seq<Header>) returns (texts: seq<(string, string)>)
    requires InText(buf[..], hs)
    ensures texts == HeaderTexts(buf[..], hs)
  {
    texts := [];
    for i := 0 to |hs|
      invariant texts == HeaderTexts(buf[..], hs)[..i]
    {
      var h := hs[i];
      texts := texts + [(buf[h.name.start..h.name.End()], buf[h.value.start..h.value.End()])];
    }
  }

  /** Parameters, read from the patched path in the buffer. */
  method ReadParams(buf: array<char>, base: nat, n: nat, caps: seq<TrieSearch.Capture>, lens: seq<nat>, ghost path: string)
    returns (params: seq<(string, string)>)
    requires base + n <= buf.Length && |path| == n && |lens| == |caps| && Shown(path, buf[base..base + n], caps, lens, |caps|)
    requires DecodedParams(path, caps).Some?
    ensures params == DecodedParams(path, caps).value
  {
    ParamsAre(path, caps);
    hide U.Decoded, DecodedParams, TR.Slice;
    var now := buf[base..base + n];
    params := [];
    for i := 0 to |caps|
      invariant params == DecodedParams(path, caps).value[..i]
    {
      var c := caps[i];
      params := params + [(c.key, now[c.start..c.start + lens[i]])];
    }
  }

  // ---- Running handlers ---------------------------------------------------

  /** The page a finished context stands for. */
  method PageFrom(ctx: C.Context, head: bool) returns (p: Page)
    requires ctx.Valid()
    ensures p == PageOf(ctx.Now(), head)
  {
    match ctx.prebuilt
    case Some(data) => p := Raw(data);
    case None => p := Built(ctx.statusCode, ctx.respContentType, ctx.respBody, ctx.respHeaders[..ctx.respCount], head);
  }

  /** One handler outside a chain. */
  method RunOne(p: C.Program, head: bool) returns (threw: bool, page: Page)
    ensures threw == RunAlone(p).Threw?
    ensures !threw ==> page == PageOf(RunAlone(p).st, head)
  {
    var ctx := new C.Context();
    hide C.Exec, PageOf;
    threw := ctx.Perform([], p);
    page := PageFrom(ctx, head);
  }

  /** The chain of a matched route, with the error handler or the 500 page behind it. */
  method RunChain(cfg: Config, chain: Chain, v: View, head: bool) returns (page: Page, unhandled: bool)
    requires Polite(cfg)
    ensures page == Handled(cfg, chain, v, head) && unhandled == ThrewUnhandled(cfg, chain, v)
  {
    var ctx := new C.Context();
    hide C.Exec, PageOf, PoliteProgram, Programs;
    var threw := ctx.Perform(Programs(cfg, chain, v), C.Next(C.Done));
    if !threw {
      page := PageFrom(ctx, head);
      return page, false;
    }
    match cfg.onError
    case None =>
      return ErrorPage(500, "Internal Server Error"), true;
    case Some(f) =>
      var again;
      again, page := RunOne(f(v.(params := [])), false);
      return page, false;
  }

  // ---- Putting the answer into the arena ----------------------------------

  /** The connection with the response to a verdict prepared. */
  ghost function Answering(before: Conn, v: Verdict, date: string): Conn {
    before.(phase := Writing, out := Render(v.page, v.close, date), off := 0, close := v.close)
  }

  /** build_response: into a region of the arena handed out for it. */
  method BuildResponse(c: Cn.Connection, page: Page, date: string, ghost e: nat)
    requires c.Sound(e) && page.Built? && Printable(page)
    modifies c, c.arena, c.arena.main
    ensures c.Sound(e) && c.SendAlive()
    ensures c.sendBuf == c.arena.main || fresh(c.sendBuf)
    ensures !c.borrowed && exists r :: c.arena.live == old(c.arena.live) + [r] && c.SendsFrom(r)
    ensures c.View() == old(c.View()).(out := Render(page, old(c.closeAfterSend), date), off := 0)
  {
    hide *;
    PrintableReply(page, c.closeAfterSend, date);
    var length := R.LengthText(|page.body|);
    var r := R.Reply(page.code, page.contentType, page.body, page.headers, page.head, c.closeAfterSend);
    var exact := R.ComputeSize(r, date, length);
    var region := c.Reserve(exact, e);
    var q := R.PrintReply(region.mem, region.start, r, date, length);
    c.SameButOut();
    c.SendFrom(region, q - region.start, e);
  }

  lemma PrintableReply(p: Page, close: bool, date: string)
    requires p.Built? && Printable(p)
    ensures R.ThreeDigit(p.code) && |p.body| <= SIZE_MAX
    ensures Render(p, close, date) == R.Print(R.Reply(p.code, p.contentType, p.body, p.headers, p.head, close), date)
  {
    hide R.Print;
  }

  /** send_prebuilt: the bytes live outside the arena. */
  method SendPrebuilt(c: Cn.Connection, data: string, ghost e: nat)
    requires c.Sound(e)
    modifies c
    ensures c.Sound(e) && c.SendAlive()
    ensures c.View() == old(c.View()).(out := data, off := 0)
    ensures fresh(c.sendBuf) && c.borrowed
  {
    var buf := new char[|data|](i requires 0 <= i < |data| => data[i]);
    c.SetSend(buf, 0, |data|, true);
    assert buf[0..|data|] == data;
  }

  /** send_error_response. */
  method SendError(c: Cn.Connection, status: int, body: string, date: string, ghost e: nat)
    requires c.Sound(e) && Printable(ErrorPage(status, body))
    modifies c, c.arena, c.arena.main
    ensures c.Sound(e) && c.SendAlive()
    ensures c.sendBuf == c.arena.main || fresh(c.sendBuf)
    ensures !c.borrowed && exists r :: c.arena.live == old(c.arena.live) + [r] && c.SendsFrom(r)
    ensures c.View() == old(c.View()).(phase := Writing, out := R.ErrorPrint(status, body, date), off := 0, close := true)
  {
    hide *;
    ErrorCovered(status, body, date);
    var estimated := R.ErrorEstimate(status, body, date);
    var region := c.Reserve(estimated, e);
    var q := R.PrintError(region.mem, region.start, status, body, date);
    c.SameButOut();
    c.SendFrom(region, q - region.start, e);
    Closing(c, e);
  }

  method StartWriting(c: Cn.Connection, ghost e: nat)
    requires c.Sound(e) && c.SendAlive()
    modifies c`state
    ensures c.Sound(e) && c.SendAlive() && c.View() == old(c.View()).(phase := Writing)
  {
    hide A.Arena.Valid;
    c.state := Writing;
  }

  /** An error page closes the connection. */
  method Closing(c: Cn.Connection, ghost e: nat)
    requires c.Sound(e) && c.SendAlive()
    modifies c`closeAfterSend, c`state
    ensures c.Sound(e) && c.SendAlive() && c.View() == old(c.View()).(phase := Writing, close := true)
  {
    hide A.Arena.Valid;
    c.closeAfterSend := true;
    StartWriting(c, e);
  }

  lemma ErrorCovered(status: int, body: string, date: string)
    requires Printable(ErrorPage(status, body))
    ensures |R.ErrorPrint(status, body, date)| <= R.ErrorEstimate(status, body, date)
    ensures -status <= SIZE_MAX && status <= SIZE_MAX && |body| <= SIZE_MAX
  {
    R.ErrorFits(status, body, date);
    R.ThreeBytesMeans(status);
    assert Pow10(9) == 1_000_000_000 by {
      assert Pow10(3) == 1000;
      assert Pow10(6) == 1000 * Pow10(3);
      assert Pow10(9) == 1000 * Pow10(6);
    }
    DigitsLength(|body|, 9);
  }

  // ---- process_request ----------------------------------------------------

  /** Outside the path, the buffer still holds what the peer sent. */
  ghost predicate Intact(buf: array<char>, raw: string, path: Slice)
    reads buf
  {
    |raw| <= buf.Length && forall k :: 0 <= k < |raw| && !(path.start <= k < path.End()) ==> buf[k] == raw[k]
  }

  lemma TextIntact(buf: array<char>, raw: string, path: Slice, s: Slice)
    requires Intact(buf, raw, path) && s.End() <= |raw| && (s.End() <= path.start || path.End() <= s.start)
    ensures s.End() <= buf.Length && TextOf(buf[..], s) == TextOf(raw, s) == buf[s.start..s.End()]
  {
    assert forall k :: s.start <= k < s.End() ==> buf[k] == raw[k];
  }

  lemma HeadersIntact(buf: array<char>, raw: string, path: Slice, hs: seq<Header>)
    requires Intact(buf, raw, path) && InText(raw, hs)
    requires forall k :: 0 <= k < |hs| ==> path.End() <= hs[k].name.start && path.End() <= hs[k].value.start
    ensures InText(buf[..], hs) && HeaderTexts(buf[..], hs) == HeaderTexts(raw, hs)
  {
    forall k | 0 <= k < |hs|
      ensures hs[k].name.End() <= buf.Length && TextOf(buf[..], hs[k].name) == TextOf(raw, hs[k].name)
      ensures hs[k].value.End() <= buf.Length && TextOf(buf[..], hs[k].value) == TextOf(raw, hs[k].value)
    {
      TextIntact(buf, raw, path, hs[k].name);
      TextIntact(buf, raw, path, hs[k].value);
    }
  }

  /** What a handler sees, read from the edited buffer. */
  method BuildView(buf: array<char>, req: Request, n: nat, params: seq<(string, string)>, ghost raw: string) returns (v: View)
    requires RequestInside(req, |raw|) && Intact(buf, raw, req.path) && n <= req.path.len
    ensures req.path.start + n <= buf.Length
    ensures v == ViewOf(ReadRequest(raw, req), buf[req.path.start..req.path.start + n], params)
  {
    TextIntact(buf, raw, req.path, req.verb);
    TextIntact(buf, raw, req.path, req.query);
    TextIntact(buf, raw, req.path, req.body);
    HeadersIntact(buf, raw, req.path, req.headers);
    var headers := ReadHeaders(buf, req.headers);
    v := View(buf[req.verb.start..req.verb.End()], buf[req.path.start..req.path.start + n],
              buf[req.query.start..req.query.End()], req.minor, headers, params, buf[req.body.start..req.body.End()]);
  }

  /** Sends a page that a context or a prebuilt response stands for. */
  method SendPage(c: Cn.Connection, page: Page, date: string, ghost e: nat)
    requires c.Sound(e) && !page.ErrorPage? && Printable(page)
    modifies c, c.arena, c.arena.main
    ensures c.Sound(e) && c.SendAlive()
    ensures c.sendBuf == c.arena.main || fresh(c.sendBuf)
    ensures c.borrowed == page.Raw?
    ensures c.View() == old(c.View()).(phase := Writing, out := Render(page, old(c.closeAfterSend), date), off := 0)
  {
    hide *;
    if page.Built? {
      BuildResponse(c, page, date, e);
    } else {
      RenderRaw(page, c.closeAfterSend, date);
      SendPrebuilt(c, page.data, e);
    }
    StartWriting(c, e);
  }

  lemma RenderRaw(p: Page, close: bool, date: string)
    requires p.Raw?
    ensures Render(p, close, date) == p.data
  {
  }

  /** The automatic answer to OPTIONS; the caller's list fits the buffer it is joined in. */
  method AnswerOptions(c: Cn.Connection, ms: seq<Method>, date: string, ghost e: nat)
    requires c.Sound(e) && |AllowText(ms)| <= ALLOW_BUFFER
    modifies c, c.arena, c.arena.main
    ensures c.Sound(e) && c.SendAlive()
    ensures c.sendBuf == c.arena.main || fresh(c.sendBuf)
    ensures !c.borrowed
    ensures var page := Built(204, "", "", C.SetIn([], "Allow", AllowText(ms)), false);
      c.View() == old(c.View()).(phase := Writing, out := Render(page, old(c.closeAfterSend), date), off := 0)
  {
    hide A.Arena.Valid, Render, Listed, C.SetIn;
    var allow := JoinMethods(if OPTIONS in ms then ms else ms + [OPTIONS]);
    var ctx := new C.Context();
    ctx.Act(C.Set("Allow", allow));
    ctx.Act(C.NoContent);
    var page := PageFrom(ctx, false);
    AllowPrintable(allow);
    SendPage(c, page, date, e);
  }

  lemma AllowPrintable(allow: string)
    ensures C.TableOk(C.SetIn([], "Allow", allow))
  {
    NoHeaders();
    C.SetIsUpdate([], "Allow", allow);
  }

  /** No route: the application's 404 handler, or the built-in page. */
  method AnswerNotFound(cfg: Config, c: Cn.Connection, req: Request, n: nat, date: string, ghost rr: RawRequest)
    requires ValidConfig(cfg) && c.Sound(req.path.End()) && RequestInside(req, |c.raw|) && Intact(c.recvBuf, c.raw, req.path)
    requires n <= req.path.len && rr == ReadRequest(c.raw, req) && c.closeAfterSend == ShouldClose(rr)
    modifies c, c.arena, c.arena.main
    ensures c.Sound(req.path.End()) && c.SendAlive()
    ensures c.sendBuf == c.arena.main || fresh(c.sendBuf)
    ensures c.borrowed == NotFoundVerdict(cfg, rr, old(c.recvBuf[req.path.start..req.path.start + n])).page.Raw?
    ensures c.View() == Answering(old(c.View()), NotFoundVerdict(cfg, rr, old(c.recvBuf[req.path.start..req.path.start + n])), date)
  {
    hide A.Arena.Valid, R.ErrorPrint, ReadRequest, ShouldClose, Parseable, Render, C.Exec, PoliteProgram, PageOf, InText;
    match cfg.notFound
    case None =>
      SendError(c, 404, "Not Found", date, req.path.End());
      RenderError(404, "Not Found", true, date);
    case Some(f) =>
      var view := BuildView(c.recvBuf, req, n, [], c.raw);
      NotFoundPage(cfg, view);
      var threw, page := RunOne(f(view), false);
      SendPage(c, page, date, req.path.End());
  }

  /** The 404 handler of a polite application finishes with a printable page. */
  lemma NotFoundPage(cfg: Config, v: View)
    requires Polite(cfg) && cfg.notFound.Some?
    ensures RunAlone(cfg.notFound.value(v)).Finished?
    ensures var page := PageOf(RunAlone(cfg.notFound.value(v)).st, false); Printable(page) && !page.ErrorPage?
  {
    AlonePolite(cfg.notFound.value(v));
    hide C.Exec, PoliteProgram;
  }

  /** The answer on a matched route. */
  ghost function MatchedVerdict(cfg: Config, rr: RawRequest, path: string, found: Match, head: bool): Verdict {
    match DecodedParams(path, found.captures)
    case None => Failure(400, "Bad Request")
    case Some(params) => RespondMatched(cfg, rr, path, found, params, head)
  }

  /** A matched route: decode the captures in place, run the chain. */
  method AnswerMatched(cfg: Config, c: Cn.Connection, req: Request, found: Match, head: bool, n: nat, date: string,
                       ghost rr: RawRequest, ghost path: string)
    requires ValidConfig(cfg) && c.Sound(req.path.End()) && RequestInside(req, |c.raw|) && Intact(c.recvBuf, c.raw, req.path)
    requires n <= req.path.len && path == c.recvBuf[req.path.start..req.path.start + n] && TR.InOrder(found.captures, 1, n)
    requires rr == ReadRequest(c.raw, req) && c.closeAfterSend == ShouldClose(rr)
    modifies c, c.recvBuf, c.arena, c.arena.main
    ensures c.Sound(req.path.End()) && c.SendAlive()
    ensures c.sendBuf == c.arena.main || fresh(c.sendBuf)
    ensures c.borrowed == MatchedVerdict(cfg, rr, path, found, head).page.Raw?
    ensures c.View() == Answering(old(c.View()), MatchedVerdict(cfg, rr, path, found, head), date)
  {
    hide *;
    var ps := req.path.start;
    c.Separate(req.path.End());
    c.Fields(req.path.End());
    PathPlace(c.raw, req);
    IntactMeans(c.recvBuf, c.raw, req.path);
    ghost var before := c.recvBuf[..];
    var ok, lens := DecodeCaptures(c.recvBuf, ps, n, found.captures, 1);
    IntactFrom(c.recvBuf, c.raw, req.path, before);
    c.EditedBelow(req.path.End());
    MatchedIs(cfg, rr, path, found, head);
    if !ok {
      RefusedPage();
      AnsweringError(c.View(), 400, "Bad Request", date);
      SendError(c, 400, "Bad Request", date, req.path.End());
      return;
    }
    PoliteConfig(cfg);
    var params := ReadParams(c.recvBuf, ps, n, found.captures, lens, path);
    var view := BuildView(c.recvBuf, req, n, params, c.raw);
    var page, unhandled := RunChain(cfg, found.chain, view, head);
    HandledPrintable(cfg, found.chain, view, head);
    HandledKind(cfg, found.chain, view, head);
    AnsweringIs(c.View(), page, c.closeAfterSend || unhandled, date);
    AnswerHandled(c, page, unhandled, date, req.path.End());
  }

  lemma PoliteConfig(cfg: Config)
    requires ValidConfig(cfg)
    ensures Polite(cfg) && Parseable(cfg)
  {
    hide Polite, Parseable;
  }

  lemma IntactMeans(buf: array<char>, raw: string, path: Slice)
    requires Intact(buf, raw, path) && path.End() == path.start + path.len
    ensures |raw| <= buf.Length && forall k :: 0 <= k < |raw| && !(path.start <= k < path.start + path.len) ==> buf[k] == raw[k]
  {
  }

  lemma MatchedIs(cfg: Config, rr: RawRequest, path: string, found: Match, head: bool)
    ensures DecodedParams(path, found.captures).None? ==> MatchedVerdict(cfg, rr, path, found, head) == Failure(400, "Bad Request")
    ensures DecodedParams(path, found.captures).Some? && InBounds(path, found.captures) ==>
      var v := ViewOf(rr, PatchAll(path, found.captures), DecodedParams(path, found.captures).value);
      MatchedVerdict(cfg, rr, path, found, head)
      == Verdict(ShouldClose(rr) || ThrewUnhandled(cfg, found.chain, v), Handled(cfg, found.chain, v, head))
  {
    hide DecodedParams, PatchAll, ShouldClose, ThrewUnhandled, Handled, InBounds;
  }

  lemma AnsweringIs(before: Conn, page: Page, close: bool, date: string)
    ensures Answering(before, Verdict(close, page), date)
         == before.(phase := Writing, out := Render(page, close, date), off := 0, close := close)
  {
    hide Render;
  }

  lemma RenderError(status: int, body: string, close: bool, date: string)
    ensures Render(ErrorPage(status, body), close, date) == R.ErrorPrint(status, body, date)
  {
  }

  /** The page of a handler chain; the 500 page closes the connection. */
  method AnswerHandled(c: Cn.Connection, page: Page, unhandled: bool, date: string, ghost e: nat)
    requires c.Sound(e) && Printable(page) && (unhandled <==> page.ErrorPage?)
    modifies c, c.arena, c.arena.main
    ensures c.Sound(e) && c.SendAlive()
    ensures c.sendBuf == c.arena.main || fresh(c.sendBuf)
    ensures c.borrowed == page.Raw?
    ensures var close := old(c.closeAfterSend) || unhandled;
      c.View() == old(c.View()).(phase := Writing, out := Render(page, close, date), off := 0, close := close)
  {
    hide A.Arena.Valid, Render, R.ErrorPrint;
    if unhandled {
      SendError(c, page.status, page.body, date, e);
      RenderError(page.status, page.body, true, date);
    } else {
      SendPage(c, page, date, e);
    }
  }

  /** The answer to an accepted request whose path has been normalised in the buffer. */
  method AnswerPath(cfg: Config, c: Cn.Connection, req: Request, m: Method, n: nat, date: string, ghost rr: RawRequest, ghost path: string)
    requires ValidConfig(cfg) && c.Sound(req.path.End()) && RequestInside(req, |c.raw|) && Intact(c.recvBuf, c.raw, req.path)
    requires n <= req.path.len && path == c.recvBuf[req.path.start..req.path.start + n]
    requires rr == ReadRequest(c.raw, req) && c.closeAfterSend == ShouldClose(rr)
    modifies c, c.recvBuf, c.arena, c.arena.main
    ensures c.Sound(req.path.End()) && c.SendAlive()
    ensures c.sendBuf == c.arena.main || fresh(c.sendBuf)
    ensures c.borrowed == RespondAt(cfg, rr, m, path).page.Raw?
    ensures c.View() == Answering(old(c.View()), RespondAt(cfg, rr, m, path), date)
  {
    hide *;
    var ps := req.path.start;
    c.Separate(req.path.End());
    c.Fields(req.path.End());
    PathPlace(c.raw, req);
    RespondAtIs(cfg, rr, m, path);
    var text := c.recvBuf[ps..ps + n];
    var found := Lookup(cfg.table, m, text);
    var isHeadFallback := false;
    if found.None? && m == HEAD {
      found := Lookup(cfg.table, GET, text);
      isHeadFallback := true;
    }
    if found.None? && m == OPTIONS {
      var ms := AllowedMethods(cfg.table, text);
      if ms != [] {
        AllowFits(cfg.table, text);
        AnsweringIs(c.View(), Built(204, "", "", C.SetIn([], "Allow", AllowText(ms)), false), c.closeAfterSend, date);
        AnswerOptions(c, ms, date, req.path.End());
        return;
      }
    }
    match found
    case None =>
      AnswerNotFound(cfg, c, req, n, date, rr);
    case Some(route) =>
      LookupOrdered(cfg.table, if isHeadFallback then GET else m, text);
      AnswerMatched(cfg, c, req, route, isHeadFallback, n, date, rr, path);
  }

  /** The answer on a normalised path, by what the router finds. */
  lemma RespondAtIs(cfg: Config, rr: RawRequest, m: Method, path: string)
    ensures var own, get, ms := Lookup(cfg.table, m, path), Lookup(cfg.table, GET, path), MethodsFor(cfg.table, path, ALL_METHODS);
      RespondAt(cfg, rr, m, path) ==
        if own.Some? then MatchedVerdict(cfg, rr, path, own.value, false)
        else if m == HEAD && get.Some? then MatchedVerdict(cfg, rr, path, get.value, true)
        else if m == OPTIONS && ms != [] then Verdict(ShouldClose(rr), Built(204, "", "", C.SetIn([], "Allow", AllowText(ms)), false))
        else NotFoundVerdict(cfg, rr, path)
  {
    hide Lookup, MethodsFor, DecodedParams, RespondMatched, NotFoundVerdict, ShouldClose, C.SetIn, AllowText;
  }

  /** The answer to an accepted request. */
  method AnswerRequest(cfg: Config, c: Cn.Connection, req: Request, date: string)
    requires ValidConfig(cfg) && c.Sound(0) && RequestInside(req, |c.raw|)
    modifies c, c.recvBuf, c.arena, c.arena.main
    ensures c.Sound(req.consumed) && c.SendAlive()
    ensures c.sendBuf == c.arena.main || fresh(c.sendBuf)
    ensures c.borrowed == Respond(cfg, ReadRequest(old(c.raw), req)).page.Raw?
    ensures c.View() == Answering(old(c.View()), Respond(cfg, ReadRequest(old(c.raw), req)), date).(consumed := req.consumed)
  {
    hide A.Arena.Valid, Render, R.ErrorPrint, Polite, Parseable, RespondAt, HeaderValue, ShouldClose, N.Normalized, MethodOf;
    ghost var rr := ReadRequest(c.raw, req);
    TextIntact(c.recvBuf, c.raw, Slice(0, 0), req.path);
    c.lastConsumed := req.consumed;
    var refusal, m, close := Admit(c.recvBuf, req, c.raw);
    c.closeAfterSend := close;
    if refusal.Some? {
      SendError(c, refusal.value.0, refusal.value.1, date, 0);
      RenderError(refusal.value.0, refusal.value.1, true, date);
      return;
    }
    AnswerAdmitted(cfg, c, req, m, date, rr);
  }

  /** The answer to a request whose host and method are fine. */
  function AdmittedVerdict(cfg: Config, rr: RawRequest, m: Method): Verdict {
    match N.Normalized(rr.path)
    case None => Failure(400, "Bad Request")
    case Some(path) => RespondAt(cfg, rr, m, path)
  }

  /** Host and method checks, and the close decision. */
  method Admit(buf: array<char>, req: Request, ghost raw: string) returns (refusal: Option<(int, string)>, m: Method, close: bool)
    requires RequestInside(req, |raw|) && |raw| <= buf.Length && forall k :: 0 <= k < |raw| ==> buf[k] == raw[k]
    ensures var rr := ReadRequest(raw, req);
      && close == ShouldClose(rr)
      && (refusal.Some? ==> Printable(ErrorPage(refusal.value.0, refusal.value.1)))
      && (refusal.Some? ==> forall cfg: Config :: Respond(cfg, rr) == Failure(refusal.value.0, refusal.value.1))
      && (refusal.None? ==> forall cfg: Config :: Respond(cfg, rr) == AdmittedVerdict(cfg, rr, m))
  {
    hide RespondAt, HeaderValue, ShouldClose, N.Normalized, MethodOf;
    ghost var rr := ReadRequest(raw, req);
    HeadersIntact(buf, raw, req.path, req.headers);
    TextIntact(buf, raw, Slice(0, 0), req.verb);
    m := GET;
    close := CloseWanted(buf, req.minor, req.headers, rr);
    if req.minor >= 1 {
      var host := FindHeader(buf, req.headers, "host");
      if host.None? { return Some((400, "Bad Request")), m, close; }
    }
    var found := MethodOf(buf[req.verb.start..req.verb.End()]);
    if found.None? { return Some((501, "Not Implemented")), m, close; }
    return None, found.value, close;
  }

  /** From normalisation on. */
  method AnswerAdmitted(cfg: Config, c: Cn.Connection, req: Request, m: Method, date: string, ghost rr: RawRequest)
    requires ValidConfig(cfg) && c.Sound(0) && RequestInside(req, |c.raw|) && rr == ReadRequest(c.raw, req)
    requires c.closeAfterSend == ShouldClose(rr) && c.lastConsumed == req.consumed
    modifies c, c.recvBuf, c.arena, c.arena.main
    ensures c.Sound(req.consumed) && c.SendAlive()
    ensures c.sendBuf == c.arena.main || fresh(c.sendBuf)
    ensures c.borrowed == AdmittedVerdict(cfg, rr, m).page.Raw?
    ensures c.View() == Answering(old(c.View()), AdmittedVerdict(cfg, rr, m), date)
  {
    hide *;
    c.Separate(0);
    PathPlace(c.raw, req);
    PathText(c.recvBuf, c.raw, req);
    c.SoundLater(0, req.path.End());
    ghost var before := c.recvBuf[..];
    var ok, n := N.NormalizeInPlace(c.recvBuf, req.path.start, req.path.len);
    IntactFrom(c.recvBuf, c.raw, req.path, before);
    c.EditedBelow(req.path.End());
    AdmittedIs(cfg, rr, m);
    if ok {
      AnswerPath(cfg, c, req, m, n, date, rr, N.Normalized(rr.path).value);
    } else {
      RefusedPage();
      AnsweringError(c.View(), 400, "Bad Request", date);
      SendError(c, 400, "Bad Request", date, req.path.End());
    }
    c.SoundLater(req.path.End(), req.consumed);
  }

  /** Where an accepted request has its path. */
  lemma PathPlace(raw: string, req: Request)
    requires RequestInside(req, |raw|)
    ensures req.path.End() <= req.consumed <= |raw| && req.path.End() == req.path.start + req.path.len
    ensures ReadRequest(raw, req).path == raw[req.path.start..req.path.End()]
  {
  }

  lemma PathText(buf: array<char>, raw: string, req: Request)
    requires req.path.End() <= |raw| <= buf.Length && req.path.End() == req.path.start + req.path.len
    requires forall k :: 0 <= k < |raw| ==> buf[k] == raw[k]
    ensures buf[req.path.start..req.path.start + req.path.len] == raw[req.path.start..req.path.End()]
  {
  }

  lemma IntactFrom(buf: array<char>, raw: string, path: Slice, before: string)
    requires |raw| <= |before| == buf.Length && path.End() == path.start + path.len
    requires forall k :: 0 <= k < |raw| && !(path.start <= k < path.start + path.len) ==> before[k] == raw[k]
    requires forall k :: 0 <= k < |before| && !(path.start <= k < path.start + path.len) ==> buf[k] == before[k]
    ensures Intact(buf, raw, path)
  {
  }

  lemma AdmittedIs(cfg: Config, rr: RawRequest, m: Method)
    ensures N.Normalized(rr.path).None? ==> AdmittedVerdict(cfg, rr, m) == Failure(400, "Bad Request")
    ensures N.Normalized(rr.path).Some? ==> AdmittedVerdict(cfg, rr, m) == RespondAt(cfg, rr, m, N.Normalized(rr.path).value)
  {
    hide RespondAt, N.Normalized;
  }

  lemma RefusedPage()
    ensures Printable(ErrorPage(400, "Bad Request"))
  {
  }

  /** The answer with an error page of the server's own. */
  lemma AnsweringError(before: Conn, status: int, body: string, date: string)
    ensures !Failure(status, body).page.Raw?
    ensures Answering(before, Failure(status, body), date)
         == before.(phase := Writing, out := R.ErrorPrint(status, body, date), off := 0, close := true)
  {
    hide R.ErrorPrint;
  }

  /** process_request: answers, or asks for more input. The caller registers the interest it returns. */
  method ProcessRequest(cfg: Config, c: Cn.Connection, date: string) returns (want: Interest)
    requires ValidConfig(cfg) && c.Sound(0) && c.state == Processing && c.lastConsumed == 0
    modifies c, c.recvBuf, c.arena, c.arena.main
    ensures c.Valid()
    ensures c.sendBuf == old(c.sendBuf) || c.sendBuf == c.arena.main || fresh(c.sendBuf)
    ensures want == if c.state == Writing then Out else In
    ensures Process(cfg, old(c.View()), date) == c.View().(interest := want)
  {
    hide A.Arena.Valid, Answered, Polite, Respond, ReadRequest, Parse, RequestInside, ValidHeadParser, RefusalVerdict, Printable;
    hide Cn.Connection.SendAlive;
    var parsed := ParseRequest(cfg.phr, c.recvBuf, c.recvLen, cfg.maxBody);
    assert c.recvBuf[..c.recvLen] == c.raw;
    if parsed.Parsed? {
      ParsedInside(cfg.phr, c.raw, cfg.maxBody);
      AnswerParsed(cfg, c, parsed.req, date);
      return Out;
    }
    ProcessFailed(cfg, c.View(), date, parsed.error);
    if parsed.error.Incomplete? && c.recvLen < WINDOW {
      c.state := Reading;
      return In;
    }
    var status, text := Refusal(parsed.error);
    FailRequest(c, status, text, date);
    return Out;
  }

  /** The answer to input that is no request, or too long to become one. */
  function RefusalVerdict(e: ParseError): Verdict {
    match e
    case Incomplete => Failure(431, "Request Header Fields Too Large")
    case TooLarge => Failure(413, "Payload Too Large")
    case BadRequest => Failure(400, "Bad Request")
  }

  /** process_request, when the parser accepts no request. */
  lemma ProcessFailed(cfg: Config, c: Conn, date: string, e: ParseError)
    requires Parseable(cfg) && Parse(cfg.phr, c.buf, cfg.maxBody) == Failed(e)
    ensures Process(cfg, c, date) == if e.Incomplete? && |c.buf| < WINDOW then c.(phase := Reading, interest := In)
                                     else Answered(c, Answer(0, "", RefusalVerdict(e)), date)
  {
    hide Parse, Respond, ReadRequest, Answered, ValidHeadParser;
  }

  /** The status and text for input that is no request. */
  method Refusal(e: ParseError) returns (status: int, text: string)
    ensures Printable(ErrorPage(status, text))
    ensures Failure(status, text) == RefusalVerdict(e)
  {
    if e.Incomplete? { return 431, "Request Header Fields Too Large"; }
    if e.TooLarge? { return 413, "Payload Too Large"; }
    return 400, "Bad Request";
  }

  /** An answer to an accepted request, entered into the record. */
  method AnswerParsed(cfg: Config, c: Cn.Connection, req: Request, date: string)
    requires ValidConfig(cfg) && c.Sound(0) && RequestInside(req, |c.raw|)
    modifies c, c.recvBuf, c.arena, c.arena.main
    ensures c.Valid() && c.state == Writing
    ensures c.sendBuf == c.arena.main || fresh(c.sendBuf)
    ensures c.View().(interest := Out) == Answered(old(c.View()), AnswerFor(cfg, old(c.raw), req), date)
  {
    hide *;
    AnswerForIs(cfg, c.raw, req);
    AnsweredIs(c.View(), AnswerFor(cfg, c.raw, req), date);
    c.Separate(0);
    ghost var raw := c.raw;
    AnswerRequest(cfg, c, req, date);
    c.Fields(req.consumed);
    c.Note(AnswerFor(cfg, raw, req));
  }

  /** An answer entered into the record, by the response it prepares. */
  lemma AnsweredIs(before: Conn, d: Decision, date: string)
    requires d.Answer?
    ensures var after := Answering(before, d.verdict, date).(consumed := d.consumed);
      && after.phase == Writing && after.served == before.served
      && Answered(before, d, date) == after.(interest := Out, served := before.served + [Served(d, after.out)])
  {
    hide Render;
  }

  /** An answer to input that is no request. */
  method FailRequest(c: Cn.Connection, status: int, body: string, date: string)
    requires c.Sound(0) && c.lastConsumed == 0 && Printable(ErrorPage(status, body))
    modifies c, c.arena, c.arena.main
    ensures c.Valid() && c.state == Writing
    ensures c.sendBuf == c.arena.main || fresh(c.sendBuf)
    ensures c.View().(interest := Out) == Answered(old(c.View()), Answer(0, "", Failure(status, body)), date)
  {
    hide *;
    ghost var d := Answer(0, "", Failure(status, body));
    c.Fields(0);
    AnsweredIs(c.View(), d, date);
    AnsweringError(c.View(), status, body, date);
    SendError(c, status, body, date, 0);
    c.Fields(0);
    c.Note(d);
  }
}
