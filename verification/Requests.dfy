/** From the bytes of a request to the page: what the handlers see, in which order they run, and what they leave
    (process_request in src/event_loop.cpp). */
module Requests {
  import opened Text
  import opened Trie
  import opened TrieSearch
  import opened Routing
  import opened HttpParser
  import opened Serve
  import opened Patching
  import opened Terminal
  import opened Chains
  import TR = TrieRoutes
  import A = Answers
  import C = Ctx
  import N = Normalize
  import U = UrlDecode

  // ---- What a handler sees ------------------------------------------------

  /** One parameter: the key of its capture with the decoded slice, which also stands in the path, its own bytes
      behind it where decoding made it shorter. */
  predicate ParamSeen(seen: string, path: string, c: Capture, param: (string, string)) {
    var n := |param.1|;
    && param.0 == c.key && U.Decoded(TR.Slice(path, c)) == Some(param.1)
    && n <= c.len && c.start + c.len <= |path| == |seen| && seen[c.start..c.start + n] == param.1
    && forall i :: c.start + n <= i < c.start + c.len ==> seen[i] == path[i]
  }

  /** The view of a request on the normalized path: its own method, version, query, headers and body, the parameters, and
      the path, which only differs where a parameter was decoded. */
  ghost predicate Sees(v: View, r: RawRequest, path: string, caps: seq<Capture>) {
    && v.verb == r.verb && v.minor == r.minor && v.query == r.query && v.headers == r.headers && v.body == r.body
    && |v.params| == |caps| && (forall k :: 0 <= k < |caps| ==> ParamSeen(v.path, path, caps[k], v.params[k]))
    && |v.path| == |path| && forall i :: 0 <= i < |path| && !Inside(caps, i) ==> v.path[i] == path[i]
  }

  /** The request reaches a route, and its parameters can be decoded. */
  ghost predicate Arrives(cfg: Config, r: RawRequest, path: string, found: Match, head: bool) {
    && MethodOf(r.verb).Some? && A.Routable(r, MethodOf(r.verb).value, path)
    && RouteOf(cfg.table, MethodOf(r.verb).value, path) == Matched(found, head) && !A.HoldsNul(path, found.captures)
  }

  lemma MatchApart(tab: Table, m: Method, path: string, found: Match, head: bool)
    requires RouteOf(tab, m, path) == Matched(found, head)
    ensures Apart(path, found.captures)
  {
    MatchFound(tab, m, path, found, head);
    var o := if head then GET else m;
    LookupOrdered(tab, o, path);
    hide Lookup;
    TR.InOrderDisjoint(found.captures, 1, |path|);
  }

  lemma MatchFound(tab: Table, m: Method, path: string, found: Match, head: bool)
    requires RouteOf(tab, m, path) == Matched(found, head)
    ensures Lookup(tab, if head then GET else m, path) == Some(found)
  {
    hide Lookup;
  }

  lemma ParamSeenOne(path: string, now: string, c: Capture, v: string)
    requires U.Decoded(TR.Slice(path, c)) == Some(v) && |now| == |path| && c.start + c.len <= |path|
    requires TR.Slice(now, c) == U.Overwritten(TR.Slice(path, c))
    ensures ParamSeen(now, path, c, (c.key, v))
  {
    var s, t := TR.Slice(path, c), TR.Slice(now, c);
    U.DecodedShorter(s);
    hide U.Decoded;
    assert t == v + s[|v|..] && |t| == |s| == c.len;
    assert now[c.start..c.start + |v|] == t[..|v|];
    forall i | c.start + |v| <= i < c.start + c.len ensures now[i] == path[i] {
      assert now[i] == t[i - c.start] == s[i - c.start] == path[i];
    }
  }

  /** What the handlers of the match are given. */
  lemma SeenAt(r: RawRequest, path: string, found: Match) returns (v: View)
    requires Apart(path, found.captures) && !A.HoldsNul(path, found.captures)
    ensures DecodedParams(path, found.captures).Some?
    ensures v == A.ViewAt(r, path, found, DecodedParams(path, found.captures).value) && Sees(v, r, path, found.captures)
  {
    var caps := found.captures;
    A.ParamsRefused(path, caps);
    ParamsAre(path, caps);
    PatchedAll(path, caps);
    hide PatchAll, DecodedParams, U.Decoded, U.Overwritten, TR.Slice, ParamSeen, Inside, A.HoldsNul;
    v := A.ViewAt(r, path, found, DecodedParams(path, caps).value);
    forall k | 0 <= k < |caps| ensures ParamSeen(v.path, path, caps[k], v.params[k]) {
      ParamSeenOne(path, v.path, caps[k], U.Decoded(TR.Slice(path, caps[k])).value);
    }
  }

  /** A request that arrives is answered with what its handlers leave on the view of the request, which depends on the
      request and the match alone. */
  lemma Answered(cfg: Config, r: RawRequest, path: string, found: Match, head: bool) returns (v: View)
    requires Arrives(cfg, r, path, found, head)
    ensures DecodedParams(path, found.captures).Some? && v == A.ViewAt(r, path, found, DecodedParams(path, found.captures).value)
    ensures Sees(v, r, path, found.captures) && Respond(cfg, r).page == Handled(cfg, found.chain, v, head)
  {
    MatchApart(cfg.table, MethodOf(r.verb).value, path, found, head);
    A.NoHostIs(r);
    hide RouteOf, DecodedParams, Handled, ThrewUnhandled, PatchAll, Sees, A.HoldsNul;
    hide N.Normalized, MethodOf, HeaderValue, ShouldClose, A.NoHost;
    v := SeenAt(r, path, found);
  }

  // ---- In which order the handlers run ------------------------------------

  /** On this view the handlers of the chain are `ss`, outermost first, then `end`, then anything. */
  ghost predicate Follows(cfg: Config, chain: Chain, v: View, ss: seq<Shell>, end: End) {
    && |ss| <= |chain| && (forall j :: 0 <= j < |ss| ==> cfg.handler(chain[j], v) == Wrap(ss[j]))
    && match end
       case Over => |ss| == |chain|
       case Stops(acts) => |ss| < |chain| && cfg.handler(chain[|ss|], v) == Calls(acts, C.Done)
       case Throws(acts) => |ss| < |chain| && cfg.handler(chain[|ss|], v) == Calls(acts, C.Throw)
  }

  /** The handlers that run: the code keeps their number in eight bits. */
  function Kept(chain: Chain): Chain { chain[..|chain| % 256] }

  lemma HandledKept(cfg: Config, chain: Chain, v: View, head: bool)
    ensures |Kept(chain)| <= 255 && Handled(cfg, chain, v, head) == Handled(cfg, Kept(chain), v, head)
  {
    assert Programs(cfg, chain, v) == Programs(cfg, Kept(chain), v);
    hide C.Exec, Programs, RunAlone;
  }

  lemma FollowsShaped(cfg: Config, chain: Chain, v: View, ss: seq<Shell>, end: End)
    requires |chain| <= 255 && Follows(cfg, chain, v, ss, end)
    ensures Shaped(Programs(cfg, chain, v), 0, ss, end)
  {
    hide Wrap, Calls;
  }

  /** The page of a fresh response after these calls. */
  function PageAfter(acts: seq<C.Action>, head: bool): Page { PageOf(ApplyAll(C.FRESH, acts), head) }

  lemma HandledIs(cfg: Config, chain: Chain, v: View, head: bool)
    ensures var r := C.Exec(Programs(cfg, chain, v), C.Next(C.Done), C.FRESH);
      && (r.Finished? ==> Handled(cfg, chain, v, head) == PageOf(r.st, head))
      && (r.Threw? && cfg.onError.None? ==> Handled(cfg, chain, v, head) == ErrorPage(500, "Internal Server Error"))
      && (r.Threw? && cfg.onError.Some? ==>
            var e := RunAlone(cfg.onError.value(v.(params := [])));
            e.Finished? ==> Handled(cfg, chain, v, head) == PageOf(e.st, false))
  {
    hide C.Exec, Programs, RunAlone;
  }

  lemma AloneRuns(acts: seq<C.Action>, head: bool)
    ensures var r := RunAlone(Calls(acts, C.Done)); r.Finished? && PageOf(r.st, head) == PageAfter(acts, head)
  {
    hide C.Exec, Calls, ApplyAll;
    CallsRun([], acts, C.Done, C.FRESH);
    EndsRun([], ApplyAll(C.FRESH, acts));
  }

  lemma IndexNotShown(st: C.State, i: nat, head: bool)
    ensures PageOf(st.(index := i), head) == PageOf(st, head)
  {
  }

  /** The handlers of a route run in the order of the chain: the parts before next() inward, the parts behind it outward,
      and nothing beyond the first handler that does not call it; the page is what these calls leave on a fresh
      response. When a handler throws, what was done so far is dropped: the application's error handler answers, on a
      view without parameters, or the 500 page does. */
  lemma ChainRuns(cfg: Config, r: RawRequest, path: string, found: Match, head: bool,
      shells: View -> seq<Shell>, end: View -> End, rescue: View -> seq<C.Action>) returns (v: View)
    requires Arrives(cfg, r, path, found, head)
    requires forall v :: Sees(v, r, path, found.captures) ==> Follows(cfg, Kept(found.chain), v, shells(v), end(v))
    requires cfg.onError.Some? ==> forall v :: cfg.onError.value(v) == Calls(rescue(v), C.Done)
    ensures Sees(v, r, path, found.captures)
    ensures Respond(cfg, r).page ==
      match end(v)
      case Over => PageAfter(Inward(shells(v)) + Outward(shells(v)), head)
      case Stops(acts) => PageAfter(Inward(shells(v)) + acts + Outward(shells(v)), head)
      case Throws(_) =>
        if cfg.onError.None? then ErrorPage(500, "Internal Server Error") else PageAfter(rescue(v.(params := [])), false)
  {
    hide *;
    v := Answered(cfg, r, path, found, head);
    var ss, e, ps := shells(v), end(v), Programs(cfg, Kept(found.chain), v);
    HandledKept(cfg, found.chain, v, head);
    FollowsShaped(cfg, Kept(found.chain), v, ss, e);
    HandledIs(cfg, Kept(found.chain), v, head);
    FreshIndex();
    ShellsRun(ps, ss, e, C.FRESH);
    AroundIs(C.FRESH, ss, e);
    EndCallsAre(ss, e);
    IndexNotShown(Around(C.FRESH, ss, e), Stand(0, ss, e), head);
    PageAfterIs(Inward(ss) + EndCalls(e) + Outward(ss), head);
    if e.Throws? && cfg.onError.Some? { AloneRuns(rescue(v.(params := [])), false); }
  }

  lemma FreshIndex()
    ensures C.FRESH.index == 0
  {
  }

  lemma EndCallsAre(ss: seq<Shell>, e: End)
    ensures Inward(ss) + EndCalls(e) + Outward(ss) == if e.Over? then Inward(ss) + Outward(ss) else Inward(ss) + e.acts + Outward(ss)
  {
    hide Inward, Outward;
    assert e.Over? ==> Inward(ss) + [] == Inward(ss);
  }

  lemma PageAfterIs(acts: seq<C.Action>, head: bool)
    ensures PageAfter(acts, head) == PageOf(ApplyAll(C.FRESH, acts), head)
  {
    hide PageOf, ApplyAll;
  }

  /** On this view the handlers before number `k` call next() at most once, and number `k` never does. */
  ghost predicate StopsChain(cfg: Config, chain: Chain, v: View, k: nat) {
    && k < |chain| && Nexts(cfg.handler(chain[k], v)) == 0
    && forall j :: 0 <= j < k ==> Nexts(cfg.handler(chain[j], v)) <= 1
  }

  /** Whatever else they do, then: handlers behind the one that does not call next() have no effect on the page. */
  lemma NoFurther(cfg: Config, other: (nat, View) -> C.Program, r: RawRequest, path: string, found: Match, head: bool, k: nat)
    requires Arrives(cfg, r, path, found, head) && k < |Kept(found.chain)|
    requires forall v :: StopsChain(cfg, Kept(found.chain), v, k)
    requires forall v, j :: 0 <= j <= k ==> cfg.handler(Kept(found.chain)[j], v) == other(Kept(found.chain)[j], v)
    ensures Respond(cfg, r).page == Respond(cfg.(handler := other), r).page
  {
    hide *;
    var cfg' := cfg.(handler := other);
    var v := Answered(cfg, r, path, found, head);
    ArrivesToo(cfg, cfg', r, path, found, head);
    var v' := Answered(cfg', r, path, found, head);
    var chain := Kept(found.chain);
    HandledKept(cfg, found.chain, v, head);
    HandledKept(cfg', found.chain, v, head);
    HandlersAgree(cfg, cfg', chain, v, k);
    FreshIndex();
    NextsOne();
    SameUpTo(Programs(cfg, chain, v), Programs(cfg', chain, v), k, C.Next(C.Done), C.FRESH);
    HandledBoth(cfg, cfg', chain, v, head);
  }

  lemma NextsOne()
    ensures Nexts(C.Next(C.Done)) == 1
  {
  }

  lemma ArrivesToo(cfg: Config, cfg': Config, r: RawRequest, path: string, found: Match, head: bool)
    requires Arrives(cfg, r, path, found, head) && cfg'.table == cfg.table
    ensures Arrives(cfg', r, path, found, head)
  {
    hide A.Routable, RouteOf, A.HoldsNul;
  }

  lemma HandlersAgree(cfg: Config, cfg': Config, chain: Chain, v: View, k: nat)
    requires |chain| <= 255 && StopsChain(cfg, chain, v, k)
    requires forall j :: 0 <= j <= k ==> cfg.handler(chain[j], v) == cfg'.handler(chain[j], v)
    ensures var ps, qs := Programs(cfg, chain, v), Programs(cfg', chain, v);
      StopsAt(ps, k) && k < |qs| && forall j :: 0 <= j <= k ==> ps[j] == qs[j]
  {
    hide Nexts;
  }

  lemma HandledBoth(cfg: Config, cfg': Config, chain: Chain, v: View, head: bool)
    requires cfg'.onError == cfg.onError
    requires C.Exec(Programs(cfg, chain, v), C.Next(C.Done), C.FRESH) == C.Exec(Programs(cfg', chain, v), C.Next(C.Done), C.FRESH)
    ensures Handled(cfg, chain, v, head) == Handled(cfg', chain, v, head)
  {
    hide C.Exec, Programs, RunAlone;
  }

  /** A handler that looks at the response so far takes the branch its test says. */
  lemma TestDecides(cfg: Config, r: RawRequest, path: string, found: Match, head: bool,
      acts: seq<C.Action>, cond: C.State -> bool, yes: seq<C.Action>, no: seq<C.Action>)
    requires Arrives(cfg, r, path, found, head) && |Kept(found.chain)| == 1
    requires forall v :: cfg.handler(Kept(found.chain)[0], v) == Calls(acts, C.Test(cond, Calls(yes, C.Done), Calls(no, C.Done)))
    ensures Respond(cfg, r).page ==
      PageAfter(acts + (if cond(ApplyAll(C.FRESH, acts).(index := 1)) then yes else no), head)
  {
    hide *;
    var v := Answered(cfg, r, path, found, head);
    var chain := Kept(found.chain);
    HandledKept(cfg, found.chain, v, head);
    var ps := Programs(cfg, chain, v);
    var st := C.FRESH.(index := 1);
    var mid := ApplyAll(st, acts);
    var taken := if cond(mid) then yes else no;
    OneProgram(cfg, chain, v);
    FreshIndex();
    NextRuns(ps, C.Done, C.FRESH);
    CallsRun(ps, acts, C.Test(cond, Calls(yes, C.Done), Calls(no, C.Done)), st);
    TestRuns(ps, cond, Calls(yes, C.Done), Calls(no, C.Done), mid);
    CallsRun(ps, taken, C.Done, mid);
    EndsRun(ps, ApplyAll(mid, taken));
    IndexAside(C.FRESH, acts, 1);
    ApplyConcat(st, acts, taken);
    IndexAside(C.FRESH, acts + taken, 1);
    IndexNotShown(ApplyAll(C.FRESH, acts + taken), 1, head);
    HandledIs(cfg, chain, v, head);
    PageAfterIs(acts + taken, head);
  }

  lemma TestRuns(ps: seq<C.Program>, cond: C.State -> bool, yes: C.Program, no: C.Program, st: C.State)
    ensures C.Exec(ps, C.Test(cond, yes, no), st) == C.Exec(ps, if cond(st) then yes else no, st)
  {
  }

  lemma OneProgram(cfg: Config, chain: Chain, v: View)
    requires |chain| == 1
    ensures Programs(cfg, chain, v) == [cfg.handler(chain[0], v)]
  {
  }

  /** Without a route the application's handler answers, on a view without parameters. */
  lemma NotFoundRuns(cfg: Config, r: RawRequest, path: string, acts: View -> seq<C.Action>) returns (v: View)
    requires MethodOf(r.verb).Some? && A.Routable(r, MethodOf(r.verb).value, path)
    requires RouteOf(cfg.table, MethodOf(r.verb).value, path) == NoRoute && cfg.notFound.Some?
    requires forall v :: Sees(v, r, path, []) ==> cfg.notFound.value(v) == Calls(acts(v), C.Done)
    ensures Sees(v, r, path, []) && v.path == path && Respond(cfg, r).page == PageAfter(acts(v), false)
  {
    A.NoHostIs(r);
    v := ViewOf(r, path, []);
    assert Sees(v, r, path, []);
    AloneRuns(acts(v), false);
    hide RouteOf, Sees, N.Normalized, MethodOf, HeaderValue, ShouldClose, A.NoHost, RunAlone, Calls, PageAfter, PageOf;
  }

  // ---- From the bytes of the window ---------------------------------------

  /** A target is its path, and behind its first '?' its query. */
  predicate Parted(target: string, path: string, query: string) {
    '?' !in path && if '?' in target then target == path + "?" + query else target == path && query == ""
  }

  /** The request that a window holds behind a head parsed to `h`: everything but the path and the query are slices
      the head names, and these two are the target, parted at its first '?'. */
  ghost predicate IsRead(w: string, h: Head, r: RawRequest) {
    && h.size + |r.body| <= |w| && HeadInside(h) && InText(w, h.headers)
    && r.verb == w[h.verb.start..h.verb.End()] && r.minor == h.minor && r.body == w[h.size..h.size + |r.body|]
    && BodyLength(w, h.headers, |r.body|) && Parted(w[h.target.start..h.target.End()], r.path, r.query)
    && |r.headers| == |h.headers| && forall k :: 0 <= k < |r.headers| ==>
         && r.headers[k].0 == w[h.headers[k].name.start..h.headers[k].name.End()]
         && r.headers[k].1 == w[h.headers[k].value.start..h.headers[k].value.End()]
  }

  /** The head cannot be trusted, or announces more than the limit allows, or than has arrived. */
  ghost predicate Malformed(cfg: Config, w: string)
    requires Parseable(cfg)
  {
    cfg.phr(w).HeadBad? || (cfg.phr(w).HeadComplete? && Untrusted(w, cfg.phr(w).head.headers))
  }

  ghost predicate Oversized(cfg: Config, w: string)
    requires Parseable(cfg)
  {
    !Malformed(cfg, w) && cfg.phr(w).HeadComplete? && cfg.maxBody > 0 && AnnouncesMore(w, cfg.phr(w).head.headers, cfg.maxBody)
  }

  ghost predicate Unfinished(cfg: Config, w: string)
    requires Parseable(cfg)
  {
    !Malformed(cfg, w) && !Oversized(cfg, w) &&
    (cfg.phr(w).HeadComplete? ==> AnnouncesMore(w, cfg.phr(w).head.headers, |w| - cfg.phr(w).head.size))
  }

  /** The window holds a whole request that can be trusted and is not too large. */
  ghost predicate Whole(cfg: Config, w: string)
    requires Parseable(cfg)
  {
    !Malformed(cfg, w) && !Oversized(cfg, w) && !Unfinished(cfg, w)
  }

  lemma WindowParsed(cfg: Config, w: string)
    requires Parseable(cfg)
    ensures var p := Parse(cfg.phr, w, cfg.maxBody);
      && (p == Failed(BadRequest) <==> Malformed(cfg, w)) && (p == Failed(TooLarge) <==> Oversized(cfg, w))
      && (p == Failed(Incomplete) <==> Unfinished(cfg, w)) && (p.Parsed? <==> Whole(cfg, w))
  {
    ParseExactly(cfg.phr, w, cfg.maxBody);
    hide Parse, Untrusted, AnnouncesMore;
  }

  /** The answer, or none, to any window: 400 exactly for what is malformed, 413 for what is oversized, 431 for what is
      unfinished in a full window, and only a whole request is taken in. */
  lemma DecideExactly(cfg: Config, w: string)
    requires Parseable(cfg)
    ensures var d := Decide(cfg, w);
      && (d == Answer(0, "", Verdict(true, ErrorPage(400, "Bad Request"))) <==> Malformed(cfg, w))
      && (d == Answer(0, "", Verdict(true, ErrorPage(413, "Payload Too Large"))) <==> Oversized(cfg, w))
      && (d == Answer(0, "", Verdict(true, ErrorPage(431, "Request Header Fields Too Large"))) <==> Unfinished(cfg, w) && |w| >= 4096)
      && (d == NeedMore <==> Unfinished(cfg, w) && |w| < 4096)
      && (d.Answer? && d.consumed > 0 <==> Whole(cfg, w))
  {
    WindowParsed(cfg, w);
    hide Malformed, Oversized, Unfinished, Parse, ReadRequest, Respond, Whole;
    if Parse(cfg.phr, w, cfg.maxBody).Parsed? { DecideAccepted(cfg, w); } else { DecideFailed(cfg, w); }
  }

  /** What a whole request is answered with, and what is taken off the window: the head and the announced body. */
  lemma DecideReads(cfg: Config, w: string) returns (r: RawRequest)
    requires Parseable(cfg) && Whole(cfg, w)
    ensures cfg.phr(w).HeadComplete? && IsRead(w, cfg.phr(w).head, r)
    ensures Decide(cfg, w) == Answer(cfg.phr(w).head.size + |r.body|, r.verb, Respond(cfg, r))
  {
    hide *;
    WindowParsed(cfg, w);
    ParseableMeans(cfg);
    DecideAccepted(cfg, w);
    var req := ParsedRequest(cfg, w);
    r := ReadRequest(w, req);
    ReadIs(w, cfg.phr(w).head, req);
    AnswerForIs(cfg, w, req);
  }

  /** The request is made of what ParsedReads says of it. */
  ghost predicate MadeOf(w: string, h: Head, req: Request) {
    && h.size <= |w| && HeadInside(h) && InText(w, h.headers) && RequestInside(req, |w|)
    && Parted(TextOf(w, h.target), TextOf(w, req.path), TextOf(w, req.query))
    && req.verb == h.verb && req.minor == h.minor && req.headers == h.headers
    && req.body.start == h.size && req.consumed == h.size + req.body.len && BodyLength(w, h.headers, req.body.len)
  }

  lemma ParsedRequest(cfg: Config, w: string) returns (req: Request)
    requires Parseable(cfg) && Parse(cfg.phr, w, cfg.maxBody).Parsed?
    ensures cfg.phr(w).HeadComplete? && req == Parse(cfg.phr, w, cfg.maxBody).req && MadeOf(w, cfg.phr(w).head, req)
  {
    ParsedReads(cfg.phr, w, cfg.maxBody);
    hide Parse, TextOf, BodyLength;
    req := Parse(cfg.phr, w, cfg.maxBody).req;
    Unempty(TextOf(w, req.path), TextOf(w, req.query));
  }

  lemma Unempty(path: string, query: string)
    ensures path + "" == path && path + ("?" + query) == path + "?" + query
  {
  }

  lemma ReadIs(w: string, h: Head, req: Request)
    requires MadeOf(w, h, req)
    ensures IsRead(w, h, ReadRequest(w, req)) && |ReadRequest(w, req).body| == req.body.len && req.consumed == h.size + req.body.len
  {
    var r := ReadRequest(w, req);
    SliceText(w, h.verb);
    SliceText(w, h.target);
    SliceText(w, req.body);
    forall k | 0 <= k < |h.headers|
      ensures r.headers[k].0 == w[h.headers[k].name.start..h.headers[k].name.End()]
      ensures r.headers[k].1 == w[h.headers[k].value.start..h.headers[k].value.End()]
    {
      SliceText(w, h.headers[k].name);
      SliceText(w, h.headers[k].value);
    }
    hide BodyLength, Parted, TextOf;
  }

  lemma SliceText(w: string, s: Slice)
    requires s.End() <= |w|
    ensures TextOf(w, s) == w[s.start..s.End()] && |TextOf(w, s)| == s.len
  {
  }

  /** Seen from the wire: a route whose first handler sends a text that it computes from what it can read answers any
      window that holds its request with that text, computed from the request's own bytes. */
  lemma Echo(cfg: Config, w: string, path: string, found: Match, head: bool, f: View -> string, contentType: string)
      returns (r: RawRequest, v: View)
    requires Parseable(cfg) && Whole(cfg, w) && Kept(found.chain) != []
    requires forall r :: IsRead(w, cfg.phr(w).head, r) ==> Arrives(cfg, r, path, found, head)
    requires forall v :: cfg.handler(Kept(found.chain)[0], v) == C.Do(C.Send(f(v), contentType), C.Done)
    ensures cfg.phr(w).HeadComplete? && IsRead(w, cfg.phr(w).head, r) && Sees(v, r, path, found.captures)
    ensures var h, d := cfg.phr(w).head, Decide(cfg, w);
      && d.Answer? && d.consumed == h.size + |v.body| && d.verb == v.verb
      && v.verb == w[h.verb.start..h.verb.End()] && v.body == w[h.size..d.consumed]
      && d.verdict.page == Built(200, C.WithCharset(contentType), f(v), [], head)
  {
    hide *;
    r := DecideReads(cfg, w);
    v := EchoAnswered(cfg, r, path, found, head, f, contentType);
    ReadSlices(w, cfg.phr(w).head, r);
    SeesParts(v, r, path, found.captures);
  }

  lemma ReadSlices(w: string, h: Head, r: RawRequest)
    requires IsRead(w, h, r)
    ensures h.size + |r.body| <= |w| && r.body == w[h.size..h.size + |r.body|]
    ensures h.verb.End() <= |w| && r.verb == w[h.verb.start..h.verb.End()]
  {
    hide BodyLength, Parted;
  }

  lemma SeesParts(v: View, r: RawRequest, path: string, caps: seq<Capture>)
    requires Sees(v, r, path, caps)
    ensures v.verb == r.verb && v.body == r.body
  {
    hide ParamSeen, Inside;
  }

  lemma EchoAnswered(cfg: Config, r: RawRequest, path: string, found: Match, head: bool, f: View -> string, contentType: string)
      returns (v: View)
    requires Arrives(cfg, r, path, found, head) && Kept(found.chain) != []
    requires forall v :: cfg.handler(Kept(found.chain)[0], v) == C.Do(C.Send(f(v), contentType), C.Done)
    ensures Sees(v, r, path, found.captures)
    ensures Respond(cfg, r).page == Built(200, C.WithCharset(contentType), f(v), [], head)
  {
    hide *;
    v := Answered(cfg, r, path, found, head);
    HandledKept(cfg, found.chain, v, head);
    FirstSends(cfg, Kept(found.chain), v, f(v), contentType, head);
  }

  lemma FirstSends(cfg: Config, chain: Chain, v: View, text: string, contentType: string, head: bool)
    requires 0 < |chain| <= 255 && cfg.handler(chain[0], v) == C.Do(C.Send(text, contentType), C.Done)
    ensures Handled(cfg, chain, v, head) == Built(200, C.WithCharset(contentType), text, [], head)
  {
    hide C.WithCharset;
    var ps := Programs(cfg, chain, v);
    var st := C.FRESH.(index := 1);
    NextRuns(ps, C.Done, C.FRESH);
    assert ps[0] == C.Do(C.Send(text, contentType), C.Done);
    hide Programs;
    EndsRun(ps, C.Apply(st, C.Send(text, contentType)));
    assert C.Exec(ps, ps[0], st) == C.Exec(ps, C.Done, C.Apply(st, C.Send(text, contentType)));
  }
}
