/** Which requests get which answer: the branches of process_request (src/event_loop.cpp), stated on the request. */
module Answers {
  import opened Text
  import opened Trie
  import opened TrieSearch
  import opened Routing
  import opened Serve
  import TR = TrieRoutes
  import H = HttpParser
  import C = Ctx
  import N = Normalize
  import U = UrlDecode
  import R = Response

  /** HTTP/1.1 without a Host header. */
  predicate NoHost(r: RawRequest) { r.minor >= 1 && Nameless(r.headers, "host") }

  lemma NoHostIs(r: RawRequest)
    ensures NoHost(r) <==> r.minor >= 1 && HeaderValue(r.headers, "host").None?
  {
    var k := HeaderFound(r.headers, "host");
    hide HeaderValue, SameUpToCase;
  }

  /** The path is absolute, NUL-free and never climbs above the root. */
  ghost predicate PathFine(path: string) {
    path != "" && path[0] == '/' && NUL !in path && N.StaysInside(0, N.Segments(path))
  }

  /** Some captured value has a "%00" at a decode position. */
  ghost predicate HoldsNul(path: string, caps: seq<Capture>) {
    exists k :: 0 <= k < |caps| && NulIn(TR.Slice(path, caps[k]))
  }

  ghost predicate NulIn(s: string) {
    exists k :: U.NulAt(s, k)
  }

  lemma {:induction false} ParamsRefused(path: string, caps: seq<Capture>)
    ensures DecodedParams(path, caps).None? <==> HoldsNul(path, caps)
  {
    if caps != [] {
      ParamsRefused(path, caps[1..]);
      U.NulExactly(TR.Slice(path, caps[0]));
      hide NulIn, U.Decoded, TR.Slice;
      if HoldsNul(path, caps[1..]) {
        var k :| 0 <= k < |caps[1..]| && NulIn(TR.Slice(path, caps[1..][k]));
        assert caps[1..][k] == caps[k + 1];
      }
      if HoldsNul(path, caps) {
        var k :| 0 <= k < |caps| && NulIn(TR.Slice(path, caps[k]));
        assert k > 0 ==> caps[1..][k - 1] == caps[k];
      }
      NulInIs(TR.Slice(path, caps[0]));
    }
  }

  lemma NulInIs(s: string)
    ensures NulIn(s) <==> U.Decoded(s).None?
  {
    U.NulExactly(s);
    hide U.Decoded, U.Reaches, U.Escape;
  }

  /** The request gets as far as routing, on this path and for this method. */
  ghost predicate Routable(r: RawRequest, m: Method, path: string) {
    !NoHost(r) && MethodOf(r.verb) == Some(m) && N.Normalized(r.path) == Some(path)
  }

  /** Where a routable request goes: no error page comes from anywhere but these cases. */
  lemma RoutedError(cfg: Config, r: RawRequest, m: Method, path: string)
    requires Polite(cfg) && Routable(r, m, path)
    ensures var page := Respond(cfg, r).page;
      match RouteOf(cfg.table, m, path)
      case AutoOptions(_) => !page.ErrorPage?
      case NoRoute => if cfg.notFound.None? then page == ErrorPage(404, "Not Found") else !page.ErrorPage?
      case Matched(found, _) =>
        if HoldsNul(path, found.captures) then page == ErrorPage(400, "Bad Request")
        else if Throws(cfg, r, path, found) then page == ErrorPage(500, "Internal Server Error")
        else !page.ErrorPage?
  {
    hide RouteOf, DecodedParams, PoliteProgram, C.Exec, N.Normalized, MethodOf, HeaderValue, ShouldClose, PatchAll, HoldsNul, Programs;
    NoHostIs(r);
    match RouteOf(cfg.table, m, path)
    case AutoOptions(_) =>
    case NoRoute =>
    case Matched(found, _) =>
      ParamsRefused(path, found.captures);
      if DecodedParams(path, found.captures).Some? {
        ThrowsIs(cfg, r, path, found);
        HandledKind(cfg, found.chain, ViewAt(r, path, found, DecodedParams(path, found.captures).value), RouteOf(cfg.table, m, path).head);
      }
  }

  /** A handler of the matched chain threw, and the application handles no errors. */
  ghost predicate Throws(cfg: Config, r: RawRequest, path: string, found: Match) {
    var params := DecodedParams(path, found.captures);
    params.Some? && ThrewUnhandled(cfg, found.chain, ViewAt(r, path, found, params.value))
  }

  lemma ThrowsIs(cfg: Config, r: RawRequest, path: string, found: Match)
    requires DecodedParams(path, found.captures).Some?
    ensures Throws(cfg, r, path, found) <==>
      ThrewUnhandled(cfg, found.chain, ViewAt(r, path, found, DecodedParams(path, found.captures).value))
  {
    hide DecodedParams, ThrewUnhandled, ViewAt;
  }

  /** Every error page behind an accepted request has a text, and a code that allows one. */
  lemma ErrorPages(cfg: Config, r: RawRequest)
    requires Respond(cfg, r).page.ErrorPage?
    ensures var p := Respond(cfg, r).page; !R.Bodiless(p.status, false) && p.body != ""
  {
    hide RouteOf, DecodedParams, C.Exec, N.Normalized, MethodOf, HeaderValue, ShouldClose, PatchAll, Programs;
  }

  /** Where the request is routed to, if it gets that far. */
  ghost function Target(cfg: Config, r: RawRequest): Option<Routed> {
    match MethodOf(r.verb)
    case None => None
    case Some(m) => (match N.Normalized(r.path) case None => None case Some(path) => Some(RouteOf(cfg.table, m, path)))
  }

  ghost predicate CapturesNul(cfg: Config, r: RawRequest) {
    && Target(cfg, r).Some? && Target(cfg, r).value.Matched?
    && N.Normalized(r.path).Some? && HoldsNul(N.Normalized(r.path).value, Target(cfg, r).value.found.captures)
  }

  /** 400 exactly for a missing Host, a path that is refused, or a captured "%00". */
  lemma BadRequestExactly(cfg: Config, r: RawRequest)
    requires Polite(cfg)
    ensures Respond(cfg, r).page == ErrorPage(400, "Bad Request") <==>
      NoHost(r) || (MethodOf(r.verb).Some? && (!PathFine(r.path) || CapturesNul(cfg, r)))
  {
    NoHostIs(r);
    N.NormalizedAccepts(r.path);
    hide RouteOf, DecodedParams, PoliteProgram, C.Exec, N.Normalized, MethodOf, HeaderValue, Nameless, RespondAt, HoldsNul;
    hide N.StaysInside, N.Segments;
    if !NoHost(r) && MethodOf(r.verb).Some? && N.Normalized(r.path).Some? {
      RoutedError(cfg, r, MethodOf(r.verb).value, N.Normalized(r.path).value);
    }
  }

  /** 501 exactly for a method the server does not know; the built-in 404 exactly when nothing is routed and
      the application has no handler for that. */
  lemma NotServedExactly(cfg: Config, r: RawRequest)
    requires Polite(cfg)
    ensures Respond(cfg, r).page == ErrorPage(501, "Not Implemented") <==> !NoHost(r) && MethodOf(r.verb).None?
    ensures Respond(cfg, r).page == ErrorPage(404, "Not Found") <==>
      !NoHost(r) && PathFine(r.path) && Target(cfg, r) == Some(NoRoute) && cfg.notFound.None?
  {
    NoHostIs(r);
    N.NormalizedAccepts(r.path);
    hide RouteOf, DecodedParams, PoliteProgram, C.Exec, N.Normalized, MethodOf, HeaderValue, Nameless, RespondAt, HoldsNul;
    hide N.StaysInside, N.Segments;
    if !NoHost(r) && MethodOf(r.verb).Some? && N.Normalized(r.path).Some? {
      RoutedError(cfg, r, MethodOf(r.verb).value, N.Normalized(r.path).value);
    }
  }

  ghost predicate HandlerThrows(cfg: Config, r: RawRequest) {
    && Target(cfg, r).Some? && Target(cfg, r).value.Matched?
    && N.Normalized(r.path).Some? && Throws(cfg, r, N.Normalized(r.path).value, Target(cfg, r).value.found)
  }

  /** 500 exactly when the request reaches a route and a handler of its chain throws unhandled. */
  lemma ServerErrorExactly(cfg: Config, r: RawRequest)
    requires Polite(cfg)
    ensures Respond(cfg, r).page == ErrorPage(500, "Internal Server Error") <==>
      !NoHost(r) && PathFine(r.path) && !CapturesNul(cfg, r) && HandlerThrows(cfg, r)
  {
    NoHostIs(r);
    N.NormalizedAccepts(r.path);
    hide RouteOf, DecodedParams, PoliteProgram, C.Exec, N.Normalized, MethodOf, HeaderValue, RespondAt, HoldsNul, Throws;
    hide N.StaysInside, N.Segments;
    if !NoHost(r) && MethodOf(r.verb).Some? && N.Normalized(r.path).Some? {
      RoutedError(cfg, r, MethodOf(r.verb).value, N.Normalized(r.path).value);
    }
  }

  /** The request asks for the connection to be closed: the first Connection header says close, or the version is 1.0
      and that header is missing or does not say keep-alive. */
  ghost predicate AsksToClose(r: RawRequest) {
    Says(r.headers, "connection", "close") || (r.minor == 0 && !Says(r.headers, "connection", "keep-alive"))
  }

  /** An error page always closes the connection; any other answer closes it exactly when the request asks. */
  lemma ErrorsClose(cfg: Config, r: RawRequest)
    requires Polite(cfg)
    ensures var v := Respond(cfg, r); v.close <==> v.page.ErrorPage? || AsksToClose(r)
  {
    hide *;
    CloseIs(cfg, r);
    CloseAsked(r);
  }

  lemma CloseAsked(r: RawRequest)
    ensures ShouldClose(r) <==> AsksToClose(r)
  {
    SaysIs(r.headers, "connection", "close");
    SaysIs(r.headers, "connection", "keep-alive");
    hide HeaderValue, H.CiEq, Says;
  }

  lemma CloseIs(cfg: Config, r: RawRequest)
    requires Polite(cfg)
    ensures var v := Respond(cfg, r); v.close <==> v.page.ErrorPage? || ShouldClose(r)
  {
    hide RouteOf, DecodedParams, PoliteProgram, C.Exec, N.Normalized, MethodOf, HeaderValue, ShouldClose, PatchAll, Programs;
  }

  // ---- OPTIONS ------------------------------------------------------------

  lemma {:induction false} MethodsAre(tab: Table, path: string, ms: seq<Method>, m: Method)
    ensures m in MethodsFor(tab, path, ms) <==> m in ms && Lookup(tab, m, path).Some?
  {
    hide Lookup;
    if ms != [] { MethodsAre(tab, path, ms[1..], m); }
  }

  /** The method names are told apart, and nothing else is a method. */
  lemma NamesAreDistinct(s: string, m: Method)
    ensures MethodOf(s) == Some(m) <==> s == MethodName(m)
  {
  }

  const NAMES: seq<string> := ["GET", "POST", "PUT", "DELETE", "PATCH", "HEAD", "OPTIONS"]

  /** The methods are spelled in the order of their enumeration. */
  lemma NamesInOrder(k: nat)
    requires k < 7
    ensures |ALL_METHODS| == |NAMES| == 7 && MethodOf(NAMES[k]) == Some(ALL_METHODS[k]) && MethodName(ALL_METHODS[k]) == NAMES[k]
  {
    NamesAreDistinct(NAMES[k], ALL_METHODS[k]);
  }

  /** A reader of comma-and-blank lists. */
  function ReadList(s: string): seq<string>
    decreases |s|
  {
    var k := IndexOf(s, ',', 0);
    if k + 2 <= |s| then [s[..k]] + ReadList(s[k + 2..]) else [s]
  }

  function Names(ms: seq<Method>): seq<string> { seq(|ms|, i requires 0 <= i < |ms| => MethodName(ms[i])) }

  lemma NameIsWord(m: Method)
    ensures ',' !in MethodName(m) && MethodName(m) != ""
  {
    match m case _ =>
  }

  lemma {:induction false} ReadOneMore(s: string, name: string)
    requires ',' !in name
    requires forall k :: 0 <= k < |s| && s[k] == ',' ==> k + 2 <= |s|
    ensures ReadList(s + ", " + name) == ReadList(s) + [name]
    decreases |s|
  {
    var t := s + ", " + name;
    var k := IndexOf(s, ',', 0);
    CommaAt(s, name);
    CommaAt(name, "");
    hide IndexOf;
    if k < |s| {
      var u := s[k + 2..];
      assert t[k + 2..] == u + ", " + name && t[..k] == s[..k];
      assert forall j {:trigger u[j]} :: 0 <= j < |u| ==> u[j] == s[k + 2 + j];
      ReadOneMore(u, name);
      Assoc([s[..k]], ReadList(u), [name]);
    } else {
      assert t[k + 2..] == name && t[..k] == s;
    }
  }

  /** The first comma of a text, with one more item behind it. */
  lemma CommaAt(s: string, name: string)
    ensures IndexOf(s + ", " + name, ',', 0) == IndexOf(s, ',', 0)
    ensures ',' !in s ==> IndexOf(s, ',', 0) == |s|
  {
    var t := s + ", " + name;
    var k := IndexOf(s, ',', 0);
    assert forall j :: 0 <= j < k ==> t[j] == s[j] && t[j] != ',';
    assert t[k] == ',';
  }

  /** An Allow list reads back as the names in it. */
  lemma {:induction false} ListReadBack(ms: seq<Method>)
    requires ms != []
    ensures ReadList(Listed(ms)) == Names(ms)
    ensures forall k :: 0 <= k < |Listed(ms)| && Listed(ms)[k] == ',' ==> k + 2 <= |Listed(ms)|
  {
    var n := |ms| - 1;
    var name := MethodName(ms[n]);
    NameIsWord(ms[n]);
    hide MethodName;
    assert Names(ms) == Names(ms[..n]) + [name];
    if n > 0 {
      ListReadBack(ms[..n]);
      ReadOneMore(Listed(ms[..n]), name);
      assert Listed(ms) == Listed(ms[..n]) + ", " + name;
    } else {
      assert Listed(ms) == name by { assert ms[..0] == []; assert "" + "" + name == name; }
      assert IndexOf(name, ',', 0) == |name|;
      assert Names(ms[..0]) == [];
    }
  }

  /** The automatic answer is given exactly to OPTIONS without a route of its own on a path that has other
      routes, and its Allow list names exactly the methods that have one. */
  lemma AutoOptionsExactly(tab: Table, m: Method, path: string)
    ensures RouteOf(tab, m, path).AutoOptions? <==>
      m == OPTIONS && Lookup(tab, OPTIONS, path).None? && exists o :: Lookup(tab, o, path).Some?
    ensures RouteOf(tab, m, path).AutoOptions? ==>
      forall o :: o in RouteOf(tab, m, path).ms <==> Lookup(tab, o, path).Some?
  {
    hide Lookup;
    var ms := MethodsFor(tab, path, ALL_METHODS);
    forall o ensures o in ms <==> Lookup(tab, o, path).Some? {
      MethodsAre(tab, path, ALL_METHODS, o);
      EveryMethod(o);
    }
    hide MethodsFor;
    if ms != [] { assert ms[0] in ms; }
  }

  /** The Allow header of the automatic answer reads back as exactly those names, OPTIONS added at the end. */
  lemma AllowReadBack(tab: Table, m: Method, path: string)
    requires RouteOf(tab, m, path).AutoOptions?
    ensures var ms := RouteOf(tab, m, path).ms; ReadList(AllowText(ms)) == Names(ms) + ["OPTIONS"]
  {
    AutoOptionsExactly(tab, m, path);
    var ms := RouteOf(tab, m, path).ms;
    hide RouteOf, Lookup, Listed, ReadList;
    ListReadBack(ms + [OPTIONS]);
    assert Names(ms + [OPTIONS]) == Names(ms) + ["OPTIONS"];
  }

  /** In the order of the enumeration, each at most once. */
  predicate Ascending(ms: seq<Method>) {
    forall i, j :: 0 <= i < j < |ms| ==> IndexOfMethod(ms[i]) < IndexOfMethod(ms[j])
  }

  /** The enumerators by number (include/voie/types.h). */
  function IndexOfMethod(m: Method): nat {
    match m case GET => 0 case POST => 1 case PUT => 2 case DELETE => 3 case PATCH => 4 case HEAD => 5 case OPTIONS => 6
  }

  lemma {:induction false} MethodsAscend(tab: Table, path: string, ms: seq<Method>)
    requires Ascending(ms)
    ensures Ascending(MethodsFor(tab, path, ms))
  {
    hide Lookup, IndexOfMethod;
    if ms != [] {
      MethodsAscend(tab, path, ms[1..]);
      var rest, all := MethodsFor(tab, path, ms[1..]), MethodsFor(tab, path, ms);
      forall o | o in rest ensures IndexOfMethod(ms[0]) < IndexOfMethod(o) {
        MethodsAre(tab, path, ms[1..], o);
        var k :| 0 <= k < |ms[1..]| && ms[1..][k] == o;
        assert ms[k + 1] == o;
      }
      assert all == [ms[0]] + rest || all == rest;
      forall i, j | 0 <= i < j < |all| ensures IndexOfMethod(all[i]) < IndexOfMethod(all[j]) {
        if all == [ms[0]] + rest { assert all[j] == rest[j - 1]; }
      }
    }
  }

  lemma AllAscend()
    ensures Ascending(ALL_METHODS)
  {
    assert forall k :: 0 <= k < 7 ==> IndexOfMethod(ALL_METHODS[k]) == k;
  }

  /** OPTIONS on a path with routes but none for it: 204 without a body, and an Allow header that reads back as the
      methods the path is found for, in the order of their enumeration, with OPTIONS added. */
  lemma OptionsAnswered(cfg: Config, r: RawRequest, path: string) returns (ms: seq<Method>, text: string)
    requires Routable(r, OPTIONS, path) && Lookup(cfg.table, OPTIONS, path).None? && exists o :: Lookup(cfg.table, o, path).Some?
    ensures Respond(cfg, r).page == Built(204, "", "", [C.Field("Allow", text)], false)
    ensures ReadList(text) == Names(ms) + ["OPTIONS"] && forall o :: o in ms <==> Lookup(cfg.table, o, path).Some?
    ensures Ascending(ms)
  {
    AllAscend();
    MethodsAscend(cfg.table, path, ALL_METHODS);
    AutoOptionsExactly(cfg.table, OPTIONS, path);
    AllowReadBack(cfg.table, OPTIONS, path);
    NoHostIs(r);
    AutoList(cfg.table, path);
    ms := RouteOf(cfg.table, OPTIONS, path).ms;
    text := AllowText(ms);
    AllowSet(ms);
    hide RouteOf, Listed, ReadList, N.Normalized, MethodOf, HeaderValue, ShouldClose, Nameless, C.SetIn, Lookup, Ascending;
  }

  lemma AutoList(tab: Table, path: string)
    ensures RouteOf(tab, OPTIONS, path).AutoOptions? ==> RouteOf(tab, OPTIONS, path).ms == MethodsFor(tab, path, ALL_METHODS)
  {
    hide Lookup, MethodsFor;
  }

  lemma AllowSet(ms: seq<Method>)
    ensures C.SetIn([], "Allow", AllowText(ms)) == [C.Field("Allow", AllowText(ms))]
  {
    ListedValid(if OPTIONS in ms then ms else ms + [OPTIONS]);
    hide Listed;
    assert C.ValidName("Allow");
  }

  lemma {:induction false} ListedValid(ms: seq<Method>)
    ensures C.ValidValue(Listed(ms))
  {
    if ms != [] {
      ListedValid(ms[..|ms| - 1]);
      NameValid(ms[|ms| - 1]);
      hide MethodName;
      assert C.ValidValue(", ");
    }
  }

  lemma NameValid(m: Method)
    ensures C.ValidValue(MethodName(m))
  {
  }

  // ---- HEAD ---------------------------------------------------------------

  /** A path is matched as a HEAD request on a GET route exactly when HEAD has no route there and GET has one. */
  lemma HeadFallsBack(tab: Table, m: Method, path: string)
    ensures (exists f :: RouteOf(tab, m, path) == Matched(f, true)) <==>
            m == HEAD && Lookup(tab, HEAD, path).None? && Lookup(tab, GET, path).Some?
    ensures m == HEAD && Lookup(tab, HEAD, path).None? && Lookup(tab, GET, path).Some? ==>
            RouteOf(tab, m, path) == Matched(Lookup(tab, GET, path).value, true)
  {
    hide Lookup;
  }

  /** What a handler of the match sees, once the parameters are decoded. */
  function ViewAt(r: RawRequest, path: string, found: Match, params: seq<(string, string)>): View {
    ViewOf(r, if InBounds(path, found.captures) then PatchAll(path, found.captures) else path, params)
  }

  /** What the handlers of the match leave; without parameters they are not run. */
  function StateAt(cfg: Config, r: RawRequest, path: string, found: Match): C.Outcome {
    match DecodedParams(path, found.captures)
    case None => C.Threw
    case Some(params) => C.Exec(Programs(cfg, found.chain, ViewAt(r, path, found, params)), C.Next(C.Done), C.FRESH)
  }

  /** The handlers of the match run to the end on this request. */
  predicate Runs(cfg: Config, r: RawRequest, path: string, found: Match) { StateAt(cfg, r, path, found).Finished? }

  /** A HEAD request served by the handlers of a GET route, which all run to the end. */
  ghost predicate FellBack(cfg: Config, r: RawRequest) {
    && r.verb == "HEAD" && N.Normalized(r.path).Some?
    && var path := N.Normalized(r.path).value;
       Lookup(cfg.table, HEAD, path).None? && Lookup(cfg.table, GET, path).Some? && Runs(cfg, r, path, Lookup(cfg.table, GET, path).value)
  }

  /** A response is sent without its body for that reason and no other: not for a HEAD route of its own, not by
      the not-found handler, not by the error handler. */
  lemma HeadFlagExactly(cfg: Config, r: RawRequest)
    requires Polite(cfg) && Respond(cfg, r).page.Built?
    ensures Respond(cfg, r).page.head <==> FellBack(cfg, r)
  {
    hide RouteOf, DecodedParams, PoliteProgram, C.Exec, N.Normalized, MethodOf, HeaderValue, ShouldClose, PatchAll, Programs, Lookup;
    NamesAreDistinct(r.verb, HEAD);
    if MethodOf(r.verb).Some? && N.Normalized(r.path).Some? {
      HeadFallsBack(cfg.table, MethodOf(r.verb).value, N.Normalized(r.path).value);
    }
  }

  /** When a response that leaves the connection open also leaves the peer at the next response: for HEAD, when
      the GET handlers answered or the body is empty; for 1xx, 204 and 304, when the body is empty; otherwise when
      no custom header names a coding or another length. */
  ghost predicate KeepsStep(cfg: Config, r: RawRequest, p: Page)
    requires p.Built?
  {
    if r.verb == "HEAD" then FellBack(cfg, r) || p.body == ""
    else if R.Bodiless(p.code, false) then p.body == ""
    else R.AllHarmless(p.headers, |p.body|)
  }

  lemma KeepsStepExactly(cfg: Config, r: RawRequest, close: bool)
    requires Polite(cfg) && Respond(cfg, r).page.Built?
    ensures var p := Respond(cfg, r).page;
      R.Framed(R.Reply(p.code, p.contentType, p.body, p.headers, p.head, close), r.verb == "HEAD") <==> KeepsStep(cfg, r, p)
  {
    HeadFlagExactly(cfg, r);
    hide Respond, R.AllHarmless, Runs;
  }

  /** What a HEAD request on a GET route is sent, as long as the handlers do not look at the method, is what the same
      request would be sent for GET: a page the server prints without its body, but prebuilt bytes in full. */
  lemma HeadIsGet(cfg: Config, r: RawRequest, date: string)
    requires Polite(cfg) && FellBack(cfg, r) && !NoHost(r)
    requires forall id, v, verb :: cfg.handler(id, v) == cfg.handler(id, v.(verb := verb))
    ensures var head, get := Respond(cfg, r), Respond(cfg, r.(verb := "GET"));
      get.close == head.close &&
      match get.page
      case Built(_, _, body, _, _) => head.page.Built? && Render(get.page, get.close, date) == Render(head.page, head.close, date) + body
      case Raw(data) => Render(head.page, head.close, date) == Render(get.page, get.close, date) == data
      case ErrorPage(_, _) => false
  {
    hide *;
    var path := FellBackMeans(cfg, r);
    var found := Lookup(cfg.table, GET, path).value;
    var g := r.(verb := "GET");
    HeadFallsBack(cfg.table, HEAD, path);
    OwnRoute(cfg.table, GET, path);
    AskedWithGet(cfg, r, path, found);
    var st := Finishes(cfg, r, HEAD, path, found, true);
    var st' := Finishes(cfg, g, GET, path, found, false);
    HeadPage(st, ShouldClose(r), date);
  }

  lemma FellBackMeans(cfg: Config, r: RawRequest) returns (path: string)
    requires FellBack(cfg, r)
    ensures MethodOf(r.verb) == Some(HEAD) && N.Normalized(r.path) == Some(path)
    ensures Lookup(cfg.table, HEAD, path).None? && Lookup(cfg.table, GET, path).Some?
    ensures Runs(cfg, r, path, Lookup(cfg.table, GET, path).value)
  {
    NamesAreDistinct("HEAD", HEAD);
    hide N.Normalized, Lookup, Runs;
    path := N.Normalized(r.path).value;
  }

  lemma AskedWithGet(cfg: Config, r: RawRequest, path: string, found: Match)
    requires forall id, v, verb :: cfg.handler(id, v) == cfg.handler(id, v.(verb := verb))
    ensures var g := r.(verb := "GET");
      && MethodOf(g.verb) == Some(GET) && NoHost(g) == NoHost(r) && ShouldClose(g) == ShouldClose(r) && g.path == r.path
      && StateAt(cfg, g, path, found) == StateAt(cfg, r, path, found) && Runs(cfg, g, path, found) == Runs(cfg, r, path, found)
  {
    var g := r.(verb := "GET");
    NamesAreDistinct("GET", GET);
    hide DecodedParams, C.Exec, PatchAll, Programs, InBounds, HeaderValue;
    if params: seq<(string, string)> :| DecodedParams(path, found.captures) == Some(params) {
      var v := ViewAt(r, path, found, params);
      assert ViewAt(g, path, found, params) == v.(verb := "GET");
      SamePrograms(cfg, found.chain, v, "GET");
    }
  }

  /** A matched request whose handlers run to the end is answered with the page they leave. */
  lemma Finishes(cfg: Config, r: RawRequest, m: Method, path: string, found: Match, head: bool) returns (st: C.State)
    requires !NoHost(r) && MethodOf(r.verb) == Some(m) && N.Normalized(r.path) == Some(path)
    requires RouteOf(cfg.table, m, path) == Matched(found, head) && Runs(cfg, r, path, found)
    ensures StateAt(cfg, r, path, found) == C.Finished(st) && Respond(cfg, r) == Verdict(ShouldClose(r), PageOf(st, head))
  {
    NoHostIs(r);
    hide RouteOf, DecodedParams, C.Exec, N.Normalized, MethodOf, HeaderValue, PatchAll, Programs, ShouldClose, PageOf, InBounds;
    st := StateAt(cfg, r, path, found).st;
  }

  /** The same state as a page for HEAD and for GET. */
  lemma HeadPage(st: C.State, close: bool, date: string)
    ensures var head, get := PageOf(st, true), PageOf(st, false);
      match get
      case Built(_, _, body, _, _) => head.Built? && Render(get, close, date) == Render(head, close, date) + body
      case Raw(data) => Render(head, close, date) == Render(get, close, date) == data
      case ErrorPage(_, _) => false
  {
    hide R.Print;
    var p := PageOf(st, false);
    if p.Built? { R.HeadIsPrefix(R.Reply(p.code, p.contentType, p.body, p.headers, false, close), date); }
  }

  lemma OwnRoute(tab: Table, m: Method, path: string)
    ensures Lookup(tab, m, path).Some? ==> RouteOf(tab, m, path) == Matched(Lookup(tab, m, path).value, false)
  {
    hide Lookup;
  }

  lemma SamePrograms(cfg: Config, chain: Chain, v: View, verb: string)
    requires forall id, v, verb :: cfg.handler(id, v) == cfg.handler(id, v.(verb := verb))
    ensures Programs(cfg, chain, v) == Programs(cfg, chain, v.(verb := verb))
  {
  }
}
