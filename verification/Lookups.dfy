/** Which route a lookup finds after any history: every route is read against the path token by token, and of those
    that match the least one in a fixed order is found. */
module Lookups {
  import opened Text
  import opened Patterns
  import opened Trie
  import opened TrieInsert
  import opened TrieSearch
  import opened TrieRoutes
  import opened Routing
  import opened Refusals

  // ---- Reading a route against a path -------------------------------------

  /** Positions seen from behind a piece of a route. */
  ghost function Past(spots: iset<Position>, e: Position): iset<Position> { iset q | e + q in spots }

  /** Behind a token the path may have one slash, which is skipped where the trie has a node and nowhere else. */
  ghost function Next(spots: iset<Position>, tok: Token, path: string, j: nat): (k: nat)
    requires j <= |path|
    ensures j <= k <= |path|
  {
    if [tok] in spots then AfterSlash(path, j) else j
  }

  function Put(c: Capture, r: Option<seq<Capture>>): Option<seq<Capture>> {
    match r case None => None case Some(cs) => Some([c] + cs)
  }

  /** What a route captures when it is read against the whole path from offset `i`: a literal takes its byte, a
      parameter a non-empty run up to the next slash, a catch-all all that is left, which must not be empty. */
  ghost function Reading(spots: iset<Position>, w: Position, path: string, i: nat): Option<seq<Capture>>
    requires i <= |path|
    decreases |w|
  {
    if w == [] then if i == |path| then Some([]) else None
    else if i == |path| then None
    else
      match w[0]
      case Lit(c) =>
        if path[i] == c then Reading(Past(spots, [w[0]]), w[1..], path, Next(spots, w[0], path, i + 1)) else None
      case Par(name) =>
        var j := IndexOf(path, '/', i);
        if i < j then Put(Capture(name, i, j - i), Reading(Past(spots, [w[0]]), w[1..], path, Next(spots, w[0], path, j))) else None
      case Any(name) => Put(Capture(name, i, |path| - i), Reading(Past(spots, [w[0]]), w[1..], path, |path|))
  }

  function TokenRank(tok: Token): nat {
    match tok case Lit(_) => 0 case Par(_) => 1 case Any(_) => 2
  }

  /** At the first token where they differ, `v` has a literal and `w` a wildcard, or `v` a parameter and `w` a catch-all. */
  predicate Preferred(v: Position, w: Position) {
    v != [] && w != [] && if v[0] == w[0] then Preferred(v[1..], w[1..]) else TokenRank(v[0]) < TokenRank(w[0])
  }

  // ---- Traces are readings ------------------------------------------------

  /** The positions of the trie's nodes. */
  ghost function Nodes(t: Node): iset<Position> { iset pos | Has(t, pos) }

  /** No node inside a label, and one at its end. */
  ghost predicate Label(spots: iset<Position>, text: string) {
    && text != "" && Lits(text) in spots
    && forall n :: 0 < n < |text| ==> Lits(text[..n]) !in spots
  }

  lemma LitsCut(c: char, b: string, n: nat)
    requires n <= |b|
    ensures Lits(([c] + b)[..n + 1]) == [Lit(c)] + Lits(b[..n])
  {
  }

  lemma PastTwice(spots: iset<Position>, d: Position, e: Position)
    ensures Past(Past(spots, d), e) == Past(spots, d + e)
  {
    forall q ensures q in Past(Past(spots, d), e) <==> q in Past(spots, d + e) { Assoc(d, e, q); }
  }

  lemma LabelTail(spots: iset<Position>, c: char, b: string)
    requires Label(spots, [c] + b)
    ensures [Lit(c)] in spots <==> b == ""
    ensures b != "" ==> Label(Past(spots, [Lit(c)]), b)
  {
    LitsCut(c, b, 0);
    LitsCut(c, b, |b|);
    assert ([c] + b)[..|b| + 1] == [c] + b && b[..|b|] == b && Lits(b[..0]) == [] && [Lit(c)] + [] == [Lit(c)];
    if b != "" {
      assert Lits(([c] + b)[..1]) !in spots;
      forall n | 0 < n < |b| ensures Lits(b[..n]) !in Past(spots, [Lit(c)]) {
        LitsCut(c, b, n);
        assert Lits(([c] + b)[..n + 1]) !in spots;
      }
    }
  }

  /** A literal token in front. */
  lemma ReadLit(spots: iset<Position>, c: char, w: Position, path: string, i: nat)
    requires i < |path|
    ensures Reading(spots, [Lit(c)] + w, path, i) ==
      if path[i] == c then Reading(Past(spots, [Lit(c)]), w, path, Next(spots, Lit(c), path, i + 1)) else None
  {
    assert ([Lit(c)] + w)[1..] == w;
  }

  /** A label is read as a whole. */
  lemma {:induction false} ReadLabel(spots: iset<Position>, text: string, q: Position, path: string, i: nat)
    requires Label(spots, text) && i <= |path|
    ensures Reading(spots, Lits(text) + q, path, i) ==
      if text <= path[i..] then Reading(Past(spots, Lits(text)), q, path, AfterSlash(path, i + |text|)) else None
    decreases |text|
  {
    hide *;
    LabelIs(spots, text);
    if i == |path| {
      ReadNothing(spots, text, q, path);
    } else {
      var c, b := text[0], text[1..];
      HeadTail(text);
      LabelTail(spots, c, b);
      LitsCut(c, b, |b|);
      assert ([c] + b)[..|b| + 1] == text && b[..|b|] == b;
      Assoc([Lit(c)], Lits(b), q);
      ReadLit(spots, c, Lits(b) + q, path, i);
      HeadMatches(c, b, path, i);
      NextIs(spots, Lit(c), path, i + 1);
      if b == "" {
        assert Lits(b) == [] && [] + q == q && [Lit(c)] + [] == [Lit(c)];
      } else {
        ReadLabel(Past(spots, [Lit(c)]), b, q, path, i + 1);
        PastTwice(spots, [Lit(c)], Lits(b));
      }
    }
  }

  lemma ReadNothing(spots: iset<Position>, text: string, q: Position, path: string)
    requires text != ""
    ensures Reading(spots, Lits(text) + q, path, |path|) == None && !(text <= path[|path|..])
  {
  }

  lemma LabelIs(spots: iset<Position>, text: string)
    requires Label(spots, text)
    ensures text != ""
  {
  }

  lemma NextIs(spots: iset<Position>, tok: Token, path: string, j: nat)
    requires j <= |path|
    ensures Next(spots, tok, path, j) == if [tok] in spots then AfterSlash(path, j) else j
  {
  }

  lemma HeadMatches(c: char, b: string, path: string, i: nat)
    requires i < |path|
    ensures [c] + b <= path[i..] <==> path[i] == c && b <= path[i + 1..]
  {
    assert path[i..] == [path[i]] + path[i + 1..];
    assert ([c] + b)[1..] == b && ([c] + b)[0] == c;
    if [c] + b <= path[i..] {
      assert path[i..][..|b| + 1] == [c] + b;
      assert path[i + 1..][..|b|] == b;
    }
  }

  /** The nodes below a child are the nodes behind its edge. */
  lemma NodesBelow(t: Node, k: nat)
    requires WellFormed(t) && k < |t.children|
    ensures var e := t.children[k].Edge(); e != [] && e in Nodes(t) && Past(Nodes(t), e) == Nodes(t.children[k])
  {
    var c := t.children[k];
    RootHas(c);
    hide WellFormed, At;
    AtEdge(t, k, []);
    assert c.Edge() + [] == c.Edge();
    forall q ensures Has(t, c.Edge() + q) <==> Has(c, q) { AtEdge(t, k, q); }
  }

  lemma NodesLabel(t: Node, k: nat)
    requires WellFormed(t) && k < |t.children| && t.children[k].kind == Static
    ensures Label(Nodes(t), t.children[k].path) && t.children[k].Edge() == Lits(t.children[k].path)
  {
    var c := t.children[k];
    assert WellFormedEdge(c);
    NodesBelow(t, k);
    forall n | 0 < n < |c.path| ensures !Has(t, Lits(c.path[..n])) {
      var pos := Lits(c.path[..n]);
      assert pos[0] == Lit(c.path[0]);
      PickUnique(t.children, k, pos[0]);
    }
  }

  /** A child's edge in front of a route. */
  lemma ReadEdge(t: Node, k: nat, q: Position, path: string, i: nat)
    requires WellFormed(t) && k < |t.children| && i < |path|
    ensures var c := t.children[k];
      if Passes(c, path, i) then
        Reading(Nodes(t), c.Edge() + q, path, i) == Caught(Captured(c, path, i), Reading(Nodes(c), q, path, Land(c, path, i)))
      else Reading(Nodes(t), c.Edge() + q, path, i) == None
  {
    hide *;
    NodesBelow(t, k);
    PassesIs(t.children[k], path, i);
    match t.children[k].kind
    case Static =>
      NodesLabel(t, k);
      ReadLabel(Nodes(t), t.children[k].path, q, path, i);
    case Param => ReadWild(Nodes(t), t.children[k], q, path, i);
    case CatchAll => ReadWild(Nodes(t), t.children[k], q, path, i);
  }

  function Caught(cs: seq<Capture>, r: Option<seq<Capture>>): Option<seq<Capture>> {
    match r case None => None case Some(ds) => Some(cs + ds)
  }

  lemma PassesIs(c: Node, path: string, i: nat)
    requires i < |path|
    ensures c.kind == Static ==> (Passes(c, path, i) <==> c.path <= path[i..]) && Captured(c, path, i) == []
    ensures c.kind == Static && Passes(c, path, i) ==> i + |c.path| <= |path| && Land(c, path, i) == AfterSlash(path, i + |c.path|)
    ensures c.kind == Static ==> forall r :: Caught(Captured(c, path, i), r) == r
  {
    forall r: Option<seq<Capture>> ensures Caught([], r) == r { if r.Some? { assert [] + r.value == r.value; } }
  }

  lemma ReadWild(spots: iset<Position>, c: Node, q: Position, path: string, i: nat)
    requires i < |path| && c.kind != Static && c.Edge() in spots
    ensures
      if Passes(c, path, i) then
        Reading(spots, c.Edge() + q, path, i) == Caught(Captured(c, path, i), Reading(Past(spots, c.Edge()), q, path, Land(c, path, i)))
      else Reading(spots, c.Edge() + q, path, i) == None
  {
    assert (c.Edge() + q)[1..] == q;
    hide Past, IndexOf;
  }

  /** An accepting trace is a reading of the route it spells. */
  lemma {:induction false} TraceReads(t: Node, path: string, i: nat, m: Method, ks: Trace)
    requires WellFormed(t) && i <= |path| && Accepts(t, path, i, m, ks)
    ensures Reading(Nodes(t), Spelled(t, ks), path, i) == Some(Run(t, path, i, m, ks).value.captures)
    decreases t
  {
    if ks != [] {
      var c := t.children[ks[0]];
      assert WellFormed(c);
      hide WellFormed, Reading, Passes, Land, Captured, Nodes;
      TraceReads(c, path, Land(c, path, i), m, ks[1..]);
      ReadEdge(t, ks[0], Spelled(c, ks[1..]), path, i);
    }
  }

  /** A stored route that can be read is spelled by an accepting trace. */
  lemma {:induction false} ReadingTraced(t: Node, path: string, i: nat, m: Method, w: Position) returns (ks: Trace)
    requires WellFormed(t) && i <= |path| && m in Meth(t, w) && Reading(Nodes(t), w, path, i).Some?
    ensures Accepts(t, path, i, m, ks) && Spelled(t, ks) == w
    decreases t
  {
    hide *;
    if w == [] {
      ks := [];
      EmptyTraced(t, path, i, m);
    } else {
      var k := StoredBelow(t, w, m);
      var c := t.children[k];
      var q := w[|c.Edge()|..];
      ReadingOpen(Nodes(t), w, path, i);
      ReadEdge(t, k, q, path, i);
      CaughtIs(Captured(c, path, i), Reading(Nodes(c), q, path, Land(c, path, i)));
      var ls := ReadingTraced(c, path, Land(c, path, i), m, q);
      StepTraced(t, k, path, i, m, ls);
      ks := [k] + ls;
    }
  }

  lemma CaughtIs(cs: seq<Capture>, r: Option<seq<Capture>>)
    ensures Caught(cs, r).Some? <==> r.Some?
  {
  }

  lemma EmptyTraced(t: Node, path: string, i: nat, m: Method)
    requires WellFormed(t) && i <= |path| && m in Meth(t, []) && Reading(Nodes(t), [], path, i).Some?
    ensures Accepts(t, path, i, m, []) && Spelled(t, []) == []
  {
  }

  lemma ReadingOpen(spots: iset<Position>, w: Position, path: string, i: nat)
    requires w != [] && i <= |path| && Reading(spots, w, path, i).Some?
    ensures i < |path|
  {
  }

  /** A route stored below the root starts with a child's edge. */
  lemma StoredBelow(t: Node, w: Position, m: Method) returns (k: nat)
    requires WellFormed(t) && w != [] && m in Meth(t, w)
    ensures k < |t.children| && WellFormed(t.children[k])
    ensures var e := t.children[k].Edge(); |e| <= |w| && w == e + w[|e|..] && m in Meth(t.children[k], w[|e|..])
  {
    k := Pick(t.children, w[0]);
  }

  lemma StepTraced(t: Node, k: nat, path: string, i: nat, m: Method, ls: Trace)
    requires k < |t.children| && i < |path| && Passes(t.children[k], path, i)
    requires Accepts(t.children[k], path, Land(t.children[k], path, i), m, ls)
    ensures Accepts(t, path, i, m, [k] + ls) && Spelled(t, [k] + ls) == t.children[k].Edge() + Spelled(t.children[k], ls)
  {
    hide Run, Passes, Land;
    PrependRun(t, k, path, i, m, ls);
    assert ([k] + ls)[1..] == ls;
  }

  // ---- The order of traces is the order of routes -------------------------

  lemma {:induction false} PreferredBehind(e: Position, v: Position, w: Position)
    ensures Preferred(e + v, e + w) <==> Preferred(v, w)
    decreases |e|
  {
    if e == [] {
      assert e + v == v && e + w == w;
    } else {
      assert (e + v)[1..] == e[1..] + v && (e + w)[1..] == e[1..] + w;
      PreferredBehind(e[1..], v, w);
    }
  }

  lemma RankOfEdge(c: Node)
    requires WellFormedEdge(c)
    ensures c.Edge() != [] && TokenRank(c.Edge()[0]) == Rank(c.kind)
  {
  }

  /** Siblings that both pass are of different kinds. */
  lemma PassesApart(t: Node, a: nat, b: nat, path: string, i: nat)
    requires WellFormed(t) && a < |t.children| && b < |t.children| && a != b && i < |path|
    requires Passes(t.children[a], path, i) && Passes(t.children[b], path, i)
    ensures t.children[a].kind != t.children[b].kind
  {
    var c, d := t.children[a], t.children[b];
    assert WellFormedEdge(c) && WellFormedEdge(d);
    assert !Clash(c, d) && !Clash(d, c);
    assert c.kind == Static ==> c.path[0] == path[i..][0];
    assert d.kind == Static ==> d.path[0] == path[i..][0];
  }

  /** Of two accepting traces the earlier one spells the preferred route. */
  lemma {:induction false} BeforePreferred(t: Node, path: string, i: nat, m: Method, ks: Trace, ls: Trace)
    requires WellFormed(t) && i <= |path| && Accepts(t, path, i, m, ks) && Accepts(t, path, i, m, ls) && Before(t, ks, ls)
    ensures Preferred(Spelled(t, ks), Spelled(t, ls))
    decreases t
  {
    var c, d := t.children[ks[0]], t.children[ls[0]];
    assert WellFormed(c) && WellFormedEdge(c) && WellFormedEdge(d);
    if ks[0] == ls[0] {
      hide WellFormed, Passes, Land, Captured, Preferred;
      BeforePreferred(c, path, Land(c, path, i), m, ks[1..], ls[1..]);
      PreferredBehind(c.Edge(), Spelled(c, ks[1..]), Spelled(c, ls[1..]));
    } else {
      hide WellFormed, Passes, Land, Captured;
      PassesApart(t, ks[0], ls[0], path, i);
      RankOfEdge(c);
      RankOfEdge(d);
    }
  }

  // ---- The route a search finds -------------------------------------------

  /** A stored route that can be read against the path and has at most eight parameters. */
  ghost predicate Stored(t: Node, w: Position, path: string, i: nat, m: Method)
    requires i <= |path|
  {
    m in Meth(t, w) && ParCount(w) <= MAX_CAPTURES && Reading(Nodes(t), w, path, i).Some?
  }

  /** An eligible trace is a stored route, read. */
  lemma EligibleStored(t: Node, path: string, i: nat, m: Method, ks: Trace)
    requires WellFormed(t) && i <= |path| && Eligible(t, path, i, m, [], ks)
    ensures var w := Spelled(t, ks);
      && Stored(t, w, path, i, m) && Meth(t, w)[m] == Run(t, path, i, m, ks).value.chain
      && Reading(Nodes(t), w, path, i).value == Run(t, path, i, m, ks).value.captures
  {
    hide WellFormed, Reading, Nodes, Meth, Run, Spelled, Params, ParCount;
    TraceRoute(t, path, i, m, ks);
    TraceReads(t, path, i, m, ks);
  }

  lemma StoredEligible(t: Node, path: string, i: nat, m: Method, w: Position) returns (ks: Trace)
    requires WellFormed(t) && i <= |path| && Stored(t, w, path, i, m)
    ensures Eligible(t, path, i, m, [], ks) && Spelled(t, ks) == w
  {
    hide WellFormed, Reading, Nodes, Meth, Run, Spelled, Params, ParCount;
    ks := ReadingTraced(t, path, i, m, w);
    TraceRoute(t, path, i, m, ks);
  }

  /** The search finds the preferred one of the stored routes that match, and nothing only when none does. */
  lemma SearchExactly(t: Node, path: string, i: nat, m: Method) returns (w: Position)
    requires WellFormed(t) && i <= |path|
    ensures match Search(t, path, i, m, [])
      case None => forall v :: !Stored(t, v, path, i, m)
      case Some(r) =>
        && Stored(t, w, path, i, m) && r.chain == Meth(t, w)[m] && r.captures == Keep8(Reading(Nodes(t), w, path, i).value)
        && forall v :: Stored(t, v, path, i, m) ==> v == w || Preferred(w, v)
  {
    hide *;
    var ks := SearchFirst(t, path, i, m, []);
    var r := Search(t, path, i, m, []);
    w := Spelled(t, ks);
    if r.Some? {
      FirstMeans(t, path, i, m, r, ks);
      EligibleStored(t, path, i, m, ks);
    }
    forall v | Stored(t, v, path, i, m) ensures r.Some? && (v == w || Preferred(w, v)) {
      var ls := StoredEligible(t, path, i, m, v);
      FirstAgainst(t, path, i, m, r, ks, ls);
      if ls != ks {
        EligibleAccepts(t, path, i, m, ks);
        EligibleAccepts(t, path, i, m, ls);
        BeforePreferred(t, path, i, m, ks, ls);
      }
    }
  }

  lemma FirstAgainst(t: Node, path: string, i: nat, m: Method, r: Option<Match>, ks: Trace, ls: Trace)
    requires i <= |path| && FirstOf(t, path, i, m, [], r, ks) && Eligible(t, path, i, m, [], ls)
    ensures r.Some? && Eligible(t, path, i, m, [], ks) && (ls == ks || Before(t, ks, ls))
  {
    hide Eligible, Run, Before;
  }

  // ---- The route a lookup finds, after any history ------------------------

  ghost function Spots(rs: seq<Route>): iset<Position> { iset pos | SpotIn(rs, pos) }

  /** What registration `k` captures when its pattern is read against the path. */
  ghost function Read(rs: seq<Route>, k: nat, path: string): Option<seq<Capture>> {
    if k < |rs| && path != "" && path[0] == '/' then Reading(Spots(rs), Tokens(Tail(rs[k])), path, 1) else None
  }

  /** Registration `k` serves the path: it was accepted for the method, has at most eight parameters and matches. */
  ghost predicate Serves(rs: seq<Route>, k: nat, m: Method, path: string) {
    && k < |rs| && Taken(rs, k) && rs[k].verb == m
    && ParCount(Tokens(Tail(rs[k]))) <= MAX_CAPTURES && Read(rs, k, path).Some?
  }

  lemma NodesAreSpots(rs: seq<Route>)
    requires AllSane(rs)
    ensures Nodes(Build(rs).root) == Spots(rs)
  {
    hide SpotIn, Has, Build;
    forall pos ensures Has(Build(rs).root, pos) <==> SpotIn(rs, pos) { HistorySpots(rs, pos); }
  }

  /** No two accepted registrations share position and method. */
  lemma {:induction false} TakenOnce(rs: seq<Route>, j: nat, k: nat)
    requires AllSane(rs) && j < k < |rs| && Taken(rs, j) && Taken(rs, k) && rs[j].verb == rs[k].verb
    ensures Tokens(Tail(rs[j])) != Tokens(Tail(rs[k]))
  {
    hide *;
    var upto := rs[..k + 1];
    TakenPrefix(rs, k + 1, k);
    TakenPrefix(rs, k, j);
    assert upto[..k] == rs[..k] && upto[k] == rs[k];
    TakenStays(rs[..k], j);
    MethStep(upto, Tokens(Tail(rs[k])));
  }

  lemma ServesStored(rs: seq<Route>, k: nat, m: Method, path: string)
    requires AllSane(rs) && Serves(rs, k, m, path)
    ensures path != "" && path[0] == '/' && k < |rs| && Taken(rs, k) && rs[k].verb == m
    ensures Stored(Build(rs).root, Tokens(Tail(rs[k])), path, 1, m)
  {
    hide Build, Taken, Tokens, Meth, Reading, Nodes, Spots, ParCount;
    NodesAreSpots(rs);
    TakenStays(rs, k);
  }

  lemma StoredServes(rs: seq<Route>, w: Position, m: Method, path: string) returns (k: nat)
    requires AllSane(rs) && path != "" && path[0] == '/' && Stored(Build(rs).root, w, path, 1, m)
    ensures Serves(rs, k, m, path) && Tokens(Tail(rs[k])) == w && rs[k].chain == Meth(Build(rs).root, w)[m]
    ensures Read(rs, k, path) == Reading(Nodes(Build(rs).root), w, path, 1)
  {
    hide Build, Taken, Tokens, Meth, Reading, Nodes, Spots, ParCount;
    NodesAreSpots(rs);
    k := BuildMeth(rs, w, m);
  }

  /** After any history, refused registrations included, a lookup finds nothing exactly when no accepted route serves
      the path; otherwise it finds one that does, with what it captures there (the first eight), and every other
      route that serves the path is less preferred. */
  lemma LookupExactly(rs: seq<Route>, m: Method, path: string) returns (k: nat)
    requires AllSane(rs)
    ensures match Lookup(Build(rs), m, path)
      case None => forall j: nat :: !Serves(rs, j, m, path)
      case Some(r) =>
        && Serves(rs, k, m, path) && r.chain == rs[k].chain && r.captures == Keep8(Read(rs, k, path).value)
        && forall j: nat :: Serves(rs, j, m, path) ==> j == k || Preferred(Tokens(Tail(rs[k])), Tokens(Tail(rs[j])))
  {
    hide *;
    k := 0;
    var t := Build(rs).root;
    LookupIs(Build(rs), m, path);
    if path == "" || path[0] != '/' {
      forall j: nat ensures !Serves(rs, j, m, path) {
        if Serves(rs, j, m, path) { ServesStored(rs, j, m, path); }
      }
    } else {
      BuildWellFormed(rs);
      var w := SearchExactly(t, path, 1, m);
      var found := Search(t, path, 1, m, []);
      if found.Some? { k := StoredServes(rs, w, m, path); }
      forall j: nat | Serves(rs, j, m, path) ensures found.Some? && j < |rs| && (j == k || Preferred(w, Tokens(Tail(rs[j])))) {
        ServesStored(rs, j, m, path);
        if found.Some? { OneServes(rs, j, k, m, path); }
      }
    }
  }

  /** Two registrations that serve a path are the same or have different patterns. */
  lemma OneServes(rs: seq<Route>, j: nat, k: nat, m: Method, path: string)
    requires AllSane(rs) && Serves(rs, j, m, path) && Serves(rs, k, m, path)
    ensures j == k || Tokens(Tail(rs[j])) != Tokens(Tail(rs[k]))
  {
    hide *;
    ServesStored(rs, j, m, path);
    ServesStored(rs, k, m, path);
    if j < k { TakenOnce(rs, j, k); } else if k < j { TakenOnce(rs, k, j); }
  }

  lemma {:induction false} PreferredOneWay(v: Position, w: Position)
    ensures !(Preferred(v, w) && Preferred(w, v))
    decreases |v|
  {
    if v != [] && w != [] { PreferredOneWay(v[1..], w[1..]); }
  }

  /** So an accepted route answers exactly the paths it serves and no preferred route serves. */
  lemma PreferredIsFound(rs: seq<Route>, k: nat, m: Method, path: string)
    requires AllSane(rs) && Serves(rs, k, m, path)
    requires forall j: nat :: Serves(rs, j, m, path) ==> j == k || Preferred(Tokens(Tail(rs[k])), Tokens(Tail(rs[j])))
    ensures Lookup(Build(rs), m, path) == Some(Match(rs[k].chain, Keep8(Read(rs, k, path).value)))
  {
    hide *;
    var n := LookupExactly(rs, m, path);
    ServesStored(rs, k, m, path);
    ServesStored(rs, n, m, path);
    PreferredOneWay(Tokens(Tail(rs[k])), Tokens(Tail(rs[n])));
  }
}
