/** Whole registration histories: what every lookup answers after any sequence of registrations. */
module Routing {
  import opened Text
  import opened Patterns
  import opened Trie
  import opened TrieInsert
  import opened TrieSearch
  import opened TrieRoutes

  datatype Route = Route(verb: Method, pattern: string, chain: Chain)

  datatype Table = Table(root: Node, frozen: bool)

  datatype AddResult = Accepted | FrozenTable | BadPattern | Refused(why: Status)

  const EMPTY_TABLE: Table := Table(ROOT, false)

  /** Registration (src/router.cpp, add_route). A refused one can still change the trie. */
  function AddRoute(tab: Table, r: Route): (Table, AddResult) {
    if tab.frozen then (tab, FrozenTable)
    else if r.pattern == "" || r.pattern[0] != '/' then (tab, BadPattern)
    else
      var (root, s) := Insert(tab.root, r.pattern[1..], r.verb, r.chain);
      (tab.(root := root), if s == Added then Accepted else Refused(s))
  }

  /** Lookup (src/router.cpp, lookup). */
  function Lookup(tab: Table, m: Method, path: string): Option<Match> {
    if path == "" || path[0] != '/' then None else Search(tab.root, path, 1, m, [])
  }

  function Tail(r: Route): string { if r.pattern == "" then "" else r.pattern[1..] }

  /** The routes the results speak of: at least one handler and no empty segment before a catch-all. */
  predicate Sane(r: Route) { r.chain != [] && Clean(Tail(r)) }

  /** The table after a history of registrations, refused ones included. */
  function Build(rs: seq<Route>): (tab: Table)
    ensures !tab.frozen
  {
    if rs == [] then EMPTY_TABLE else AddRoute(Build(rs[..|rs| - 1]), rs[|rs| - 1]).0
  }

  /** Registration number `k` of the history was accepted. */
  predicate Taken(rs: seq<Route>, k: nat)
    requires k < |rs|
  {
    AddRoute(Build(rs[..k]), rs[k]).1 == Accepted
  }

  predicate AllSane(rs: seq<Route>) { forall k :: 0 <= k < |rs| ==> Sane(rs[k]) }

  /** The trie stays well formed through every history. */
  lemma {:induction false} BuildWellFormed(rs: seq<Route>)
    requires AllSane(rs)
    ensures WellFormed(Build(rs).root) && Build(rs).root.kind == Static
  {
    if rs != [] {
      var n := |rs| - 1;
      BuildWellFormed(rs[..n]);
      var r := rs[n];
      if r.pattern != "" && r.pattern[0] == '/' {
        InsertWellFormed(Build(rs[..n]).root, Tail(r), r.verb, r.chain);
      }
    }
  }

  /** What one more registration does to the handlers. */
  lemma MethStep(rs: seq<Route>, pos: Position)
    requires AllSane(rs) && rs != []
    ensures var n := |rs| - 1;
      var before, after := Build(rs[..n]).root, Build(rs).root;
      var r := rs[n];
      && Meth(after, pos) == (if Taken(rs, n) && pos == Tokens(Tail(r)) then Meth(before, pos)[r.verb := r.chain] else Meth(before, pos))
      && (Taken(rs, n) && pos == Tokens(Tail(r)) ==> r.verb !in Meth(before, pos))
  {
    var n := |rs| - 1;
    var r := rs[n];
    BuildWellFormed(rs[..n]);
    if r.pattern != "" && r.pattern[0] == '/' {
      hide WellFormed, At, Insert, Meth, Tokens;
      InsertMeth(Build(rs[..n]).root, Tail(r), r.verb, r.chain, pos);
      InsertAccepts(Build(rs[..n]).root, Tail(r), r.verb, r.chain);
    }
  }

  /** Registration `k` put `chain` at `pos` for `m`. */
  predicate Gives(rs: seq<Route>, k: nat, pos: Position, m: Method, chain: Chain) {
    k < |rs| && Taken(rs, k) && rs[k].verb == m && Tokens(Tail(rs[k])) == pos && rs[k].chain == chain
  }

  /** Handlers in the trie are exactly those of accepted registrations. */
  lemma {:induction false} BuildMeth(rs: seq<Route>, pos: Position, m: Method) returns (k: nat)
    requires AllSane(rs) && m in Meth(Build(rs).root, pos)
    ensures Gives(rs, k, pos, m, Meth(Build(rs).root, pos)[m])
  {
    k := 0;
    if rs != [] {
      var n := |rs| - 1;
      MethStep(rs, pos);
      hide Build, Taken, Meth, Tokens, Tail;
      if Taken(rs, n) && pos == Tokens(Tail(rs[n])) && m == rs[n].verb {
        k := n;
      } else {
        TakenPrefix(rs, n, 0);
        k := BuildMeth(rs[..n], pos, m);
        TakenPrefix(rs, n, k);
      }
    }
  }

  /** An accepted registration keeps its handlers for the rest of the history. */
  lemma {:induction false} TakenStays(rs: seq<Route>, k: nat)
    requires AllSane(rs) && k < |rs| && Taken(rs, k)
    ensures var w := Tokens(Tail(rs[k]));
      rs[k].verb in Meth(Build(rs).root, w) && Meth(Build(rs).root, w)[rs[k].verb] == rs[k].chain
  {
    hide *;
    var n := |rs| - 1;
    MethStep(rs, Tokens(Tail(rs[k])));
    if k < n {
      TakenPrefix(rs, n, k);
      TakenStays(rs[..n], k);
    }
  }

  lemma TakenPrefix(rs: seq<Route>, n: nat, k: nat)
    requires k <= n <= |rs|
    ensures k < n ==> Taken(rs[..n], k) == Taken(rs, k)
    ensures AllSane(rs) ==> AllSane(rs[..n])
  {
    assert rs[..n][..k] == rs[..k];
  }

  /** One more registration, refused or not, removes no node. */
  lemma NodesStay(rs: seq<Route>, pos: Position)
    requires AllSane(rs) && rs != [] && Has(Build(rs[..|rs| - 1]).root, pos)
    ensures Has(Build(rs).root, pos)
  {
    var init, r := rs[..|rs| - 1], rs[|rs| - 1];
    BuildWellFormed(init);
    hide WellFormed, At, Insert;
    if r.pattern != "" && r.pattern[0] == '/' {
      InsertKeeps(Build(init).root, Tail(r), r.verb, r.chain, pos);
    }
  }

  lemma StopsAppear(rs: seq<Route>, pos: Position)
    requires AllSane(rs) && rs != [] && Taken(rs, |rs| - 1) && Stop(Tail(rs[|rs| - 1]), pos)
    ensures Has(Build(rs).root, pos)
  {
    var init, r := rs[..|rs| - 1], rs[|rs| - 1];
    BuildWellFormed(init);
    hide WellFormed, At, InnerStop;
    InsertHas(Build(init).root, Tail(r), r.verb, r.chain, pos);
  }

  /** An accepted pattern keeps a node at each of its stops for the rest of the history. */
  lemma {:induction false} TakenHolds(rs: seq<Route>, k: nat, pos: Position)
    requires AllSane(rs) && k < |rs| && Taken(rs, k) && Stop(Tail(rs[k]), pos)
    ensures Has(Build(rs).root, pos)
  {
    hide *;
    var n := |rs| - 1;
    if k < n {
      TakenPrefix(rs, n, k);
      TakenHolds(rs[..n], k, pos);
      NodesStay(rs, pos);
    } else {
      StopsAppear(rs, pos);
    }
  }

  // ---- No route is ever lost ----------------------------------------------

  /** Whatever was registered before and after, refused or not, an accepted route with at most eight
      parameters is found again under every path that fills its pattern. */
  lemma NoRouteLost(rs: seq<Route>, k: nat, vs: seq<string>)
    requires AllSane(rs) && k < |rs| && Taken(rs, k)
    requires GoodValues(Tail(rs[k]), vs) && ParCount(Tokens(Tail(rs[k]))) <= MAX_CAPTURES
    ensures Lookup(Build(rs), rs[k].verb, "/" + Fill(Tail(rs[k]), vs)).Some?
  {
    var t := Build(rs).root;
    var p := Tail(rs[k]);
    var path := "/" + Fill(p, vs);
    BuildWellFormed(rs);
    TakenStays(rs, k);
    forall pos | Stop(p, pos) ensures Has(t, pos) { TakenHolds(rs, k, pos); }
    assert path[1..] == Fill(p, vs);
    var ks := Completes(t, p, rs[k].verb, vs, path, 1);
    TraceRoute(t, path, 1, rs[k].verb, ks);
    assert Eligible(t, path, 1, rs[k].verb, [], ks);
    var best := SearchFirst(t, path, 1, rs[k].verb, []);
  }

  // ---- Lookups are sound --------------------------------------------------

  /** Every match is an accepted registration for that method with at most eight parameters, and its pattern,
      filled with `vs`, is the path up to slashes; the captures are the first eight of `vs`, as ordered disjoint
      slices of the path, under the names of the pattern's parameters in order. */
  lemma LookupSound(rs: seq<Route>, m: Method, path: string) returns (k: nat, vs: seq<string>)
    requires AllSane(rs) && Lookup(Build(rs), m, path).Some?
    ensures var r := Lookup(Build(rs), m, path).value;
      && k < |rs| && Taken(rs, k) && rs[k].verb == m && rs[k].chain == r.chain
      && DeSlash(path) == DeSlash(Instantiate(Tokens(Tail(rs[k])), vs))
      && ParCount(Tokens(Tail(rs[k]))) <= MAX_CAPTURES && |r.captures| <= MAX_CAPTURES
      && Values(path, r.captures) == (if |vs| <= MAX_CAPTURES then vs else vs[..MAX_CAPTURES])
      && Keys(r.captures) == FirstEight(WildNames(Tokens(Tail(rs[k]))))
      && InOrder(r.captures, 1, |path|)
  {
    var t := Build(rs).root;
    BuildWellFormed(rs);
    var w;
    w, vs := SearchSound(t, path, 1, m);
    assert DeSlash(path) == DeSlash(path[1..]);
    hide Build, Taken, Meth, Tokens, Tail, Search, DeSlash, Instantiate, InOrder;
    k := BuildMeth(rs, w, m);
  }

  /** The captures of any match are ordered, disjoint, non-empty slices of the path. */
  lemma LookupOrdered(tab: Table, m: Method, path: string)
    requires Lookup(tab, m, path).Some?
    ensures InOrder(Lookup(tab, m, path).value.captures, 1, |path|)
  {
    var ks := SearchFirst(tab.root, path, 1, m, []);
    hide Search, Run, InOrder, Params;
    var run := Run(tab.root, path, 1, m, ks).value;
    TraceOrder(tab.root, path, 1, m, ks);
    assert [] + run.captures == run.captures;
    if |run.captures| > MAX_CAPTURES { InOrderPrefix(run.captures, MAX_CAPTURES, 1, |path|); }
  }

  function FirstEight(names: seq<string>): seq<string> { if |names| <= MAX_CAPTURES then names else names[..MAX_CAPTURES] }

  /** A successful search names a stored route and the values that make it the path up to slashes. */
  lemma SearchSound(t: Node, path: string, i: nat, m: Method) returns (w: Position, vs: seq<string>)
    requires WellFormed(t) && i <= |path| && Search(t, path, i, m, []).Some?
    ensures var r := Search(t, path, i, m, []).value;
      && m in Meth(t, w) && Meth(t, w)[m] == r.chain
      && DeSlash(path[i..]) == DeSlash(Instantiate(w, vs))
      && ParCount(w) <= MAX_CAPTURES && |r.captures| <= MAX_CAPTURES
      && Values(path, r.captures) == (if |vs| <= MAX_CAPTURES then vs else vs[..MAX_CAPTURES])
      && Keys(r.captures) == FirstEight(WildNames(w))
      && InOrder(r.captures, i, |path|)
  {
    hide *;
    var ks := SearchFirst(t, path, i, m, []);
    FirstMeans(t, path, i, m, Search(t, path, i, m, []), ks);
    EligibleAccepts(t, path, i, m, ks);
    TraceRoute(t, path, i, m, ks);
    TraceText(t, path, i, m, ks);
    TraceOrder(t, path, i, m, ks);
    TraceKeys(t, path, i, m, ks);
    var cs := Run(t, path, i, m, ks).value.captures;
    w, vs := Spelled(t, ks), Values(path, cs);
    KeptEight(path, cs, i);
  }

  /** The first eight captures, read as values and as keys. */
  lemma KeptEight(path: string, cs: seq<Capture>, i: nat)
    requires InOrder(cs, i, |path|)
    ensures var kept, vs := Keep8(cs), Values(path, cs);
      && |kept| <= MAX_CAPTURES && InOrder(kept, i, |path|) && Keys(kept) == FirstEight(Keys(cs))
      && Values(path, kept) == if |vs| <= MAX_CAPTURES then vs else vs[..MAX_CAPTURES]
  {
    hide InOrder, Slice;
    if |cs| > MAX_CAPTURES { InOrderPrefix(cs, MAX_CAPTURES, i, |path|); }
  }

  // ---- Registration order does not matter ---------------------------------

  /** The node positions a set of pattern tails forces: their stops, and where two of them part. */
  ghost predicate Spot(tails: set<string>, pos: Position) {
    || pos == []
    || (exists p :: p in tails && Stop(p, pos))
    || (exists p, q :: p in tails && q in tails && Meet(Tokens(p), Tokens(q)) == pos)
  }

  function Tails(rs: seq<Route>): set<string> { set k | 0 <= k < |rs| :: Tail(rs[k]) }

  predicate AllTaken(rs: seq<Route>) { forall k :: 0 <= k < |rs| ==> Taken(rs, k) }

  /** With nothing refused, the nodes of the trie are a function of the set of patterns. */
  lemma {:induction false} BuildSpots(rs: seq<Route>, pos: Position)
    requires AllSane(rs) && AllTaken(rs)
    ensures Has(Build(rs).root, pos) <==> Spot(Tails(rs), pos)
  {
    if rs == [] {
    } else {
      var n := |rs| - 1;
      var init, p := rs[..n], Tail(rs[n]);
      forall k | 0 <= k < n ensures Taken(init, k) { assert Taken(rs, k) && init[..k] == rs[..k]; }
      BuildWellFormed(init);
      assert Taken(rs, n);
      InsertHas(Build(init).root, p, rs[n].verb, rs[n].chain, pos);
      BuildSpots(init, pos);
      assert Tails(rs) == Tails(init) + {p} by { TailsSplit(rs); }
      forall x | Has(Build(init).root, x) ensures Spot(Tails(init), x) { BuildSpots(init, x); }
      forall x | Spot(Tails(init), x) ensures Has(Build(init).root, x) { BuildSpots(init, x); }
      SpotGrows(Build(init).root, Tails(init), p, pos);
    }
  }

  lemma TailsSplit(rs: seq<Route>)
    requires rs != []
    ensures Tails(rs) == Tails(rs[..|rs| - 1]) + {Tail(rs[|rs| - 1])}
  {
    var n := |rs| - 1;
    forall x | x in Tails(rs) ensures x in Tails(rs[..n]) + {Tail(rs[n])} {
      var k :| 0 <= k < |rs| && x == Tail(rs[k]);
      if k < n { assert rs[..n][k] == rs[k]; }
    }
    forall x | x in Tails(rs[..n]) ensures x in Tails(rs) {
      var k :| 0 <= k < n && x == Tail(rs[..n][k]);
      assert rs[k] == rs[..n][k];
    }
  }

  /** Adding one more pattern to the set is what one successful insertion does to the nodes. */
  lemma SpotGrows(t: Node, tails: set<string>, p: string, pos: Position)
    requires forall x :: Has(t, x) <==> Spot(tails, x)
    ensures Wanted(t, p, pos) <==> Spot(tails + {p}, pos)
  {
    var all := tails + {p};
    var w := Tokens(p);
    if x :| Has(t, x) && Meet(x, w) == pos {
      SpotMeets(tails, p, x);
    }
    if a, b :| a in all && b in all && Meet(Tokens(a), Tokens(b)) == pos {
      MeetSymmetric(Tokens(a), Tokens(b));
      EndIsStop(a);
      EndIsStop(b);
      if a in tails && b !in tails {
        assert Has(t, Tokens(a)) && Meet(Tokens(a), w) == pos;
      } else if a !in tails && b in tails {
        assert Has(t, Tokens(b)) && Meet(Tokens(b), w) == pos;
      } else if a !in tails {
        MeetUnique(w, w, w);
      }
    }
  }

  lemma MeetSymmetric(x: Position, y: Position)
    ensures Meet(x, y) == Meet(y, x)
  {
    MeetPrefix(x, y);
    MeetUnique(y, x, Meet(x, y));
  }

  /** Where a node of the set parts from a new pattern is a spot of the larger set. */
  lemma SpotMeets(tails: set<string>, p: string, x: Position)
    requires Spot(tails, x)
    ensures Spot(tails + {p}, Meet(x, Tokens(p)))
  {
    var all, w := tails + {p}, Tokens(p);
    if x == [] {
    } else if q :| q in tails && Stop(q, x) {
      StopIsPrefix(q, x);
      MeetOfPrefix(x, Tokens(q), w);
      assert q in all && p in all;
    } else {
      var a, b :| a in tails && b in tails && Meet(Tokens(a), Tokens(b)) == x;
      MeetPrefix(Tokens(a), Tokens(b));
      MeetOfPrefix(x, Tokens(a), w);
      assert a in all && b in all && p in all;
    }
  }

  /** The same routes, in two orders that both succeed, give tables that agree on every lookup. */
  lemma OrderIndependent(rs: seq<Route>, qs: seq<Route>, m: Method, path: string)
    requires AllSane(rs) && AllTaken(rs) && AllSane(qs) && AllTaken(qs)
    requires forall r :: r in rs <==> r in qs
    ensures Lookup(Build(rs), m, path) == Lookup(Build(qs), m, path)
  {
    hide *;
    var s, t := Build(rs).root, Build(qs).root;
    BuildWellFormed(rs);
    BuildWellFormed(qs);
    SameTails(rs, qs);
    SameTails(qs, rs);
    forall pos ensures Has(s, pos) == Has(t, pos) && Meth(s, pos) == Meth(t, pos) { SameAt(rs, qs, pos); }
    AlikeWhen(s, t);
    if path != "" && path[0] == '/' { AlikeSearch(s, t, path, 1, m, []); }
    LookupIs(Build(rs), m, path);
    LookupIs(Build(qs), m, path);
  }

  /** Two orders of the same accepted routes agree at every position. */
  lemma SameAt(rs: seq<Route>, qs: seq<Route>, pos: Position)
    requires AllSane(rs) && AllTaken(rs) && AllSane(qs) && AllTaken(qs)
    requires (forall r :: r in rs <==> r in qs) && Tails(rs) == Tails(qs)
    ensures Has(Build(rs).root, pos) == Has(Build(qs).root, pos) && Meth(Build(rs).root, pos) == Meth(Build(qs).root, pos)
  {
    hide *;
    BuildSpots(rs, pos);
    BuildSpots(qs, pos);
    MethSubset(rs, qs, pos);
    MethSubset(qs, rs, pos);
    assert Meth(Build(rs).root, pos).Keys == Meth(Build(qs).root, pos).Keys;
  }

  lemma LookupIs(tab: Table, m: Method, path: string)
    ensures Lookup(tab, m, path) == if path == "" || path[0] != '/' then None else Search(tab.root, path, 1, m, [])
  {
  }

  lemma SameTails(rs: seq<Route>, qs: seq<Route>)
    requires forall r :: r in rs ==> r in qs
    ensures Tails(rs) <= Tails(qs)
  {
    forall x | x in Tails(rs) ensures x in Tails(qs) {
      var k :| 0 <= k < |rs| && x == Tail(rs[k]);
      assert rs[k] in qs;
      var j :| 0 <= j < |qs| && qs[j] == rs[k];
    }
  }

  lemma MethSubset(rs: seq<Route>, qs: seq<Route>, pos: Position)
    requires AllSane(rs) && AllTaken(rs) && AllSane(qs) && AllTaken(qs)
    requires forall r :: r in rs ==> r in qs
    ensures forall m :: m in Meth(Build(rs).root, pos) ==>
              m in Meth(Build(qs).root, pos) && Meth(Build(qs).root, pos)[m] == Meth(Build(rs).root, pos)[m]
  {
    forall m | m in Meth(Build(rs).root, pos)
      ensures m in Meth(Build(qs).root, pos) && Meth(Build(qs).root, pos)[m] == Meth(Build(rs).root, pos)[m]
    {
      var k := BuildMeth(rs, pos, m);
      assert rs[k] in qs;
      var j :| 0 <= j < |qs| && qs[j] == rs[k];
      assert Taken(qs, j);
      TakenStays(qs, j);
    }
  }
}
