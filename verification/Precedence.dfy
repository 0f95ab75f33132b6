/** Static routes come first: a request for exactly a registered static pattern gets its handlers, whatever
    parameter and catch-all routes were registered beside it. */
module Precedence {
  import opened Text
  import opened Patterns
  import opened Trie
  import opened TrieSearch
  import opened TrieRoutes
  import opened Routing

  /** No parameter and no catch-all in the pattern. */
  predicate AllStatic(p: string) { ':' !in p && '*' !in p }

  lemma {:induction false} StaticFill(p: string)
    requires AllStatic(p)
    ensures GoodValues(p, []) && Fill(p, []) == p && ParCount(Tokens(p)) == 0
  {
    if p != "" {
      StaticFill(p[1..]);
      assert p == [p[0]] + p[1..];
      assert Tokens(p) == if p[0] == '/' then Tokens(p[1..]) else [Lit(p[0])] + Tokens(p[1..]);
    }
  }

  /** Two static children never both pass. */
  lemma OneStatic(t: Node, path: string, i: nat, a: nat, b: nat)
    requires WellFormed(t) && i < |path| && a < |t.children| && b < |t.children|
    requires t.children[a].kind == Static && Passes(t.children[a], path, i)
    requires t.children[b].kind == Static && Passes(t.children[b], path, i)
    ensures a == b
  {
    var c, d := t.children[a], t.children[b];
    assert WellFormedEdge(c) && WellFormedEdge(d);
    assert c.path[0] == path[i..][0] == d.path[0];
    assert Clash(c, d) && Clash(d, c);
  }

  /** No accepting trace comes before one that captures nothing. */
  lemma {:induction false} NothingBefore(t: Node, path: string, i: nat, m: Method, ks: Trace, ls: Trace)
    requires WellFormed(t) && i <= |path| && Accepts(t, path, i, m, ks) && Accepts(t, path, i, m, ls)
    requires Run(t, path, i, m, ks).value.captures == []
    ensures !Before(t, ls, ks)
    decreases t
  {
    if ks != [] && ls != [] && ls[0] < |t.children| {
      var c, d := t.children[ks[0]], t.children[ls[0]];
      StepRun(t, path, i, m, ks);
      StepRun(t, path, i, m, ls);
      assert c.kind == Static;
      if d.kind == Static {
        OneStatic(t, path, i, ks[0], ls[0]);
        assert WellFormed(c);
        hide WellFormed, Run, Passes, Land;
        NothingBefore(c, path, Land(c, path, i), m, ks[1..], ls[1..]);
      }
    }
  }

  lemma StepRun(t: Node, path: string, i: nat, m: Method, ks: Trace)
    requires i <= |path| && Accepts(t, path, i, m, ks) && ks != []
    ensures i < |path| && ks[0] < |t.children|
    ensures var c := t.children[ks[0]];
      && Passes(c, path, i) && Accepts(c, path, Land(c, path, i), m, ks[1..])
      && Run(t, path, i, m, ks).value.captures == Captured(c, path, i) + Run(c, path, Land(c, path, i), m, ks[1..]).value.captures
      && (Run(t, path, i, m, ks).value.captures == [] ==>
            c.kind == Static && Run(c, path, Land(c, path, i), m, ks[1..]).value.captures == [])
  {
  }

  /** After any history of registrations, looking up an accepted static pattern as a path gives exactly its
      handlers and no captures. */
  lemma StaticRouteWins(rs: seq<Route>, k: nat)
    requires AllSane(rs) && k < |rs| && Taken(rs, k) && AllStatic(rs[k].pattern)
    ensures Lookup(Build(rs), rs[k].verb, rs[k].pattern) == Some(Match(rs[k].chain, []))
  {
    var t, m, path := Build(rs).root, rs[k].verb, rs[k].pattern;
    var p := Tail(rs[k]);
    BuildWellFormed(rs);
    TakenStays(rs, k);
    forall pos | Stop(p, pos) ensures Has(t, pos) { TakenHolds(rs, k, pos); }
    assert AllStatic(p) && path[1..] == p;
    StaticFill(p);
    var ks := Completes(t, p, m, [], path, 1);
    TraceRoute(t, path, 1, m, ks);
    FoundFirst(t, path, m, ks);
  }

  lemma FoundFirst(t: Node, path: string, m: Method, ks: Trace)
    requires WellFormed(t) && path != "" && Accepts(t, path, 1, m, ks)
    requires Run(t, path, 1, m, ks).value.captures == [] && Params(t, ks) == 0
    ensures Search(t, path, 1, m, []) == Some(Match(Run(t, path, 1, m, ks).value.chain, []))
  {
    var best := SearchFirst(t, path, 1, m, []);
    assert Eligible(t, path, 1, m, [], ks);
    hide WellFormed, Run, Search, Before, Params;
    if ks != best { NothingBefore(t, path, 1, m, ks, best); }
  }
}
