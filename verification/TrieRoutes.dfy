/** Traces against routes: what a match means, which routes are always matched, and what a search depends on. */
module TrieRoutes {
  import opened Text
  import opened Patterns
  import opened Trie
  import opened TrieSearch

  /** The position a trace walks to. */
  function Spelled(t: Node, ks: Trace): Position
    decreases t
  {
    if ks == [] || ks[0] >= |t.children| then []
    else t.children[ks[0]].Edge() + Spelled(t.children[ks[0]], ks[1..])
  }

  function Slice(path: string, c: Capture): string {
    if c.start + c.len <= |path| then path[c.start..c.start + c.len] else ""
  }

  function Values(path: string, caps: seq<Capture>): seq<string> {
    seq(|caps|, i requires 0 <= i < |caps| => Slice(path, caps[i]))
  }

  /** A token string with its parameters replaced, in order, by `vs`. */
  function Instantiate(w: Position, vs: seq<string>): string {
    if w == [] then ""
    else match w[0]
      case Lit(c) => [c] + Instantiate(w[1..], vs)
      case _ => if vs == [] then Instantiate(w[1..], vs) else vs[0] + Instantiate(w[1..], vs[1..])
  }

  function ParCount(w: Position): nat {
    if w == [] then 0 else (if w[0].Par? then 1 else 0) + ParCount(w[1..])
  }

  lemma {:induction false} LitsAround(s: string, w: Position, vs: seq<string>)
    ensures Instantiate(Lits(s) + w, vs) == s + Instantiate(w, vs)
    ensures ParCount(Lits(s) + w) == ParCount(w)
  {
    if s == "" {
      assert Lits(s) + w == w;
    } else {
      var c, b := s[0], s[1..];
      hide *;
      HeadTail(s);
      LitsAround(b, w, vs);
      LitsCons(c, b);
      Assoc([Lit(c)], Lits(b), w);
      LitFirst(c, Lits(b) + w, vs);
      Assoc([c], b, Instantiate(w, vs));
    }
  }

  lemma LitFirst(c: char, w: Position, vs: seq<string>)
    ensures Instantiate([Lit(c)] + w, vs) == [c] + Instantiate(w, vs) && ParCount([Lit(c)] + w) == ParCount(w)
  {
    assert ([Lit(c)] + w)[1..] == w;
  }

  /** Positions below a child are the child's positions behind its edge. */
  lemma AtEdge(t: Node, k: nat, q: Position)
    requires WellFormed(t) && k < |t.children|
    ensures t.children[k].Edge() != []
    ensures At(t, t.children[k].Edge() + q) == At(t.children[k], q)
  {
    var c := t.children[k];
    assert WellFormedEdge(c);
    var e := c.Edge();
    assert (e + q)[0] == e[0] && (e + q)[|e|..] == q;
    PickUnique(t.children, k, e[0]);
  }

  /** The chain a trace ends at is the one stored at the position it spells. */
  lemma {:induction false} TraceRoute(t: Node, path: string, i: nat, m: Method, ks: Trace)
    requires WellFormed(t) && i <= |path| && Accepts(t, path, i, m, ks)
    ensures m in Meth(t, Spelled(t, ks)) && Meth(t, Spelled(t, ks))[m] == Run(t, path, i, m, ks).value.chain
    ensures Params(t, ks) == ParCount(Spelled(t, ks))
    decreases t
  {
    if ks != [] {
      var c := t.children[ks[0]];
      TraceRoute(c, path, Land(c, path, i), m, ks[1..]);
      AtEdge(t, ks[0], Spelled(c, ks[1..]));
      ParCountEdge(c, Spelled(c, ks[1..]));
    }
  }

  lemma ParCountEdge(c: Node, w: Position)
    ensures ParCount(c.Edge() + w) == (if c.kind == Param then 1 else 0) + ParCount(w)
  {
    match c.kind
    case Static => LitsAround(c.path, w, []);
    case Param => assert (c.Edge() + w)[1..] == w;
    case CatchAll => assert (c.Edge() + w)[1..] == w;
  }

  /** The spelled route, filled with the captured values, is the path up to slashes. */
  lemma {:induction false} TraceText(t: Node, path: string, i: nat, m: Method, ks: Trace)
    requires i <= |path| && Accepts(t, path, i, m, ks)
    ensures DeSlash(path[i..]) == DeSlash(Instantiate(Spelled(t, ks), Values(path, Run(t, path, i, m, ks).value.captures)))
    decreases t
  {
    if ks != [] {
      var c := t.children[ks[0]];
      var j := Land(c, path, i);
      TraceText(c, path, j, m, ks[1..]);
      var tail := Run(c, path, j, m, ks[1..]).value.captures;
      assert Run(t, path, i, m, ks).value.captures == Captured(c, path, i) + tail;
      EdgeText(c, path, i, Spelled(c, ks[1..]), tail);
    }
  }

  lemma EdgeText(c: Node, path: string, i: nat, w: Position, tail: seq<Capture>)
    requires i <= |path| && Passes(c, path, i)
    requires DeSlash(path[Land(c, path, i)..]) == DeSlash(Instantiate(w, Values(path, tail)))
    ensures DeSlash(path[i..]) == DeSlash(Instantiate(c.Edge() + w, Values(path, Captured(c, path, i) + tail)))
  {
    if c.kind == Static {
      StaticText(c, path, i, w, tail);
    } else {
      WildText(c, path, i, w, tail);
    }
  }

  lemma StaticText(c: Node, path: string, i: nat, w: Position, tail: seq<Capture>)
    requires i <= |path| && c.kind == Static && Passes(c, path, i)
    requires DeSlash(path[Land(c, path, i)..]) == DeSlash(Instantiate(w, Values(path, tail)))
    ensures DeSlash(path[i..]) == DeSlash(Instantiate(c.Edge() + w, Values(path, Captured(c, path, i) + tail)))
  {
    hide DeSlash, Instantiate, Values;
    var j := i + |c.path|;
    assert Captured(c, path, i) + tail == tail;
    LitsAround(c.path, w, Values(path, tail));
    assert path[i..j] == c.path;
    Chunk(path, i, j, Instantiate(w, Values(path, tail)));
  }

  lemma WildText(c: Node, path: string, i: nat, w: Position, tail: seq<Capture>)
    requires i <= |path| && c.kind != Static && Passes(c, path, i)
    requires DeSlash(path[Land(c, path, i)..]) == DeSlash(Instantiate(w, Values(path, tail)))
    ensures DeSlash(path[i..]) == DeSlash(Instantiate(c.Edge() + w, Values(path, Captured(c, path, i) + tail)))
  {
    hide DeSlash, IndexOf;
    var vs := Values(path, Captured(c, path, i) + tail);
    var j := i + Captured(c, path, i)[0].len;
    assert vs[0] == path[i..j];
    assert vs[1..] == Values(path, tail);
    assert (c.Edge() + w)[0] == c.Edge()[0] && (c.Edge() + w)[1..] == w;
    Chunk(path, i, j, Instantiate(w, vs[1..]));
  }

  /** A chunk of path, one optional slash, and the rest. */
  lemma Chunk(path: string, i: nat, j: nat, rest: string)
    requires i <= j <= |path| && DeSlash(path[AfterSlash(path, j)..]) == DeSlash(rest)
    ensures DeSlash(path[i..]) == DeSlash(path[i..j] + rest)
  {
    assert path[i..] == path[i..j] + path[j..];
    DeSlashConcat(path[i..j], path[j..]);
    DeSlashSkip(path[j..]);
    DeSlashConcat(path[i..j], rest);
  }

  /** Non-empty slices, left to right, none overlapping the next. */
  predicate InOrder(caps: seq<Capture>, lo: nat, hi: nat) {
    caps == [] || (lo <= caps[0].start && caps[0].len > 0 && caps[0].start + caps[0].len <= hi
                   && InOrder(caps[1..], caps[0].start + caps[0].len, hi))
  }

  lemma {:induction false} InOrderWeaken(caps: seq<Capture>, lo: nat, lo': nat, hi: nat)
    requires lo' <= lo && InOrder(caps, lo, hi)
    ensures InOrder(caps, lo', hi)
  {
  }

  lemma {:induction false} InOrderPrefix(caps: seq<Capture>, n: nat, lo: nat, hi: nat)
    requires n <= |caps| && InOrder(caps, lo, hi)
    ensures InOrder(caps[..n], lo, hi)
  {
    if n > 0 {
      InOrderPrefix(caps[1..], n - 1, caps[0].start + caps[0].len, hi);
      assert caps[..n][1..] == caps[1..][..n - 1];
    }
  }

  /** Slices in order are in bounds and pairwise disjoint. */
  lemma {:induction false} InOrderDisjoint(caps: seq<Capture>, lo: nat, hi: nat)
    requires InOrder(caps, lo, hi)
    ensures forall a :: 0 <= a < |caps| ==> lo <= caps[a].start && caps[a].len > 0 && caps[a].start + caps[a].len <= hi
    ensures forall a, b :: 0 <= a < b < |caps| ==> caps[a].start + caps[a].len <= caps[b].start
  {
    if caps != [] {
      InOrderDisjoint(caps[1..], caps[0].start + caps[0].len, hi);
      assert forall a :: 0 < a < |caps| ==> caps[a] == caps[1..][a - 1];
    }
  }

  /** A trace captures left to right. */
  lemma {:induction false} TraceOrder(t: Node, path: string, i: nat, m: Method, ks: Trace)
    requires i <= |path| && Accepts(t, path, i, m, ks)
    ensures InOrder(Run(t, path, i, m, ks).value.captures, i, |path|)
    decreases t
  {
    if ks != [] {
      var c := t.children[ks[0]];
      var j := Land(c, path, i);
      TraceOrder(c, path, j, m, ks[1..]);
      OrderStep(c, path, i, Run(c, path, j, m, ks[1..]).value.captures);
    }
  }

  lemma OrderStep(c: Node, path: string, i: nat, tail: seq<Capture>)
    requires i < |path| && Passes(c, path, i) && InOrder(tail, Land(c, path, i), |path|)
    ensures InOrder(Captured(c, path, i) + tail, i, |path|)
  {
    var j := Land(c, path, i);
    var caps := Captured(c, path, i) + tail;
    hide InOrder;
    if c.kind == Static {
      assert caps == tail;
      InOrderWeaken(tail, j, i, |path|);
    } else {
      assert caps[1..] == tail;
      InOrderWeaken(tail, j, caps[0].start + caps[0].len, |path|);
      InOrderCons(caps, i, |path|);
    }
  }

  lemma InOrderCons(caps: seq<Capture>, lo: nat, hi: nat)
    requires caps != [] && lo <= caps[0].start && caps[0].len > 0 && caps[0].start + caps[0].len <= hi
    requires InOrder(caps[1..], caps[0].start + caps[0].len, hi)
    ensures InOrder(caps, lo, hi)
  {
  }

  // ---- Captures are keyed by the names of the pattern ---------------------

  /** The names of the parameters and the catch-all of a route, in order. */
  function WildNames(w: Position): seq<string> {
    if w == [] then []
    else
      match w[0]
      case Lit(_) => WildNames(w[1..])
      case Par(name) => [name] + WildNames(w[1..])
      case Any(name) => [name] + WildNames(w[1..])
  }

  function Keys(caps: seq<Capture>): seq<string> {
    seq(|caps|, i requires 0 <= i < |caps| => caps[i].key)
  }

  lemma {:induction false} NamesAround(s: string, w: Position)
    ensures WildNames(Lits(s) + w) == WildNames(w)
  {
    if s == "" {
      assert Lits(s) + w == w;
    } else {
      assert (Lits(s) + w)[1..] == Lits(s[1..]) + w;
      NamesAround(s[1..], w);
    }
  }

  /** What an edge captures is keyed by the name in the edge. */
  lemma EdgeKeys(c: Node, path: string, i: nat, w: Position, tail: seq<Capture>)
    requires i <= |path| && Keys(tail) == WildNames(w)
    ensures Keys(Captured(c, path, i) + tail) == WildNames(c.Edge() + w)
  {
    match c.kind
    case Static =>
      NamesAround(c.path, w);
      assert Captured(c, path, i) + tail == tail;
    case Param =>
      assert (c.Edge() + w)[1..] == w;
      assert Keys(Captured(c, path, i) + tail) == [c.paramName] + Keys(tail);
    case CatchAll =>
      assert (c.Edge() + w)[1..] == w;
      assert Keys(Captured(c, path, i) + tail) == [c.paramName] + Keys(tail);
  }

  /** A trace captures under the names of the route it spells. */
  lemma {:induction false} TraceKeys(t: Node, path: string, i: nat, m: Method, ks: Trace)
    requires i <= |path| && Accepts(t, path, i, m, ks)
    ensures Keys(Run(t, path, i, m, ks).value.captures) == WildNames(Spelled(t, ks))
    decreases t
  {
    if ks != [] {
      var c := t.children[ks[0]];
      var j := Land(c, path, i);
      TraceKeys(c, path, j, m, ks[1..]);
      EdgeKeys(c, path, i, Spelled(c, ks[1..]), Run(c, path, j, m, ks[1..]).value.captures);
    }
  }

  // ---- Every registered route is matched ----------------------------------

  /** The text of a pattern with its parameters replaced by `vs`, slashes kept. */
  function Fill(p: string, vs: seq<string>): string
    decreases |p|
  {
    if p == "" then ""
    else if p[0] == ':' then
      var k := IndexOf(p, '/', 0);
      (if vs == [] then "" else vs[0]) +
      (if k < |p| then "/" + Fill(p[k + 1..], if vs == [] then [] else vs[1..]) else "")
    else if p[0] == '*' then (if vs == [] then "" else vs[0])
    else [p[0]] + Fill(p[1..], vs)
  }

  /** One non-empty slash-free value for each parameter; a catch-all tail is non-empty and does not start with '/'. */
  predicate GoodValues(p: string, vs: seq<string>)
    decreases |p|
  {
    if p == "" then vs == []
    else if p[0] == ':' then vs != [] && vs[0] != "" && '/' !in vs[0] && GoodValues(AfterParam(p), vs[1..])
    else if p[0] == '*' then |vs| == 1 && vs[0] != "" && vs[0][0] != '/'
    else GoodValues(p[1..], vs)
  }

  lemma {:induction false} FillRun(a: string, q: string, vs: seq<string>)
    requires Plain(a)
    ensures Fill(a + q, vs) == a + Fill(q, vs)
    ensures GoodValues(a + q, vs) == GoodValues(q, vs)
  {
    if a == "" {
      assert a + q == q;
    } else {
      var c, b := a[0], a[1..];
      assert !Special(c) && Plain(b);
      hide *;
      HeadTail(a);
      FillRun(b, q, vs);
      FillCons(c, b + q, vs);
      Assoc([c], b, q);
      Assoc([c], b, Fill(q, vs));
    }
  }

  lemma FillCons(c: char, q: string, vs: seq<string>)
    requires !Special(c)
    ensures Fill([c] + q, vs) == [c] + Fill(q, vs) && GoodValues([c] + q, vs) == GoodValues(q, vs)
  {
    assert ([c] + q)[1..] == q;
  }

  /** Skipping the pattern's slash is skipping the path's slash. */
  lemma FillSkip(p: string, vs: seq<string>)
    requires GoodValues(p, vs)
    ensures SkipSlash(Fill(p, vs)) == Fill(SkipSlash(p), vs)
    ensures GoodValues(SkipSlash(p), vs)
  {
    if p != "" && p[0] == ':' { assert Fill(p, vs)[0] == vs[0][0]; }
  }

  /** The trie has a node at every stop of the pattern. */
  ghost predicate Holds(t: Node, p: string) { forall pos :: Stop(p, pos) ==> Has(t, pos) }

  /** No label of the trie runs across a stop of a pattern it holds. */
  lemma LabelFits(t: Node, p: string)
    requires WellFormed(t) && Clean(p) && p != "" && !Special(p[0]) && Holds(t, p)
    ensures var k := Pick(t.children, Lit(p[0])); k < |t.children| && t.children[k].path <= p
  {
    EndIsStop(p);
    var r := RunLength(p);
    GapRun(p, r);
    TokensLits(p, r);
    StopsLits(p, r, Lits(p[..r]));
    assert Has(t, Tokens(p)) && Has(t, Lits(p[..r]));
    var c := t.children[Pick(t.children, Lit(p[0]))];
    assert c.Edge() <= Lits(p[..r]);
    assert forall j :: 0 <= j < |c.path| ==> c.Edge()[j] == Lits(p[..r])[j] == Lit(p[j]);
  }

  lemma HoldsBelow(t: Node, k: nat, p: string, q: string)
    requires WellFormed(t) && k < |t.children| && Holds(t, p)
    requires forall pos :: Stop(q, pos) ==> Stop(p, t.children[k].Edge() + pos) || pos == []
    ensures Holds(t.children[k], q)
  {
    hide WellFormed, InnerStop;
    forall pos | Stop(q, pos) ensures Has(t.children[k], pos) {
      if pos != [] {
        AtEdge(t, k, pos);
        assert Stop(p, t.children[k].Edge() + pos);
      }
    }
  }

  /** Below the label, the child holds the rest of the pattern. */
  lemma HoldsAfterLabel(t: Node, k: nat, p: string)
    requires WellFormed(t) && Clean(p) && Holds(t, p) && k < |t.children|
    requires var c := t.children[k]; c.kind == Static && c.path <= p
    ensures var c := t.children[k]; var q := SkipSlash(p[|c.path|..]);
      Holds(c, q) && Clean(q) && Meth(c, Tokens(q)) == Meth(t, Tokens(p)) && Tokens(p) == c.Edge() + Tokens(q)
  {
    var c := t.children[k];
    var n := |c.path|;
    var q := SkipSlash(p[n..]);
    assert WellFormedEdge(c);
    assert p[..n] == c.path;
    GapRun(p, n);
    TokensLits(p, n);
    AtEdge(t, k, Tokens(q));
    forall pos | Stop(q, pos) ensures Stop(p, c.Edge() + pos) || pos == [] {
      if pos != [] {
        var w := c.Edge() + pos;
        StopsLits(p, n, w);
        assert w[..n] == Lits(p[..n]) && w[n..] == pos;
      }
    }
    HoldsBelow(t, k, p, q);
  }

  /** A pattern the trie holds, with good values filled in, has an accepting trace that spells it and captures them. */
  lemma {:induction false} Completes(t: Node, p: string, m: Method, vs: seq<string>, path: string, i: nat) returns (ks: Trace)
    requires WellFormed(t) && Clean(p) && Holds(t, p) && m in Meth(t, Tokens(p))
    requires GoodValues(p, vs) && i <= |path| && path[i..] == Fill(p, vs)
    ensures Accepts(t, path, i, m, ks) && Spelled(t, ks) == Tokens(p)
    ensures Values(path, Run(t, path, i, m, ks).value.captures) == vs
    decreases |p|
  {
    if p == "" {
      ks := [];
    } else if p[0] == ':' {
      ks := CompletesParam(t, p, m, vs, path, i);
    } else if p[0] == '*' {
      ks := CompletesAny(t, p, m, vs, path, i);
    } else {
      ks := CompletesStatic(t, p, m, vs, path, i);
    }
  }

  /** One edge in front of an accepting trace. */
  lemma ThroughEdge(t: Node, k: nat, path: string, i: nat, m: Method, ls: Trace)
    requires i < |path| && k < |t.children| && Passes(t.children[k], path, i)
    requires Accepts(t.children[k], path, Land(t.children[k], path, i), m, ls)
    ensures var c := t.children[k];
      var below := Run(c, path, Land(c, path, i), m, ls).value.captures;
      && Accepts(t, path, i, m, [k] + ls)
      && Spelled(t, [k] + ls) == c.Edge() + Spelled(c, ls)
      && Values(path, Run(t, path, i, m, [k] + ls).value.captures) == Values(path, Captured(c, path, i)) + Values(path, below)
  {
    hide Run, Passes, Land, Captured, IndexOf, Slice;
    PrependRun(t, k, path, i, m, ls);
    assert ([k] + ls)[1..] == ls;
    hide Spelled;
  }

  lemma {:induction false} CompletesStatic(t: Node, p: string, m: Method, vs: seq<string>, path: string, i: nat) returns (ks: Trace)
    requires WellFormed(t) && Clean(p) && Holds(t, p) && m in Meth(t, Tokens(p)) && p != "" && !Special(p[0])
    requires GoodValues(p, vs) && i <= |path| && path[i..] == Fill(p, vs)
    ensures Accepts(t, path, i, m, ks) && Spelled(t, ks) == Tokens(p)
    ensures Values(path, Run(t, path, i, m, ks).value.captures) == vs
    decreases |p|, 0
  {
    LabelFits(t, p);
    var k := Pick(t.children, Lit(p[0]));
    var c := t.children[k];
    var n := |c.path|;
    StaticPasses(t, p, k, vs, path, i);
    HoldsAfterLabel(t, k, p);
    var below := Completes(c, SkipSlash(p[n..]), m, vs, path, Land(c, path, i));
    ks := [k] + below;
    hide *;
    ThroughEdge(t, k, path, i, m, below);
    assert Values(path, Captured(c, path, i)) == [] by { NoCapture(c, path, i); }
  }

  lemma NoCapture(c: Node, path: string, i: nat)
    requires c.kind == Static && i <= |path|
    ensures Values(path, Captured(c, path, i)) == []
  {
  }

  /** A filled-in pattern starts with the label that covers its first bytes. */
  lemma ChildOk(t: Node, k: nat)
    requires WellFormed(t) && k < |t.children|
    ensures WellFormed(t.children[k]) && (t.children[k].kind == Static ==> t.children[k].path != "" && Plain(t.children[k].path))
  {
    assert WellFormedEdge(t.children[k]);
  }

  lemma LandsStatic(c: Node, path: string, i: nat)
    requires c.kind == Static && i <= |path|
    ensures c.path <= path[i..] ==>
      i + |c.path| <= |path| && Passes(c, path, i) && path[Land(c, path, i)..] == SkipSlash(path[i + |c.path|..])
  {
    hide AfterSlash, SkipSlash;
  }

  /** A pattern that starts with a literal run, filled in, starts with it. */
  lemma FillLabel(p: string, lab: string, vs: seq<string>)
    requires lab <= p && Plain(lab) && GoodValues(p, vs)
    ensures var q := p[|lab|..];
      Fill(p, vs) == lab + Fill(q, vs) && SkipSlash(Fill(q, vs)) == Fill(SkipSlash(q), vs) && GoodValues(SkipSlash(q), vs)
  {
    hide *;
    var q := p[|lab|..];
    assert p == lab + q;
    FillRun(lab, q, vs);
    FillSkip(q, vs);
  }

  lemma StaticPasses(t: Node, p: string, k: nat, vs: seq<string>, path: string, i: nat)
    requires WellFormed(t) && k < |t.children| && t.children[k].kind == Static && t.children[k].path <= p
    requires GoodValues(p, vs) && i <= |path| && path[i..] == Fill(p, vs)
    ensures var c := t.children[k]; var q := SkipSlash(p[|c.path|..]);
      WellFormed(c) && i < |path| && Passes(c, path, i) && GoodValues(q, vs) && path[Land(c, path, i)..] == Fill(q, vs)
  {
    var c := t.children[k];
    var n := |c.path|;
    hide *;
    ChildOk(t, k);
    LandsStatic(c, path, i);
    FillLabel(p, c.path, vs);
    Behind(path, i, c.path, Fill(p[n..], vs));
  }

  lemma {:induction false} CompletesParam(t: Node, p: string, m: Method, vs: seq<string>, path: string, i: nat) returns (ks: Trace)
    requires WellFormed(t) && Clean(p) && Holds(t, p) && m in Meth(t, Tokens(p)) && p != "" && p[0] == ':'
    requires GoodValues(p, vs) && i <= |path| && path[i..] == Fill(p, vs)
    ensures Accepts(t, path, i, m, ks) && Spelled(t, ks) == Tokens(p)
    ensures Values(path, Run(t, path, i, m, ks).value.captures) == vs
    decreases |p|, 0
  {
    hide *;
    var k, q := Pick(t.children, Par(ParamName(p))), AfterParam(p);
    ParamFits(t, p);
    var c := t.children[k];
    ParamPasses(c, p, vs, path, i);
    var below := Completes(c, q, m, vs[1..], path, Land(c, path, i));
    ks := [k] + below;
    ThroughEdge(t, k, path, i, m, below);
    assert [vs[0]] + vs[1..] == vs;
  }

  lemma ParamPasses(c: Node, p: string, vs: seq<string>, path: string, i: nat)
    requires c.kind == Param && p != "" && p[0] == ':' && GoodValues(p, vs) && i <= |path| && path[i..] == Fill(p, vs)
    ensures vs != [] && i < |path| && Passes(c, path, i) && path[Land(c, path, i)..] == Fill(AfterParam(p), vs[1..])
    ensures GoodValues(AfterParam(p), vs[1..]) && Values(path, Captured(c, path, i)) == [vs[0]]
  {
    hide Fill, GoodValues, IndexOf;
    ValueEnds(p, vs, path, i);
    assert Captured(c, path, i) == [Capture(c.paramName, i, |vs[0]|)];
    assert Slice(path, Captured(c, path, i)[0]) == vs[0];
  }

  /** The parameter child a held pattern needs is there, with the pattern's name, and holds the rest. */
  lemma ParamFits(t: Node, p: string)
    requires WellFormed(t) && Clean(p) && Holds(t, p) && p != "" && p[0] == ':'
    ensures var k := Pick(t.children, Par(ParamName(p))); var q := AfterParam(p);
      && k < |t.children| && t.children[k].kind == Param && WellFormed(t.children[k])
      && t.children[k].Edge() == [Par(ParamName(p))]
      && Clean(q) && Holds(t.children[k], q)
      && Meth(t.children[k], Tokens(q)) == Meth(t, Tokens(p)) && Tokens(p) == t.children[k].Edge() + Tokens(q)
  {
    var tok := Par(ParamName(p));
    var k, q := Pick(t.children, tok), AfterParam(p);
    assert Stop(p, [tok]);
    assert Has(t, [tok]);
    var c := t.children[k];
    assert c.Edge() == [tok];
    assert WellFormed(c);
    hide WellFormed, At;
    AtEdge(t, k, Tokens(q));
    forall pos | Stop(q, pos) ensures Stop(p, c.Edge() + pos) || pos == [] {
      assert ([tok] + pos)[1..] == pos;
    }
    HoldsBelow(t, k, p, q);
  }

  /** A filled-in parameter is its value, then the end or a slash and the rest. */
  lemma ParamFill(p: string, vs: seq<string>)
    requires p != "" && p[0] == ':' && GoodValues(p, vs)
    ensures vs != [] && vs[0] != "" && '/' !in vs[0] && GoodValues(AfterParam(p), vs[1..])
    ensures vs[0] <= Fill(p, vs) && var rest := Fill(p, vs)[|vs[0]|..];
      Fill(p, vs) == vs[0] + rest && (rest != "" ==> rest[0] == '/') && SkipSlash(rest) == Fill(AfterParam(p), vs[1..])
  {
    hide GoodValues;
    ValueThere(p, vs);
    var k := IndexOf(p, '/', 0);
    var tail := if k < |p| then "/" + Fill(p[k + 1..], vs[1..]) else "";
    assert Fill(p, vs) == vs[0] + tail;
    assert Fill(p, vs)[|vs[0]|..] == tail;
    if k < |p| { assert tail[1..] == Fill(p[k + 1..], vs[1..]); }
  }

  lemma ValueThere(p: string, vs: seq<string>)
    requires p != "" && p[0] == ':' && GoodValues(p, vs)
    ensures vs != [] && vs[0] != "" && '/' !in vs[0] && GoodValues(AfterParam(p), vs[1..])
  {
  }

  lemma IndexAt(path: string, i: nat, j: nat)
    requires i <= j <= |path| && (j < |path| ==> path[j] == '/') && forall x :: i <= x < j ==> path[x] != '/'
    ensures IndexOf(path, '/', i) == j
  {
  }

  /** A slash-free value filled into a parameter is what the search cuts off there. */
  lemma ValueEnds(p: string, vs: seq<string>, path: string, i: nat)
    requires p != "" && p[0] == ':' && GoodValues(p, vs) && i <= |path| && path[i..] == Fill(p, vs)
    ensures vs != []
    ensures var j := i + |vs[0]|;
      j <= |path| && IndexOf(path, '/', i) == j && path[i..j] == vs[0]
      && i < j && path[AfterSlash(path, j)..] == Fill(AfterParam(p), vs[1..])
      && GoodValues(AfterParam(p), vs[1..])
  {
    ParamFill(p, vs);
    hide Fill, GoodValues, AfterSlash, SkipSlash;
    var j := i + |vs[0]|;
    var rest := Fill(p, vs)[|vs[0]|..];
    Behind(path, i, vs[0], rest);
    assert path[i..j] == path[i..][..|vs[0]|];
    assert forall x :: i <= x < j ==> path[x] == path[i..][x - i] == vs[0][x - i];
    IndexAt(path, i, j);
  }

  /** The catch-all child a held pattern needs is there, with its name and its handlers. */
  lemma AnyFits(t: Node, p: string)
    requires WellFormed(t) && Holds(t, p) && p != "" && p[0] == '*'
    ensures var k := Pick(t.children, Head(p));
      && k < |t.children| && t.children[k].kind == CatchAll && t.children[k].Edge() == [Head(p)] == Tokens(p)
      && t.children[k].methods == Meth(t, Tokens(p))
  {
    var k := Pick(t.children, Head(p));
    assert [Head(p)][1..] == [];
    assert Stop(p, [Head(p)]);
    hide WellFormed;
    assert Has(t, [Head(p)]);
    assert t.children[k].Edge() == [Head(p)];
    assert At(t, [Head(p)]) == Some(t.children[k]);
  }

  lemma AnyValue(p: string, vs: seq<string>)
    requires p != "" && p[0] == '*' && GoodValues(p, vs)
    ensures |vs| == 1 && vs[0] != "" && Fill(p, vs) == vs[0]
  {
  }

  /** The trace through a catch-all child takes the whole rest. */
  lemma AnyRun(t: Node, k: nat, path: string, i: nat, m: Method)
    requires WellFormed(t) && k < |t.children| && t.children[k].kind == CatchAll && m in t.children[k].methods && i < |path|
    ensures Accepts(t, path, i, m, [k]) && Spelled(t, [k]) == t.children[k].Edge()
    ensures Values(path, Run(t, path, i, m, [k]).value.captures) == [path[i..]]
  {
    var c := t.children[k];
    assert WellFormed(c);
    PrependRun(t, k, path, i, m, []);
    assert [k] + [] == [k] && [k][1..] == [] && c.Edge() + [] == c.Edge();
    assert Captured(c, path, i) + [] == [Capture(c.paramName, i, |path| - i)];
    assert path[i..i + (|path| - i)] == path[i..];
  }

  lemma CompletesAny(t: Node, p: string, m: Method, vs: seq<string>, path: string, i: nat) returns (ks: Trace)
    requires WellFormed(t) && Clean(p) && Holds(t, p) && m in Meth(t, Tokens(p)) && p != "" && p[0] == '*'
    requires GoodValues(p, vs) && i <= |path| && path[i..] == Fill(p, vs)
    ensures Accepts(t, path, i, m, ks) && Spelled(t, ks) == Tokens(p)
    ensures Values(path, Run(t, path, i, m, ks).value.captures) == vs
  {
    hide *;
    var k := Pick(t.children, Head(p));
    AnyFits(t, p);
    AnyValue(p, vs);
    var c := t.children[k];
    ks := [k];
    AnyRun(t, k, path, i, m);
    assert path[i..][0..] == path[i..];
  }

  // ---- A search depends only on what the trie denotes ---------------------

  ghost predicate Alike(s: Node, t: Node) { forall pos :: Has(s, pos) == Has(t, pos) && Meth(s, pos) == Meth(t, pos) }

  /** Tries that denote the same have the same edges at the root, leading to children that denote the same. */
  lemma AlikeChild(s: Node, t: Node, tok: Token)
    requires WellFormed(s) && WellFormed(t) && Alike(s, t)
    ensures var j, k := Pick(s.children, tok), Pick(t.children, tok);
      && (j < |s.children| <==> k < |t.children|)
      && (j < |s.children| ==> s.children[j].Edge() == t.children[k].Edge() && Alike(s.children[j], t.children[k]))
  {
    hide WellFormed, At;
    var j, k := Pick(s.children, tok), Pick(t.children, tok);
    if j < |s.children| { EdgeCovered(s, t, tok); }
    if k < |t.children| { EdgeCovered(t, s, tok); }
    if j < |s.children| {
      var c, d := s.children[j], t.children[k];
      assert c.Edge() == d.Edge();
      forall pos ensures Has(c, pos) == Has(d, pos) && Meth(c, pos) == Meth(d, pos) {
        AtEdge(s, j, pos);
        AtEdge(t, k, pos);
        var e := c.Edge() + pos;
        assert Has(s, e) == Has(t, e) && Meth(s, e) == Meth(t, e);
      }
    }
  }

  lemma AlikeHas(s: Node, t: Node, c: Node, x: Position)
    requires Alike(s, t) && At(s, x) == At(c, [])
    ensures Has(t, x)
  {
  }

  /** The branch a position lies on. */
  lemma BranchOf(t: Node, x: Position)
    requires Has(t, x) && x != []
    ensures var k := Pick(t.children, x[0]); k < |t.children| && t.children[k].Edge() <= x
  {
  }

  /** An edge of one trie is covered by the matching edge of the other. */
  lemma EdgeCovered(s: Node, t: Node, tok: Token)
    requires WellFormed(s) && WellFormed(t) && Alike(s, t) && Pick(s.children, tok) < |s.children|
    ensures Pick(t.children, tok) < |t.children|
    ensures t.children[Pick(t.children, tok)].Edge() <= s.children[Pick(s.children, tok)].Edge()
  {
    hide WellFormed, Pick, Alike, At;
    var j := Pick(s.children, tok);
    var e := s.children[j].Edge();
    AtEdge(s, j, []);
    assert e + [] == e;
    AlikeHas(s, t, s.children[j], e);
    BranchOf(t, e);
    PickIs(t.children, tok, Pick(t.children, e[0]));
  }

  lemma {:induction false} StaticPicked(t: Node, k: nat, path: string, i: nat, m: Method, caps: seq<Capture>)
    requires WellFormed(t) && k <= |t.children| && i < |path|
    ensures var s := Pick(t.children, Lit(path[i]));
      StaticFrom(t, k, path, i, m, caps) ==
        if k <= s < |t.children| && t.children[s].path <= path[i..]
        then Search(t.children[s], path, AfterSlash(path, i + |t.children[s].path|), m, caps) else None
    decreases |t.children| - k
  {
    hide *;
    if k < |t.children| {
      StaticPicked(t, k + 1, path, i, m, caps);
      StaticTakes(t, k, path, i);
      StaticUnfold(t, k, path, i, m, caps);
    } else {
      StaticEnd(t, path, i, m, caps);
    }
  }

  lemma StaticEnd(t: Node, path: string, i: nat, m: Method, caps: seq<Capture>)
    requires i < |path|
    ensures StaticFrom(t, |t.children|, path, i, m, caps).None?
  {
  }

  /** A label that matches the path takes its next byte; only the picked child can. */
  lemma StaticTakes(t: Node, k: nat, path: string, i: nat)
    requires WellFormed(t) && k < |t.children| && i < |path|
    ensures var c := t.children[k]; c.kind == Static && c.path <= path[i..] ==> Pick(t.children, Lit(path[i])) == k
    ensures Pick(t.children, Lit(path[i])) == k ==> t.children[k].kind == Static
  {
    var c := t.children[k];
    assert WellFormedEdge(c);
    PickOnly(t.children, Lit(path[i]));
    assert c.kind == Static && c.path <= path[i..] ==> c.path[0] == path[i..][0];
  }

  lemma {:induction false} ParamPicked(t: Node, k: nat, path: string, i: nat, m: Method, caps: seq<Capture>)
    requires WellFormed(t) && k <= |t.children| && i < |path|
    ensures var s := Pick(t.children, Par(""));
      var j := IndexOf(path, '/', i);
      ParamFrom(t, k, path, i, m, caps) ==
        if k <= s < |t.children| && i < j && |caps| < MAX_CAPTURES
        then Search(t.children[s], path, AfterSlash(path, j), m, caps + [Capture(t.children[s].paramName, i, j - i)]) else None
    decreases |t.children| - k
  {
    hide *;
    if k < |t.children| {
      ParamPicked(t, k + 1, path, i, m, caps);
      ParamTakes(t, k);
      ParamUnfold(t, k, path, i, m, caps);
    } else {
      ParamEnd(t, path, i, m, caps);
    }
  }

  lemma ParamEnd(t: Node, path: string, i: nat, m: Method, caps: seq<Capture>)
    requires i < |path|
    ensures ParamFrom(t, |t.children|, path, i, m, caps).None?
  {
  }

  lemma ParamTakes(t: Node, k: nat)
    requires WellFormed(t) && k < |t.children|
    ensures t.children[k].kind == Param <==> Pick(t.children, Par("")) == k
  {
    PickOnly(t.children, Par(""));
  }

  lemma {:induction false} AnyPicked(t: Node, k: nat, path: string, i: nat, m: Method, caps: seq<Capture>)
    requires WellFormed(t) && k <= |t.children| && i < |path|
    ensures var s := Pick(t.children, Any(""));
      AnyFrom(t, k, path, i, m, caps) ==
        if k <= s < |t.children| && HasHandler(t.children[s], m)
        then Some(Match(t.children[s].methods[m],
                        if |caps| < MAX_CAPTURES then caps + [Capture(t.children[s].paramName, i, |path| - i)] else caps))
        else None
    decreases |t.children| - k
  {
    hide *;
    if k < |t.children| {
      AnyPicked(t, k + 1, path, i, m, caps);
      AnyTakes(t, k);
      AnyUnfold(t, k, path, i, m, caps);
    } else {
      AnyEnd(t, path, i, m, caps);
    }
  }

  lemma AnyEnd(t: Node, path: string, i: nat, m: Method, caps: seq<Capture>)
    requires i < |path|
    ensures AnyFrom(t, |t.children|, path, i, m, caps).None?
  {
  }

  lemma AnyTakes(t: Node, k: nat)
    requires WellFormed(t) && k < |t.children|
    ensures t.children[k].kind == CatchAll <==> Pick(t.children, Any("")) == k
  {
    PickOnly(t.children, Any(""));
  }

  lemma AnyUnfold(t: Node, k: nat, path: string, i: nat, m: Method, caps: seq<Capture>)
    requires k < |t.children| && i < |path|
    ensures var c := t.children[k];
      && (c.kind == CatchAll && HasHandler(c, m) ==> m in c.methods)
      && AnyFrom(t, k, path, i, m, caps) ==
         if c.kind == CatchAll && HasHandler(c, m) then
           Some(Match(c.methods[m], if |caps| < MAX_CAPTURES then caps + [Capture(c.paramName, i, |path| - i)] else caps))
         else AnyFrom(t, k + 1, path, i, m, caps)
  {
  }

  /** Two well-formed tries that denote the same answer every search alike, whatever their split history. */
  lemma {:induction false} AlikeSearch(s: Node, t: Node, path: string, i: nat, m: Method, caps: seq<Capture>)
    requires WellFormed(s) && WellFormed(t) && Alike(s, t) && i <= |path|
    ensures Search(s, path, i, m, caps) == Search(t, path, i, m, caps)
    decreases s
  {
    hide *;
    AlikeRoot(s, t);
    SearchSplit(s, path, i, m, caps);
    SearchSplit(t, path, i, m, caps);
    HandlerOf(s, t, m);
    if i < |path| {
      AlikeStatic(s, t, path, i, m, caps);
      AlikeParam(s, t, path, i, m, caps);
      AnyPicked(s, 0, path, i, m, caps);
      AnyPicked(t, 0, path, i, m, caps);
      AlikeChild(s, t, Any(""));
      var j, k := Pick(s.children, Any("")), Pick(t.children, Any(""));
      if j < |s.children| {
        AlikeRoot(s.children[j], t.children[k]);
        HandlerOf(s.children[j], t.children[k], m);
        AnyNames(s.children[j], t.children[k]);
        AnyKind(s, j);
        AnyKind(t, k);
      }
    }
  }

  lemma HandlerOf(s: Node, t: Node, m: Method)
    requires s.methods == t.methods
    ensures HasHandler(s, m) == HasHandler(t, m) && (HasHandler(s, m) ==> m in s.methods)
  {
  }

  lemma AnyNames(c: Node, d: Node)
    requires c.Edge() == d.Edge()
    ensures c.kind == CatchAll && d.kind == CatchAll ==> c.paramName == d.paramName
  {
  }

  lemma AnyKind(t: Node, k: nat)
    requires k < |t.children| && Pick(t.children, Any("")) == k
    ensures t.children[k].kind == CatchAll
  {
  }

  lemma AlikeWhen(s: Node, t: Node)
    requires forall pos :: Has(s, pos) == Has(t, pos) && Meth(s, pos) == Meth(t, pos)
    ensures Alike(s, t)
  {
  }

  lemma AlikeRoot(s: Node, t: Node)
    requires Alike(s, t)
    ensures s.methods == t.methods
  {
    assert Meth(s, []) == Meth(t, []);
  }

  lemma {:induction false} AlikeStatic(s: Node, t: Node, path: string, i: nat, m: Method, caps: seq<Capture>)
    requires WellFormed(s) && WellFormed(t) && Alike(s, t) && i < |path|
    ensures StaticFrom(s, 0, path, i, m, caps) == StaticFrom(t, 0, path, i, m, caps)
    decreases s, 0
  {
    hide *;
    StaticPicked(s, 0, path, i, m, caps);
    StaticPicked(t, 0, path, i, m, caps);
    AlikeChild(s, t, Lit(path[i]));
    var j, k := Pick(s.children, Lit(path[i])), Pick(t.children, Lit(path[i]));
    if j < |s.children| {
      var c, d := s.children[j], t.children[k];
      AlikeLabel(s, t, path[i]);
      if c.path <= path[i..] { AlikeSearch(c, d, path, AfterSlash(path, i + |c.path|), m, caps); }
    }
  }

  lemma AlikeLabel(s: Node, t: Node, x: char)
    requires WellFormed(s) && WellFormed(t) && Alike(s, t) && Pick(s.children, Lit(x)) < |s.children|
    ensures Pick(t.children, Lit(x)) < |t.children|
    ensures var c, d := s.children[Pick(s.children, Lit(x))], t.children[Pick(t.children, Lit(x))];
      c.path == d.path && WellFormed(c) && WellFormed(d)
  {
    AlikeChild(s, t, Lit(x));
    var c, d := s.children[Pick(s.children, Lit(x))], t.children[Pick(t.children, Lit(x))];
    assert forall k :: 0 <= k < |c.path| ==> Lits(c.path)[k] == Lits(d.path)[k];
  }

  lemma ChildrenWellFormed(t: Node, k: nat)
    requires WellFormed(t) && k < |t.children|
    ensures WellFormed(t.children[k])
  {
  }

  lemma {:induction false} AlikeParam(s: Node, t: Node, path: string, i: nat, m: Method, caps: seq<Capture>)
    requires WellFormed(s) && WellFormed(t) && Alike(s, t) && i < |path|
    ensures ParamFrom(s, 0, path, i, m, caps) == ParamFrom(t, 0, path, i, m, caps)
    decreases s, 0
  {
    hide Search, ParamFrom, WellFormed, Alike, At, IndexOf;
    ParamPicked(s, 0, path, i, m, caps);
    ParamPicked(t, 0, path, i, m, caps);
    AlikeChild(s, t, Par(""));
    var a, b := Pick(s.children, Par("")), Pick(t.children, Par(""));
    if a < |s.children| {
      var j := IndexOf(path, '/', i);
      ChildrenWellFormed(s, a);
      ChildrenWellFormed(t, b);
      AlikeSearch(s.children[a], t.children[b], path, AfterSlash(path, j), m,
                  caps + [Capture(s.children[a].paramName, i, j - i)]);
    }
  }
}
