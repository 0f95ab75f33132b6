/** A node that is new in the middle of an edge lets paths through that did not pass before: for each such node,
    a path that is looked up differently. */
module TrieWitness {
  import opened Text
  import opened Patterns
  import opened Trie
  import opened TrieSearch
  import opened TrieRoutes
  import opened TrieInsert
  import opened TrieRefused

  // ---- Paths that spell a position ----------------------------------------

  /** A path for a route tail: parameters and catch-alls filled with one byte. */
  function Spelling(w: Position): string {
    if w == [] then ""
    else
      match w[0]
      case Lit(c) => [c] + Spelling(w[1..])
      case Par(_) => "x/" + Spelling(w[1..])
      case Any(_) => "x"
  }

  /** A path down to a position, parameter `k` filled with the byte `vs[k]`. */
  function Way(pos: Position, vs: string): string
    requires |vs| == |pos|
  {
    if pos == [] then ""
    else if pos[0].Lit? then [pos[0].c] + Way(pos[1..], vs[1..])
    else [vs[0], '/'] + Way(pos[1..], vs[1..])
  }

  /** What is captured on the way, from offset `i` on. */
  function Caught(pos: Position, i: nat): seq<Capture> {
    if pos == [] then []
    else
      match pos[0]
      case Lit(_) => Caught(pos[1..], i + 1)
      case Par(name) => [Capture(name, i, 1)] + Caught(pos[1..], i + 2)
      case Any(name) => [Capture(name, i, 1)]
  }

  /** The number of captures a route makes. */
  function Wilds(w: Position): nat { if w == [] then 0 else (if w[0].Lit? then 0 else 1) + Wilds(w[1..]) }

  lemma {:induction false} WildsConcat(u: Position, w: Position)
    ensures Wilds(u + w) == Wilds(u) + Wilds(w)
  {
    if u == [] {
      assert u + w == w;
    } else {
      assert (u + w)[1..] == u[1..] + w;
      WildsConcat(u[1..], w);
    }
  }

  lemma {:induction false} ParsAreWilds(w: Position)
    ensures ParCount(w) <= Wilds(w)
  {
    if w != [] { ParsAreWilds(w[1..]); }
  }

  /** Literal tokens are plain bytes, and catch-alls come last. */
  predicate Sound(w: Position) {
    && (forall k :: 0 <= k < |w| && w[k].Lit? ==> !Special(w[k].c))
    && (forall k :: 0 <= k < |w| - 1 ==> !w[k].Any?)
  }

  /** Below a child lie the branches that start with its edge. */
  lemma ChildHas(t: Node, x: Position)
    requires WellFormed(t) && Has(t, x) && x != []
    ensures var k := Pick(t.children, x[0]);
      && k < |t.children| && t.children[k].Edge() != [] && t.children[k].Edge() <= x
      && WellFormed(t.children[k]) && WellFormedEdge(t.children[k])
      && Has(t.children[k], x[|t.children[k].Edge()|..])
      && Meth(t.children[k], x[|t.children[k].Edge()|..]) == Meth(t, x)
  {
    BranchStarts(t, x);
    assert WellFormedEdge(t.children[Pick(t.children, x[0])]);
  }

  lemma SoundEdge(c: Node, q: Position)
    requires WellFormedEdge(c) && Sound(q) && (c.kind == CatchAll ==> q == [])
    ensures Sound(c.Edge() + q)
  {
    var e := c.Edge();
    assert forall k :: 0 <= k < |e| ==> (e + q)[k] == e[k];
    assert forall k :: |e| <= k < |e + q| ==> (e + q)[k] == q[k - |e|];
  }

  /** Every position of a trie is of that kind. */
  lemma {:induction false} PositionsSound(t: Node, x: Position)
    requires WellFormed(t) && Has(t, x)
    ensures Sound(x)
    decreases t
  {
    hide *;
    if x == [] {
      NothingSound();
    } else {
      ChildHas(t, x);
      var c := t.children[Pick(t.children, x[0])];
      var q := x[|c.Edge()|..];
      assert x == c.Edge() + q;
      LeafEnds(c, q);
      PositionsSound(c, q);
      SoundEdge(c, q);
    }
  }

  lemma NothingSound()
    ensures Sound([])
  {
  }

  lemma LeafEnds(c: Node, q: Position)
    requires WellFormed(c) && Has(c, q)
    ensures c.kind == CatchAll ==> q == []
  {
  }

  lemma {:induction false} SpellingRun(s: string, w: Position)
    ensures Spelling(Lits(s) + w) == s + Spelling(w)
  {
    if s == "" {
      assert Lits(s) + w == w;
    } else {
      assert (Lits(s) + w)[1..] == Lits(s[1..]) + w;
      SpellingRun(s[1..], w);
      assert s == [s[0]] + s[1..];
    }
  }

  lemma SpellingHead(w: Position)
    requires Sound(w)
    ensures Spelling(w) != "" ==> Spelling(w)[0] != '/'
  {
  }

  /** Every route of the trie is found under its spelling. */
  lemma {:induction false} SpellingAccepted(t: Node, w: Position, m: Method, path: string, i: nat) returns (ks: Trace)
    requires WellFormed(t) && m in Meth(t, w) && i <= |path| && path[i..] == Spelling(w)
    ensures Accepts(t, path, i, m, ks) && Params(t, ks) == ParCount(w)
    decreases t
  {
    hide *;
    if w == [] {
      ks := [];
      SpellingEnd(t, m, path, i);
    } else {
      var k := Pick(t.children, w[0]);
      HasHandlers(t, w, m);
      ChildHas(t, w);
      var c := t.children[k];
      var e := c.Edge();
      var q := w[|e|..];
      SpellingPasses(t, c, w, path, i);
      var below := SpellingAccepted(c, q, m, path, Land(c, path, i));
      ks := [k] + below;
      assert w == e + q;
      SpellingStep(t, k, w, q, path, i, m, below);
    }
  }

  lemma SpellingEnd(t: Node, m: Method, path: string, i: nat)
    requires WellFormed(t) && m in Meth(t, []) && i <= |path| && path[i..] == Spelling([])
    ensures Accepts(t, path, i, m, []) && Params(t, []) == ParCount([])
  {
  }

  lemma SpellingStep(t: Node, k: nat, w: Position, q: Position, path: string, i: nat, m: Method, below: Trace)
    requires i < |path| && k < |t.children| && Passes(t.children[k], path, i) && w == t.children[k].Edge() + q
    requires Accepts(t.children[k], path, Land(t.children[k], path, i), m, below) && Params(t.children[k], below) == ParCount(q)
    ensures Accepts(t, path, i, m, [k] + below) && Params(t, [k] + below) == ParCount(w)
  {
    hide Run, Params, ParCount, Passes, Land;
    PrependRun(t, k, path, i, m, below);
    PrependParams(t, k, below);
    ParCountEdge(t.children[k], q);
  }

  lemma HasHandlers(t: Node, w: Position, m: Method)
    requires m in Meth(t, w)
    ensures Has(t, w)
  {
  }

  lemma SpellingStatic(c: Node, w: Position, q: Position, path: string, i: nat)
    requires c.kind == Static && c.path != "" && w == Lits(c.path) + q
    requires Spelling(q) != "" ==> Spelling(q)[0] != '/'
    requires i <= |path| && path[i..] == Spelling(w)
    ensures i < |path| && Passes(c, path, i) && path[Land(c, path, i)..] == Spelling(q)
  {
    SpellingRun(c.path, q);
    hide Lits, Spelling;
    Behind(path, i, c.path, Spelling(q));
  }

  lemma SpellingParam(c: Node, w: Position, q: Position, path: string, i: nat)
    requires c.kind == Param && w != [] && w[0].Par? && w[1..] == q
    requires i <= |path| && path[i..] == Spelling(w)
    ensures i < |path| && Passes(c, path, i) && path[Land(c, path, i)..] == Spelling(q)
  {
    assert path[i..] == "x/" + Spelling(q);
    hide Spelling;
    Behind(path, i, "x/", Spelling(q));
    assert path[i..][0] == 'x' && path[i..][1] == '/';
    assert IndexOf(path, '/', i) == i + 1;
  }

  lemma SpellingAny(c: Node, w: Position, path: string, i: nat)
    requires c.kind == CatchAll && w == c.Edge() && i <= |path| && path[i..] == Spelling(w)
    ensures i < |path| && Passes(c, path, i) && path[Land(c, path, i)..] == Spelling([])
  {
  }

  lemma RestSound(w: Position, n: nat)
    requires Sound(w) && n <= |w|
    ensures Sound(w[n..])
  {
  }

  lemma SpellingPasses(t: Node, c: Node, w: Position, path: string, i: nat)
    requires WellFormed(t) && Has(t, w) && w != [] && i <= |path| && path[i..] == Spelling(w)
    requires var k := Pick(t.children, w[0]); k < |t.children| && c == t.children[k] && c.Edge() <= w && c.Edge() != []
    ensures i < |path| && Passes(c, path, i) && path[Land(c, path, i)..] == Spelling(w[|c.Edge()|..])
  {
    hide WellFormed, At, Pick, Sound, Spelling, Passes, Land;
    PositionsSound(t, w);
    ChildHas(t, w);
    var q := w[|c.Edge()|..];
    assert w == c.Edge() + q;
    RestSound(w, |c.Edge()|);
    SpellingHead(q);
    match c.kind
    case Static => SpellingStatic(c, w, q, path, i);
    case Param => SpellingParam(c, w, q, path, i);
    case CatchAll =>
      if q != [] { BranchStarts(c, q); }
      SpellingAny(c, w, path, i);
  }

  // ---- What a search adds to the captures ---------------------------------

  /** A search keeps the captures it is given; what it adds lies at or behind the offset it starts from. */
  lemma SearchExtends(t: Node, path: string, i: nat, m: Method, caps: seq<Capture>)
    requires i <= |path| && |caps| <= MAX_CAPTURES
    ensures var r := Search(t, path, i, m, caps);
      r.Some? ==> caps <= r.value.captures && (|r.value.captures| > |caps| ==> r.value.captures[|caps|].start >= i)
  {
    var r := Search(t, path, i, m, caps);
    var ks := SearchFirst(t, path, i, m, caps);
    if r.Some? {
      hide Search, Run, InOrder, Params;
      var e := Run(t, path, i, m, ks).value;
      TraceOrder(t, path, i, m, ks);
      OrderHead(e.captures, i, |path|);
    }
  }

  lemma OrderHead(caps: seq<Capture>, lo: nat, hi: nat)
    requires InOrder(caps, lo, hi)
    ensures caps != [] ==> caps[0].start >= lo
  {
  }

  /** Routes make at most so many captures. */
  ghost predicate AtMost(t: Node, n: nat) { forall x :: Has(t, x) ==> Wilds(x) <= n }

  lemma AtMostBelow(t: Node, k: nat, n: nat)
    requires WellFormed(t) && k < |t.children| && AtMost(t, n)
    ensures Wilds(t.children[k].Edge()) <= n && AtMost(t.children[k], n - Wilds(t.children[k].Edge()))
  {
    var c := t.children[k];
    var e := c.Edge();
    assert e + [] == e;
    forall y | y == [] || Has(c, y) ensures Wilds(e) + Wilds(y) <= n {
      AtEdge(t, k, y);
      assert Has(c, []);
      assert Has(t, e + y);
      WildsConcat(e, y);
    }
    assert Wilds([]) == 0;
  }

  lemma WildsEdge(c: Node)
    ensures Wilds(c.Edge()) == if c.kind == Static then 0 else 1
  {
    match c.kind
    case Static => NoWilds(c.path);
    case _ => assert c.Edge()[1..] == [];
  }

  lemma {:induction false} NoWilds(s: string)
    ensures Wilds(Lits(s)) == 0
  {
    if s != "" {
      assert Lits(s)[1..] == Lits(s[1..]);
      NoWilds(s[1..]);
    }
  }

  /** What a parameter of this node captures starts right here. */
  lemma ParamResult(t: Node, path: string, i: nat, m: Method, caps: seq<Capture>)
    requires WellFormed(t) && i < |path| && |caps| <= MAX_CAPTURES
    ensures var r := ParamFrom(t, 0, path, i, m, caps);
      r.Some? ==> caps < r.value.captures && r.value.captures[|caps|].start == i
  {
    hide *;
    ParamPicked(t, 0, path, i, m, caps);
    var s := Pick(t.children, Par(""));
    var j := IndexOf(path, '/', i);
    if s < |t.children| && i < j && |caps| < MAX_CAPTURES {
      var c := Capture(t.children[s].paramName, i, j - i);
      SearchExtends(t.children[s], path, AfterSlash(path, j), m, caps + [c]);
      assert (caps + [c])[|caps|] == c;
    }
  }

  /** So does what a catch-all captures, and it goes to the end. */
  lemma AnyResult(t: Node, path: string, i: nat, m: Method, caps: seq<Capture>)
    requires WellFormed(t) && i < |path| && |caps| <= MAX_CAPTURES && AtMost(t, MAX_CAPTURES - |caps|)
    ensures var r := AnyFrom(t, 0, path, i, m, caps);
      r.Some? ==> caps < r.value.captures && r.value.captures[|caps|].start == i && r.value.captures[|caps|].len == |path| - i
  {
    hide WellFormed, AnyFrom, AtMost, IndexOf;
    AnyPicked(t, 0, path, i, m, caps);
    var a := Pick(t.children, Any(""));
    if a < |t.children| {
      AtMostBelow(t, a, MAX_CAPTURES - |caps|);
      WildsEdge(t.children[a]);
    }
  }

  /** The captures are the fixed ones, and the next one, if any, starts behind `j`. */
  predicate Carries(fixed: seq<Capture>, j: nat, cs: seq<Capture>) {
    fixed <= cs && (|cs| > |fixed| ==> cs[|fixed|].start > j)
  }

  lemma {:induction false} CaughtBehind(pos: Position, i: nat)
    ensures Caught(pos, i) != [] ==> Caught(pos, i)[0].start >= i && Caught(pos, i)[0].len == 1
    ensures pos != [] && pos[0].Lit? && Caught(pos, i) != [] ==> Caught(pos, i)[0].start > i
  {
    if pos != [] && pos[0].Lit? { CaughtBehind(pos[1..], i + 1); }
  }

  /** A capture that starts here, where the way has a literal, or that is longer than one byte, is not on the way. */
  lemma OffTheWay(caps: seq<Capture>, pos: Position, i: nat, j: nat, cs: seq<Capture>)
    requires pos != [] && i <= j && caps < cs && cs[|caps|].start == i
    requires pos[0].Lit? || (pos[0].Par? && cs[|caps|].len > 1)
    ensures !Carries(caps + Caught(pos, i), j, cs)
  {
    var c := Caught(pos, i);
    CaughtBehind(pos, i);
    if c != [] { assert (caps + c)[|caps|] == c[0]; }
  }

  // ---- Without the node ---------------------------------------------------

  /** No branch goes on from here with that byte. */
  ghost predicate OpenAt(t: Node, u: Position, b: char) { forall x :: Has(t, x) ==> !(u + [Lit(b)] <= x) }

  /** Each parameter on the way is filled with a byte that no static sibling starts with. */
  ghost predicate OpenAlong(t: Node, pos: Position, vs: string) {
    && |vs| == |pos|
    && forall k :: 0 <= k < |pos| && pos[k].Par? ==> vs[k] != '/' && OpenAt(t, pos[..k], vs[k])
  }

  lemma OpenAtBelow(t: Node, k: nat, u: Position, b: char)
    requires WellFormed(t) && k < |t.children| && OpenAt(t, t.children[k].Edge() + u, b)
    ensures OpenAt(t.children[k], u, b)
  {
    var c := t.children[k];
    var e := c.Edge();
    hide WellFormed, At;
    forall y | Has(c, y) ensures !(u + [Lit(b)] <= y) {
      AtEdge(t, k, y);
      assert Has(t, e + y);
      Assoc(e, u, [Lit(b)]);
      if u + [Lit(b)] <= y { PrefixShift(e, u + [Lit(b)], y); }
    }
  }

  lemma PrefixShift<T>(e: seq<T>, x: seq<T>, y: seq<T>)
    requires x <= y
    ensures e + x <= e + y
  {
  }

  lemma OpenBelow(t: Node, k: nat, pos: Position, vs: string)
    requires WellFormed(t) && k < |t.children| && t.children[k].Edge() <= pos && OpenAlong(t, pos, vs)
    ensures var n := |t.children[k].Edge()|; OpenAlong(t.children[k], pos[n..], vs[n..])
  {
    var c := t.children[k];
    var e := c.Edge();
    var q, us := pos[|e|..], vs[|e|..];
    hide WellFormed, OpenAt;
    forall j | 0 <= j < |q| && q[j].Par? ensures us[j] != '/' && OpenAt(c, q[..j], us[j]) {
      assert pos[|e| + j].Par? && OpenAt(t, pos[..|e| + j], vs[|e| + j]);
      assert pos[..|e| + j] == e + q[..j];
      OpenAtBelow(t, k, q[..j], us[j]);
    }
  }

  lemma PrefixesOf<T>(x: seq<T>, a: seq<T>, b: seq<T>)
    requires a <= x && b <= x && a != [] && b != []
    ensures a[0] == b[0] && (a <= b || b < a)
    ensures a <= b ==> b == a + b[|a|..] && b[|a|..] <= x[|a|..]
  {
    assert a == x[..|a|] && b == x[..|b|];
    if |a| <= |b| {
      assert a == b[..|a|];
      assert forall k :: 0 <= k < |b| - |a| ==> b[|a|..][k] == x[|a|..][k];
    } else {
      assert b == a[..|b|];
    }
  }

  /** The child the way goes through, or the edge it ends inside. */
  lemma WayChild(t: Node, pos: Position)
    requires WellFormed(t) && On(t, pos) && pos != []
    ensures var k := Pick(t.children, pos[0]);
      && k < |t.children| && WellFormed(t.children[k]) && WellFormedEdge(t.children[k])
      && var e := t.children[k].Edge();
         e != [] && e[0] == pos[0] && Has(t, e) && (e <= pos || pos < e)
         && (e <= pos ==> On(t.children[k], pos[|e|..]) && (Has(t, pos) <==> Has(t.children[k], pos[|e|..])))
  {
    var x :| Has(t, x) && pos <= x;
    hide WellFormed, At, Pick, On;
    ChildHas(t, x);
    var k := Pick(t.children, pos[0]);
    var c := t.children[k];
    var e := c.Edge();
    assert x[0] == pos[0];
    AtEdge(t, k, []);
    assert e + [] == e;
    assert At(c, []) == Some(c) by { AtHere(c); }
    PrefixesOf(x, e, pos);
    if e <= pos {
      AtEdge(t, k, pos[|e|..]);
      OnAt(c, pos[|e|..], x[|e|..]);
    }
  }

  /** The way, one literal edge at a time. */
  lemma {:induction false} WayRun(s: string, pos: Position, vs: string, i: nat)
    requires |vs| == |s| + |pos|
    ensures Way(Lits(s) + pos, vs) == s + Way(pos, vs[|s|..])
    ensures Caught(Lits(s) + pos, i) == Caught(pos, i + |s|)
  {
    if s == "" {
      assert Lits(s) + pos == pos && vs[0..] == vs;
    } else {
      var c, b := s[0], s[1..];
      hide *;
      HeadTail(s);
      LitsCons(c, b);
      Assoc([Lit(c)], Lits(b), pos);
      WayCons(c, Lits(b) + pos, vs, i);
      WayRun(b, pos, vs[1..], i + 1);
      assert vs[1..][|s| - 1..] == vs[|s|..];
      Assoc([c], b, Way(pos, vs[|s|..]));
    }
  }

  lemma WayCons(c: char, pos: Position, vs: string, i: nat)
    requires |vs| == 1 + |pos|
    ensures Way([Lit(c)] + pos, vs) == [c] + Way(pos, vs[1..]) && Caught([Lit(c)] + pos, i) == Caught(pos, i + 1)
  {
    assert ([Lit(c)] + pos)[1..] == pos;
  }

  lemma WayHead(pos: Position, vs: string, more: string)
    requires |vs| == |pos| && pos != [] && Sound(pos) && (pos[0].Par? ==> vs[0] != '/') && !pos[0].Any?
    ensures Way(pos, vs) != "" && (Way(pos, vs) + more)[0] != '/'
  {
  }

  /** A position inside an edge is no root, and no catch-all is on the way to it. */
  lemma InsideEdge(t: Node, pos: Position)
    requires WellFormed(t) && On(t, pos) && !Has(t, pos)
    ensures pos != [] && Sound(pos) && forall k :: 0 <= k < |pos| ==> !pos[k].Any?
  {
    var x :| Has(t, x) && pos <= x;
    PositionsSound(t, x);
    assert Has(t, []);
    assert pos != x;
    assert forall k :: 0 <= k < |pos| ==> pos[k] == x[k];
  }

  /** The static child does not pass a slash inside its label. */
  lemma SlashInside(c: Node, pos: Position, vs: string, path: string, i: nat, more: string)
    requires c.kind == Static && Plain(c.path) && pos < Lits(c.path) && |vs| == |pos|
    requires i <= |path| && path[i..] == Way(pos, vs) + "/" + more
    ensures !(c.path <= path[i..])
  {
    var n := |pos|;
    assert pos == Lits(c.path[..n]) + [];
    WayRun(c.path[..n], [], vs, 0);
    assert path[i..][n] == '/';
    assert !Special(c.path[n]);
  }

  /** The path behind a literal edge of the way. */
  lemma StaticAhead(t: Node, c: Node, pos: Position, vs: string, path: string, i: nat, more: string)
    requires c.kind == Static && c.path != "" && Lits(c.path) < pos && |vs| == |pos| && Sound(pos) && !pos[|c.path|].Any?
    requires pos[|c.path|].Par? ==> vs[|c.path|] != '/'
    requires i <= |path| && path[i..] == Way(pos, vs) + "/" + more
    ensures var n := |c.path|;
      && i + n < |path| && c.path <= path[i..] && AfterSlash(path, i + n) == i + n && path[i] == c.path[0]
      && path[i + n..] == Way(pos[n..], vs[n..]) + "/" + more
      && Caught(pos, i) == Caught(pos[n..], i + n) && |Way(pos, vs)| == n + |Way(pos[n..], vs[n..])|
  {
    hide Sound, Way, Caught, Lits;
    var n := |c.path|;
    var q, us := pos[n..], vs[n..];
    assert pos == Lits(c.path) + q;
    WayRun(c.path, q, vs, i);
    RestSound(pos, n);
    WayHead(q, us, "/" + more);
    assert path[i..] == c.path + (Way(q, us) + "/" + more);
    assert Way(q, us) + "/" + more == Way(q, us) + ("/" + more);
    Behind(path, i, c.path, Way(q, us) + "/" + more);
    assert path[i] == path[i..][0];
  }

  lemma {:induction false} MissesStatic(t: Node, path: string, i: nat, m: Method, caps: seq<Capture>,
      pos: Position, vs: string, more: string)
    requires WellFormed(t) && |caps| <= MAX_CAPTURES && AtMost(t, MAX_CAPTURES - |caps|)
    requires On(t, pos) && !Has(t, pos) && OpenAlong(t, pos, vs) && more != ""
    requires i < |path| && path[i..] == Way(pos, vs) + "/" + more && pos != [] && pos[0].Lit? && Sound(pos)
    ensures var r := StaticFrom(t, 0, path, i, m, caps);
      r.Some? ==> !Carries(caps + Caught(pos, i), i + |Way(pos, vs)|, r.value.captures)
    decreases t, 0
  {
    hide *;
    InsideEdge(t, pos);
    WayChild(t, pos);
    var k := Pick(t.children, pos[0]);
    var c := t.children[k];
    var e := c.Edge();
    OpenByte(t, pos, vs, 0);
    LiteralChild(t, pos, vs, path, i, more);
    StaticPicked(t, 0, path, i, m, caps);
    if e <= pos {
      var n := |c.path|;
      assert e != pos;
      OpenByte(t, pos, vs, n);
      StaticAhead(t, c, pos, vs, path, i, more);
      OpenBelow(t, k, pos, vs);
      AtMostBelow(t, k, MAX_CAPTURES - |caps|);
      WildsEdge(c);
      Misses(c, path, i + n, m, caps, pos[n..], vs[n..], more);
    } else {
      SlashInside(c, pos, vs, path, i, more);
    }
  }

  /** The child a literal way goes through is static, and the path has its first byte. */
  lemma LiteralChild(t: Node, pos: Position, vs: string, path: string, i: nat, more: string)
    requires WellFormed(t) && pos != [] && pos[0].Lit? && |vs| == |pos| && Pick(t.children, pos[0]) < |t.children|
    requires i < |path| && path[i..] == Way(pos, vs) + "/" + more
    ensures Lit(path[i]) == pos[0]
    ensures var c := t.children[Pick(t.children, pos[0])];
      c.kind == Static && c.path != "" && Plain(c.path) && c.Edge() == Lits(c.path) && |c.Edge()| == |c.path|
  {
    assert path[i] == path[i..][0];
    assert WellFormedEdge(t.children[Pick(t.children, pos[0])]);
  }

  lemma OpenByte(t: Node, pos: Position, vs: string, n: nat)
    requires OpenAlong(t, pos, vs)
    ensures |vs| == |pos| && (n < |pos| && pos[n].Par? ==> vs[n] != '/')
  {
  }

  /** The path behind a parameter of the way. */
  lemma ParamAhead(pos: Position, vs: string, path: string, i: nat, more: string)
    requires pos != [] && pos[0].Par? && |vs| == |pos| && vs[0] != '/'
    requires i <= |path| && path[i..] == Way(pos, vs) + "/" + more
    ensures i + 2 <= |path| && i < |path| && path[i] == vs[0] && IndexOf(path, '/', i) == i + 1 && AfterSlash(path, i + 1) == i + 2
    ensures path[i + 2..] == Way(pos[1..], vs[1..]) + "/" + more
    ensures Caught(pos, i) == [Capture(pos[0].name, i, 1)] + Caught(pos[1..], i + 2) && |Way(pos, vs)| == 2 + |Way(pos[1..], vs[1..])|
  {
    var w := Way(pos[1..], vs[1..]) + "/" + more;
    assert path[i..] == [vs[0], '/'] + w;
    assert path[i..][0] == vs[0] && path[i..][1] == '/';
    assert path[i + 2..] == path[i..][2..];
  }

  /** A static child closes its first byte. */
  lemma StaticCloses(t: Node, b: char)
    requires WellFormed(t) && Pick(t.children, Lit(b)) < |t.children|
    ensures !OpenAt(t, [], b)
  {
    var c := t.children[Pick(t.children, Lit(b))];
    EdgeIsNode(t, Pick(t.children, Lit(b)));
    assert [] + [Lit(b)] <= c.Edge();
  }

  /** Where the way has a parameter, no static child passes. */
  lemma OpenHere(t: Node, pos: Position, vs: string)
    requires WellFormed(t) && OpenAlong(t, pos, vs) && pos != [] && pos[0].Par?
    ensures |vs| == |pos| && Pick(t.children, Lit(vs[0])) == |t.children| && vs[0] != '/'
  {
    assert pos[..0] == [];
    hide WellFormed, Pick;
    if Pick(t.children, Lit(vs[0])) < |t.children| { StaticCloses(t, vs[0]); }
  }

  /** The child a parameter of the way goes through. */
  lemma ParamChild(t: Node, pos: Position)
    requires WellFormed(t) && On(t, pos) && pos != [] && pos[0].Par?
    ensures var k := Pick(t.children, Par(""));
      && k == Pick(t.children, pos[0]) < |t.children| && t.children[k].kind == Param
      && t.children[k].Edge() == [pos[0]] && t.children[k].paramName == pos[0].name
  {
    WayChild(t, pos);
    PickByName(t.children, pos[0]);
  }

  lemma {:induction false} MissesParam(t: Node, path: string, i: nat, m: Method, caps: seq<Capture>,
      pos: Position, vs: string, more: string)
    requires WellFormed(t) && |caps| <= MAX_CAPTURES && AtMost(t, MAX_CAPTURES - |caps|)
    requires On(t, pos) && !Has(t, pos) && OpenAlong(t, pos, vs) && more != ""
    requires i < |path| && path[i..] == Way(pos, vs) + "/" + more && pos != [] && pos[0].Par?
    ensures StaticFrom(t, 0, path, i, m, caps).None? && |path| - i > 1
    ensures var r := ParamFrom(t, 0, path, i, m, caps);
      r.Some? ==> !Carries(caps + Caught(pos, i), i + |Way(pos, vs)|, r.value.captures)
    decreases t, 0
  {
    hide *;
    WayChild(t, pos);
    ParamChild(t, pos);
    var k := Pick(t.children, pos[0]);
    var c := t.children[k];
    OpenHere(t, pos, vs);
    ParamAhead(pos, vs, path, i, more);
    StaticPicked(t, 0, path, i, m, caps);
    ParamPicked(t, 0, path, i, m, caps);
    OpenBelow(t, k, pos, vs);
    AtMostBelow(t, k, MAX_CAPTURES - |caps|);
    WildsEdge(c);
    var here := [Capture(pos[0].name, i, 1)];
    Misses(c, path, i + 2, m, caps + here, pos[1..], vs[1..], more);
    Assoc(caps, here, Caught(pos[1..], i + 2));
  }

  lemma PickByName(cs: seq<Node>, tok: Token)
    requires tok.Par?
    ensures Pick(cs, tok) == Pick(cs, Par(""))
  {
    PickIs(cs, tok, Pick(cs, Par("")));
  }

  /** Without the node, nothing that is found on the way carries its captures and nothing besides. */
  lemma {:induction false} Misses(t: Node, path: string, i: nat, m: Method, caps: seq<Capture>, pos: Position, vs: string, more: string)
    requires WellFormed(t) && |caps| <= MAX_CAPTURES && AtMost(t, MAX_CAPTURES - |caps|)
    requires On(t, pos) && !Has(t, pos) && OpenAlong(t, pos, vs) && more != ""
    requires i <= |path| && path[i..] == Way(pos, vs) + "/" + more
    ensures var r := Search(t, path, i, m, caps);
      r.Some? ==> !Carries(caps + Caught(pos, i), i + |Way(pos, vs)|, r.value.captures)
    decreases t, 1
  {
    hide *;
    InsideEdge(t, pos);
    OpenByte(t, pos, vs, 0);
    WayHead(pos, vs, "/" + more);
    assert Way(pos, vs) + "/" + more == Way(pos, vs) + ("/" + more);
    assert i < |path|;
    ParamResult(t, path, i, m, caps);
    AnyResult(t, path, i, m, caps);
    SearchIs(t, path, i, m, caps);
    var j := i + |Way(pos, vs)|;
    var q := ParamFrom(t, 0, path, i, m, caps);
    var a := AnyFrom(t, 0, path, i, m, caps);
    if pos[0].Lit? {
      MissesStatic(t, path, i, m, caps, pos, vs, more);
      if q.Some? { OffTheWay(caps, pos, i, j, q.value.captures); }
    } else {
      MissesParam(t, path, i, m, caps, pos, vs, more);
    }
    if a.Some? { OffTheWay(caps, pos, i, j, a.value.captures); }
  }

  lemma SearchIs(t: Node, path: string, i: nat, m: Method, caps: seq<Capture>)
    requires i < |path|
    ensures Search(t, path, i, m, caps) ==
      if StaticFrom(t, 0, path, i, m, caps).Some? then StaticFrom(t, 0, path, i, m, caps)
      else if ParamFrom(t, 0, path, i, m, caps).Some? then ParamFrom(t, 0, path, i, m, caps)
      else AnyFrom(t, 0, path, i, m, caps)
  {
    hide StaticFrom, ParamFrom, AnyFrom;
  }

  // ---- With the node ------------------------------------------------------

  /** The end of the way: the last edge, the slash, and the rest of the route. */
  lemma {:induction false} Arrives(c: Node, path: string, i: nat, m: Method, caps: seq<Capture>, w: Position)
    requires WellFormed(c) && m in Meth(c, w) && i <= |path| && path[i..] == Spelling(w)
    requires |caps| <= MAX_CAPTURES && AtMost(c, MAX_CAPTURES - |caps|)
    ensures var r := Search(c, path, i, m, caps);
      r.Some? && caps <= r.value.captures && (|r.value.captures| > |caps| ==> r.value.captures[|caps|].start >= i)
  {
    assert Has(c, w) && Wilds(w) <= MAX_CAPTURES - |caps|;
    ParsAreWilds(w);
    var ks := SpellingAccepted(c, w, m, path, i);
    SearchExtends(c, path, i, m, caps);
    var best := SearchFirst(c, path, i, m, caps);
    hide Search, Run, Params, Wilds;
    assert Eligible(c, path, i, m, caps, ks);
  }

  /** The pieces of a route below the child it goes through. */
  lemma RouteBelow(t: Node, pos: Position, w: Position)
    requires WellFormed(t) && Has(t, pos) && Has(t, pos + w) && pos != []
    ensures var k := Pick(t.children, pos[0]);
      && k < |t.children|
      && var c := t.children[k];
         var n := |c.Edge()|;
         && c.Edge() <= pos && 0 < n && Has(c, pos[n..]) && Meth(c, pos[n..] + w) == Meth(t, pos + w) && Has(c, pos[n..] + w)
         && WellFormed(c) && c.Edge()[0] == pos[0]
  {
    hide *;
    assert (pos + w)[0] == pos[0];
    ChildHas(t, pos);
    ChildHas(t, pos + w);
    var n := |t.children[Pick(t.children, pos[0])].Edge()|;
    assert (pos + w)[0] == pos[0] && (pos + w)[n..] == pos[n..] + w;
    assert t.children[Pick(t.children, pos[0])].Edge()[0] == pos[0];
  }

  /** A way that ends behind a literal. */
  predicate Ends(pos: Position) { Sound(pos) && pos != [] && pos[|pos| - 1].Lit? && forall k :: 0 <= k < |pos| ==> !pos[k].Any? }

  lemma EndsTail(pos: Position, n: nat)
    requires Ends(pos) && n < |pos|
    ensures Ends(pos[n..])
  {
    assert forall k :: 0 <= k < |pos[n..]| ==> pos[n..][k] == pos[n + k];
  }

  lemma EndsHead(pos: Position)
    requires Ends(pos)
    ensures Sound(pos) && pos != [] && !pos[0].Any? && (|pos| == 1 ==> pos[0].Lit?) && forall k :: 0 <= k < |pos| ==> !pos[k].Any?
  {
  }

  /** With the node, the route behind it is found, and with exactly the captures of the way. */
  lemma {:induction false} Reaches(t: Node, path: string, i: nat, m: Method, caps: seq<Capture>, pos: Position, vs: string, w: Position)
    requires WellFormed(t) && |caps| <= MAX_CAPTURES && AtMost(t, MAX_CAPTURES - |caps|)
    requires Has(t, pos) && m in Meth(t, pos + w) && Ends(pos) && OpenAlong(t, pos, vs)
    requires i <= |path| && path[i..] == Way(pos, vs) + "/" + Spelling(w)
    ensures var r := Search(t, path, i, m, caps);
      r.Some? && Carries(caps + Caught(pos, i), i + |Way(pos, vs)|, r.value.captures)
    decreases t, 1
  {
    hide *;
    EndsHead(pos);
    OpenByte(t, pos, vs, 0);
    WayHead(pos, vs, "/" + Spelling(w));
    Assoc(Way(pos, vs), "/", Spelling(w));
    SearchIs(t, path, i, m, caps);
    if pos[0].Lit? {
      ReachesStatic(t, path, i, m, caps, pos, vs, w);
    } else {
      ReachesParam(t, path, i, m, caps, pos, vs, w);
    }
  }

  lemma {:induction false} ReachesStatic(t: Node, path: string, i: nat, m: Method, caps: seq<Capture>,
      pos: Position, vs: string, w: Position)
    requires WellFormed(t) && |caps| <= MAX_CAPTURES && AtMost(t, MAX_CAPTURES - |caps|)
    requires Has(t, pos) && m in Meth(t, pos + w) && Ends(pos) && OpenAlong(t, pos, vs) && pos != [] && pos[0].Lit?
    requires i < |path| && path[i..] == Way(pos, vs) + "/" + Spelling(w)
    ensures var r := StaticFrom(t, 0, path, i, m, caps);
      r.Some? && Carries(caps + Caught(pos, i), i + |Way(pos, vs)|, r.value.captures)
    decreases t, 0
  {
    hide *;
    HasHandlers(t, pos + w, m);
    RouteBelow(t, pos, w);
    EndsHead(pos);
    OpenByte(t, pos, vs, 0);
    var k := Pick(t.children, pos[0]);
    var c := t.children[k];
    var n := |c.path|;
    LiteralChild(t, pos, vs, path, i, Spelling(w));
    StaticPicked(t, 0, path, i, m, caps);
    AtMostBelow(t, k, MAX_CAPTURES - |caps|);
    WildsEdge(c);
    if c.Edge() == pos {
      LastEdge(c, pos, vs, path, i, Spelling(w));
      assert pos[n..] + w == w;
      Arrives(c, path, i + n + 1, m, caps, w);
      CarriesNothing(caps, i + n, StaticFrom(t, 0, path, i, m, caps).value.captures);
    } else {
      OpenByte(t, pos, vs, n);
      StaticAhead(t, c, pos, vs, path, i, Spelling(w));
      OpenBelow(t, k, pos, vs);
      EndsTail(pos, n);
      Reaches(c, path, i + n, m, caps, pos[n..], vs[n..], w);
    }
  }

  lemma CarriesNothing(caps: seq<Capture>, j: nat, cs: seq<Capture>)
    requires caps <= cs && (|cs| > |caps| ==> cs[|caps|].start > j)
    ensures Carries(caps + [], j, cs)
  {
    assert caps + [] == caps;
  }

  /** The path behind the last edge of the way. */
  lemma LastEdge(c: Node, pos: Position, vs: string, path: string, i: nat, more: string)
    requires c.kind == Static && Lits(c.path) == pos && |vs| == |pos| && i <= |path| && path[i..] == Way(pos, vs) + "/" + more
    ensures var n := |c.path|;
      && i + n < |path| && c.path <= path[i..] && AfterSlash(path, i + n) == i + n + 1 && path[i + n + 1..] == more
      && Caught(pos, i) == [] && |Way(pos, vs)| == n
  {
    var n := |c.path|;
    assert pos == Lits(c.path) + [];
    WayRun(c.path, [], vs, i);
    assert path[i..] == c.path + "/" + more;
    assert path[i + n] == path[i..][n] == '/';
    assert path[i + n + 1..] == path[i..][n + 1..] == more;
  }

  lemma {:induction false} ReachesParam(t: Node, path: string, i: nat, m: Method, caps: seq<Capture>,
      pos: Position, vs: string, w: Position)
    requires WellFormed(t) && |caps| <= MAX_CAPTURES && AtMost(t, MAX_CAPTURES - |caps|)
    requires Has(t, pos) && m in Meth(t, pos + w) && Ends(pos) && OpenAlong(t, pos, vs) && pos != [] && pos[0].Par?
    requires i < |path| && path[i..] == Way(pos, vs) + "/" + Spelling(w)
    ensures StaticFrom(t, 0, path, i, m, caps).None?
    ensures var r := ParamFrom(t, 0, path, i, m, caps);
      r.Some? && Carries(caps + Caught(pos, i), i + |Way(pos, vs)|, r.value.captures)
    decreases t, 0
  {
    hide *;
    HasHandlers(t, pos + w, m);
    RouteBelow(t, pos, w);
    EndsHead(pos);
    OnAt(t, pos, pos);
    ParamChild(t, pos);
    var k := Pick(t.children, pos[0]);
    var c := t.children[k];
    OpenHere(t, pos, vs);
    ParamAhead(pos, vs, path, i, Spelling(w));
    StaticPicked(t, 0, path, i, m, caps);
    ParamPicked(t, 0, path, i, m, caps);
    OpenBelow(t, k, pos, vs);
    AtMostBelow(t, k, MAX_CAPTURES - |caps|);
    WildsEdge(c);
    EndsTail(pos, 1);
    var here := [Capture(pos[0].name, i, 1)];
    Reaches(c, path, i + 2, m, caps + here, pos[1..], vs[1..], w);
    Assoc(caps, here, Caught(pos[1..], i + 2));
  }

  // ---- Refused insertions, exactly ----------------------------------------

  /** Inside an edge the last token passed is a literal. */
  lemma {:induction false} LastLiteral(t: Node, pos: Position)
    requires WellFormed(t) && On(t, pos) && !Has(t, pos)
    ensures pos != [] && pos[|pos| - 1].Lit?
    decreases t
  {
    InsideEdge(t, pos);
    WayChild(t, pos);
    var c := t.children[Pick(t.children, pos[0])];
    var e := c.Edge();
    if e <= pos {
      assert e != pos;
      LastLiteral(c, pos[|e|..]);
    } else {
      assert pos[|pos| - 1] == e[|pos| - 1];
    }
  }

  /** Everywhere some byte starts no static child. */
  ghost predicate Roomy(t: Node) { forall pos :: RoomAt(t, pos) }

  ghost predicate RoomAt(t: Node, pos: Position) { exists b :: OpenTo(t, pos, b) }

  ghost predicate OpenTo(t: Node, pos: Position, b: char) { b != '/' && b as int < 256 && OpenAt(t, pos, b) }

  lemma {:induction false} ChooseOpen(t: Node, pos: Position) returns (vs: string)
    requires Roomy(t)
    ensures OpenAlong(t, pos, vs)
  {
    hide OpenAt;
    vs := "";
    if pos != [] {
      var n := |pos| - 1;
      var us := ChooseOpen(t, pos[..n]);
      assert RoomAt(t, pos[..n]);
      var b :| OpenTo(t, pos[..n], b);
      vs := us + [b];
      forall k | 0 <= k < |pos| && pos[k].Par? ensures vs[k] != '/' && OpenAt(t, pos[..k], vs[k]) {
        if k < n { assert pos[..n][k] == pos[k] && pos[..n][..k] == pos[..k]; }
      }
    }
  }

  /** Some route goes on from here. */
  ghost predicate Leads(t: Node, x: Position) { exists w, m :: Route(t, x, w, m) }

  ghost predicate Route(t: Node, x: Position, w: Position, m: Method) { x <= w && m in Meth(t, w) }

  /** Every node leads to a route. */
  ghost predicate Fruitful(t: Node) { forall x :: Has(t, x) && x != [] ==> Leads(t, x) }

  /** `u` is `t` with some edges torn: the same routes, and new nodes on old branches only. */
  ghost predicate Tears(t: Node, u: Node) {
    && (forall x :: Has(t, x) ==> Has(u, x)) && (forall x :: Has(u, x) ==> On(t, x))
    && (forall x :: Meth(u, x) == Meth(t, x))
  }

  lemma TornAtMost(t: Node, u: Node, n: nat)
    requires Tears(t, u) && AtMost(t, n)
    ensures AtMost(u, n)
  {
    hide Has;
    forall x | Has(u, x) ensures Wilds(x) <= n {
      assert On(t, x);
      var y :| Has(t, y) && x <= y;
      assert y == x + y[|x|..];
      WildsConcat(x, y[|x|..]);
    }
  }

  lemma TornOpen(t: Node, u: Node, pos: Position, vs: string)
    requires Tears(t, u) && OpenAlong(t, pos, vs)
    ensures OpenAlong(u, pos, vs)
  {
    hide Has;
    forall k | 0 <= k < |pos| && pos[k].Par? ensures OpenAt(u, pos[..k], vs[k]) {
      assert OpenAt(t, pos[..k], vs[k]);
      forall x | Has(u, x) ensures !(pos[..k] + [Lit(vs[k])] <= x) {
        assert On(t, x);
        var y :| Has(t, y) && x <= y;
      }
    }
  }

  /** A new node with a route behind it lets a path through that was answered differently before. */
  lemma NewNodeShows(t: Node, u: Node, pos: Position, w: Position, m: Method, vs: string) returns (path: string)
    requires WellFormed(t) && WellFormed(u) && Tears(t, u) && AtMost(t, MAX_CAPTURES)
    requires Has(u, pos) && !Has(t, pos) && OpenAlong(t, pos, vs) && pos <= w && m in Meth(u, w)
    ensures path != "" && path[0] == '/' && Search(u, path, 1, m, []) != Search(t, path, 1, m, [])
  {
    hide *;
    TearsMeans(t, u, pos, w);
    InsideEdge(t, pos);
    LastLiteral(t, pos);
    EndsIs(pos);
    OpenByte(t, pos, vs, 0);
    TornAtMost(t, u, MAX_CAPTURES);
    TornOpen(t, u, pos, vs);
    var q := w[|pos|..];
    assert w == pos + q;
    HasHandlers(u, w, m);
    ProperRest(pos, w);
    SpellingSome(q);
    path := "/" + (Way(pos, vs) + "/" + Spelling(q));
    assert path[1..] == Way(pos, vs) + "/" + Spelling(q);
    Reaches(u, path, 1, m, [], pos, vs, q);
    Misses(t, path, 1, m, [], pos, vs, Spelling(q));
  }

  lemma ProperRest(pos: Position, w: Position)
    requires pos <= w && pos != w
    ensures w[|pos|..] != []
  {
  }

  lemma EndsIs(pos: Position)
    requires Sound(pos) && pos != [] && pos[|pos| - 1].Lit? && forall k :: 0 <= k < |pos| ==> !pos[k].Any?
    ensures Ends(pos)
  {
  }

  lemma TearsMeans(t: Node, u: Node, pos: Position, w: Position)
    requires Tears(t, u) && Has(u, pos)
    ensures On(t, pos) && Meth(u, w) == Meth(t, w) && (forall m :: m in Meth(u, w) ==> Has(t, w))
  {
  }

  lemma SpellingSome(w: Position)
    requires w != []
    ensures Spelling(w) != ""
  {
  }

  /** A refused insertion tears edges, no more. */
  lemma RefusedTears(t: Node, p: string, m: Method, chain: Chain)
    requires WellFormed(t) && Clean(p) && Insert(t, p, m, chain).1 != Added
    ensures Tears(t, Insert(t, p, m, chain).0)
  {
    var u := Insert(t, p, m, chain).0;
    hide Insert, WellFormed, Has, Meth, InnerStop;
    forall x ensures Has(u, x) <==> Has(t, x) || Torn(t, p, x) { RefusedHas(t, p, m, chain, x); }
    forall x ensures Meth(u, x) == Meth(t, x) { InsertMeth(t, p, m, chain, x); }
    forall x | Has(t, x) ensures On(t, x) { OnAt(t, x, x); }
  }

  /** A refused insertion that tears no edge changes no lookup. */
  lemma RefusedHarmless(t: Node, p: string, m: Method, chain: Chain, path: string, i: nat, v: Method, caps: seq<Capture>)
    requires WellFormed(t) && t.kind != CatchAll && Clean(p) && chain != [] && Insert(t, p, m, chain).1 != Added
    requires (forall pos :: Torn(t, p, pos) ==> Has(t, pos)) && i <= |path|
    ensures Search(Insert(t, p, m, chain).0, path, i, v, caps) == Search(t, path, i, v, caps)
  {
    var u := Insert(t, p, m, chain).0;
    InsertWellFormed(t, p, m, chain);
    hide Insert, WellFormed, Has, Meth, Torn, Search;
    forall x ensures Has(t, x) == Has(u, x) && Meth(t, x) == Meth(u, x) {
      RefusedHas(t, p, m, chain, x);
      InsertMeth(t, p, m, chain, x);
    }
    AlikeSearch(t, u, path, i, v, caps);
  }

  /** One that tears an edge changes some lookup: every route makes at most eight captures, every node leads to a
      route, and every node leaves some byte to its parameter. */
  lemma RefusedShows(t: Node, p: string, m: Method, chain: Chain, pos: Position) returns (path: string, v: Method)
    requires WellFormed(t) && t.kind != CatchAll && Clean(p) && chain != [] && Insert(t, p, m, chain).1 != Added
    requires AtMost(t, MAX_CAPTURES) && Roomy(t) && Fruitful(t) && Torn(t, p, pos) && !Has(t, pos)
    ensures path != "" && path[0] == '/'
    ensures Search(Insert(t, p, m, chain).0, path, 1, v, []) != Search(t, path, 1, v, [])
  {
    var u := Insert(t, p, m, chain).0;
    InsertWellFormed(t, p, m, chain);
    RefusedTears(t, p, m, chain);
    RefusedHas(t, p, m, chain, pos);
    hide Insert, WellFormed, Has, Meth, Torn, Search, Roomy, AtMost;
    assert On(t, pos) by { TornIsOn(t, p, pos); }
    var x :| Has(t, x) && pos <= x;
    NotRoot(t, pos);
    assert Leads(t, x);
    var w, o :| Route(t, x, w, o);
    v := o;
    var vs := ChooseOpen(t, pos);
    assert pos <= w && v in Meth(u, w);
    path := NewNodeShows(t, u, pos, w, v, vs);
  }

  lemma TornIsOn(t: Node, p: string, pos: Position)
    requires Torn(t, p, pos)
    ensures On(t, pos)
  {
  }

  lemma NotRoot(t: Node, pos: Position)
    requires !Has(t, pos)
    ensures pos != []
  {
  }
}
