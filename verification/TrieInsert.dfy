/** What one insertion does to the routes and the node positions a trie denotes. */
module TrieInsert {
  import opened Text
  import opened Patterns
  import opened Trie

  /** Parameters are told apart by position, not by name; so are catch-alls. */
  lemma PickByKind(cs: seq<Node>, a: Token, b: Token)
    requires (a.Par? && b.Par?) || (a.Any? && b.Any?)
    ensures Pick(cs, a) == Pick(cs, b)
  {
    PickIs(cs, a, Pick(cs, b));
  }

  /** The grafted child is found under the tokens it takes; every other token finds what it found before. */
  lemma GraftPick(t: Node, tok: Token, c: Node, x: Token)
    requires WellFormed(t) && Takes(c, tok)
    requires var i := Pick(t.children, tok); i < |t.children| ==> Clash(c, t.children[i])
    ensures var cs := Graft(t, Pick(t.children, tok), c).children;
      var k := Pick(cs, x);
      var j := Pick(t.children, x);
      if Takes(c, x) then k < |cs| && cs[k] == c
      else (k < |cs| <==> j < |t.children|) && (k < |cs| ==> cs[k] == t.children[j])
  {
    hide WellFormed, Pick, Takes, Clash;
    var cs := t.children;
    var i := Pick(cs, tok);
    NoClash(t);
    PickOnly(cs, x);
    if i < |cs| {
      ClashTakes(c, cs[i], x);
      PickUpdate(cs, i, c, x);
    } else {
      if Takes(c, x) { SameTaken(cs, c, tok, x); }
      PickAppend(cs, c, x);
    }
  }

  lemma NoClash(t: Node)
    requires WellFormed(t)
    ensures forall a, b :: 0 <= a < b < |t.children| ==> !Clash(t.children[a], t.children[b])
  {
  }

  /** Nodes that compete take the same tokens. */
  lemma ClashTakes(c: Node, d: Node, x: Token)
    requires Clash(c, d)
    ensures Takes(c, x) <==> Takes(d, x)
  {
  }

  lemma SameTaken(cs: seq<Node>, c: Node, a: Token, b: Token)
    requires Takes(c, a) && Takes(c, b)
    ensures Pick(cs, a) == Pick(cs, b)
  {
    if a != b { PickByKind(cs, a, b); }
  }

  /** Grafting a child changes only what lies below the tokens that child takes. */
  lemma AtGraft(t: Node, tok: Token, c: Node, pos: Position)
    requires WellFormed(t) && pos != [] && Takes(c, tok)
    requires var i := Pick(t.children, tok); i < |t.children| ==> Clash(c, t.children[i])
    ensures At(Graft(t, Pick(t.children, tok), c), pos)
         == if !Takes(c, pos[0]) then At(t, pos)
            else if c.Edge() <= pos then At(c, pos[|c.Edge()|..]) else None
  {
    GraftPick(t, tok, c, pos[0]);
    hide WellFormed, Pick, Graft, Clash, Takes, Node.Edge;
  }

  /** Cutting an edge adds one bare position and moves nothing else. */
  lemma AtClip(c: Node, cp: nat, pos: Position)
    requires c.kind == Static && 0 < cp <= |c.path| && Lits(c.path[..cp]) <= pos
    ensures Meth(Clip(c, cp), pos[cp..]) == if Lits(c.path) <= pos then Meth(c, pos[|c.path|..]) else map[]
    ensures Has(Clip(c, cp), pos[cp..]) <==> |pos| == cp || (Lits(c.path) <= pos && Has(c, pos[|c.path|..]))
  {
    hide At, Pick, Lits;
    if cp == |c.path| {
      assert c.path[..cp] == c.path;
      if |pos| == cp {
        AtHere(c);
        assert pos[cp..] == [];
      }
    } else {
      var low := c.(path := c.path[cp..]);
      LitsSplit(c.path, cp, pos);
      if |pos| > cp {
        AtOnlyChild(Clip(c, cp), low, pos[cp..]);
        if Lits(c.path) <= pos { BelowOnly(low, c, pos[|c.path|..]); }
      } else {
        AtHere(Clip(c, cp));
      }
    }
  }

  lemma AtHere(t: Node)
    ensures At(t, []) == Some(t)
  {
  }

  /** A label fits when its two parts do. */
  lemma LitsSplit(p: string, cp: nat, pos: Position)
    requires 0 < cp < |p| && Lits(p[..cp]) <= pos
    ensures Lits(p) <= pos <==> Lits(p[cp..]) <= pos[cp..]
    ensures |p| <= |pos| ==> pos[cp..][|p| - cp..] == pos[|p|..]
    ensures |Lits(p)| == |p| && |Lits(p[cp..])| == |p| - cp && cp <= |pos|
  {
    var low := Lits(p[cp..]);
    assert Lits(p) == Lits(p[..cp]) + low;
    assert pos == Lits(p[..cp]) + pos[cp..];
  }

  lemma AtOnlyChild(t: Node, low: Node, q: Position)
    requires t.children == [low] && low.kind == Static && low.path != "" && q != []
    ensures At(t, q) == if low.Edge() <= q then At(low, q[|low.path|..]) else None
  {
    AtUnfold(t, q);
    hide At, Has, Meth;
    if low.Edge() <= q { assert low.Edge()[0] == q[0]; }
  }

  /** Below a node its own label plays no part. */
  lemma BelowOnly(c: Node, d: Node, pos: Position)
    requires c.children == d.children && c.methods == d.methods
    ensures Has(c, pos) == Has(d, pos) && Meth(c, pos) == Meth(d, pos)
  {
  }

  lemma FreshAt(kind: Kind, path: string, name: string, pos: Position)
    ensures Has(Fresh(kind, path, name), pos) <==> pos == []
    ensures Meth(Fresh(kind, path, name), pos) == map[]
  {
  }

  /** The bytes a pattern shares with a label, or with a new label, are literal tokens of it. */
  lemma StaticStep(lab: string, p: string, cp: nat)
    requires Clean(p) && p != "" && cp <= |p| && cp <= |lab|
    requires Plain(lab) && lab[..cp] == p[..cp]
    ensures Tokens(p) == Lits(lab[..cp]) + Tokens(SkipSlash(p[cp..]))
    ensures Clean(SkipSlash(p[cp..]))
  {
    assert forall k :: 0 <= k < cp ==> p[..cp][k] == lab[k];
    GapRun(p, cp);
    TokensLits(p, cp);
  }

  lemma SharedFirst(c: Node, p: string)
    requires p != "" && Takes(c, Lit(p[0]))
    ensures CommonPrefixLen(c.path, p) > 0
    ensures Clip(c, CommonPrefixLen(c.path, p)).kind == Static
    ensures Clip(c, CommonPrefixLen(c.path, p)).path == c.path[..CommonPrefixLen(c.path, p)]
  {
  }

  lemma ClipWellFormed(c: Node, cp: nat)
    requires c.kind == Static && WellFormed(c) && WellFormedEdge(c) && 0 < cp <= |c.path|
    ensures WellFormed(Clip(c, cp)) && WellFormedEdge(Clip(c, cp))
  {
  }

  // ---- One step of the descent --------------------------------------------

  /** Where `Insert` goes next: the (possibly clipped or fresh) child, its edge, and the rest of the pattern. */
  datatype Hop = Hop(child: Node, edge: Position, rest: string)

  function Enter(t: Node, p: string): Option<Hop> {
    if p == "" || p[0] == '*' then None
    else
      var i := Pick(t.children, Head(p));
      var found := i < |t.children|;
      if p[0] == ':' then
        if found && t.children[i].paramName != ParamName(p) then None
        else
          var child := if found then t.children[i] else Fresh(Param, "", ParamName(p));
          Some(Hop(child, [Par(ParamName(p))], AfterParam(p)))
      else if found then
        var cp := CommonPrefixLen(t.children[i].path, p);
        Some(Hop(Clip(t.children[i], cp), Lits(p[..cp]), SkipSlash(p[cp..])))
      else
        var k := RunLength(p);
        Some(Hop(Fresh(Static, p[..k], ""), Lits(p[..k]), SkipSlash(p[k..])))
  }

  /** A descending insertion is a graft of the inserted child. */
  lemma InsertIsGraft(t: Node, p: string, m: Method, chain: Chain)
    requires Enter(t, p).Some?
    ensures var h := Enter(t, p).value;
            var (c, s) := Insert(h.child, h.rest, m, chain);
            Insert(t, p, m, chain) == (Graft(t, Pick(t.children, Head(p)), c), s)
  {
  }

  /** Below a node without children and handlers nothing is refused. */
  lemma {:induction false} FreshAccepts(t: Node, p: string, m: Method, chain: Chain)
    requires t.children == [] && t.methods == map[]
    ensures Insert(t, p, m, chain).1 == Added
    decreases |p|
  {
    if Enter(t, p).Some? {
      var h := Enter(t, p).value;
      FreshAccepts(h.child, h.rest, m, chain);
      InsertIsGraft(t, p, m, chain);
    }
  }

  ghost predicate GoodHop(t: Node, p: string, h: Hop)
    requires p != ""
  {
    && |h.rest| < |p| && Clean(h.rest)
    && h.edge != [] && h.child.Edge() == h.edge && Tokens(p) == h.edge + Tokens(h.rest)
    && Takes(h.child, Head(p)) && Takes(h.child, h.edge[0]) && WellFormed(h.child) && WellFormedEdge(h.child)
    && var i := Pick(t.children, Head(p)); i < |t.children| ==> Clash(h.child, t.children[i])
  }

  /** The step eats the head of the pattern and lands on a well-formed child with the right edge. */
  lemma HopShape(t: Node, p: string)
    requires WellFormed(t) && Clean(p) && Enter(t, p).Some?
    ensures GoodHop(t, p, Enter(t, p).value)
  {
    if p[0] == ':' {
      ParamShape(t, p);
    } else if Pick(t.children, Head(p)) < |t.children| {
      ClipShape(t, p);
    } else {
      RunShape(t, p);
    }
  }

  lemma ClipShape(t: Node, p: string)
    requires WellFormed(t) && Clean(p) && p != "" && !Special(p[0]) && Pick(t.children, Head(p)) < |t.children|
    ensures Enter(t, p).Some? && GoodHop(t, p, Enter(t, p).value)
  {
    hide *;
    ClipEnters(t, p);
    var c := t.children[Pick(t.children, Head(p))];
    var cp := CommonPrefixLen(c.path, p);
    SharedFirst(c, p);
    StaticStep(c.path, p, cp);
    ClipWellFormed(c, cp);
    ClipGood(t, p, c, cp);
  }

  lemma ClipEnters(t: Node, p: string)
    requires WellFormed(t) && p != "" && !Special(p[0]) && Pick(t.children, Head(p)) < |t.children|
    ensures var c := t.children[Pick(t.children, Head(p))];
      var cp := CommonPrefixLen(c.path, p);
      && c.kind == Static && WellFormed(c) && WellFormedEdge(c) && Plain(c.path) && Takes(c, Lit(p[0]))
      && Enter(t, p) == Some(Hop(Clip(c, cp), Lits(p[..cp]), SkipSlash(p[cp..])))
  {
    assert WellFormedEdge(t.children[Pick(t.children, Head(p))]);
    hide Plain, CommonPrefixLen;
  }

  lemma ClipGood(t: Node, p: string, c: Node, cp: nat)
    requires p != "" && !Special(p[0]) && Pick(t.children, Head(p)) < |t.children| && c == t.children[Pick(t.children, Head(p))]
    requires 0 < cp <= |p| && cp <= |c.path| && c.path[..cp] == p[..cp] && c.kind == Static
    requires Tokens(p) == Lits(c.path[..cp]) + Tokens(SkipSlash(p[cp..])) && Clean(SkipSlash(p[cp..]))
    requires var d := Clip(c, cp); d.kind == Static && d.path == c.path[..cp] && WellFormed(d) && WellFormedEdge(d)
    ensures GoodHop(t, p, Hop(Clip(c, cp), Lits(p[..cp]), SkipSlash(p[cp..])))
  {
    hide WellFormed, WellFormedEdge, Tokens, Gap, Pick, Clip;
    assert p[..cp][0] == p[0] == c.path[0];
  }

  lemma RunShape(t: Node, p: string)
    requires WellFormed(t) && Clean(p) && p != "" && !Special(p[0]) && Pick(t.children, Head(p)) == |t.children|
    ensures GoodHop(t, p, Enter(t, p).value)
  {
    hide Tokens, Pick, Gap;
    var k := RunLength(p);
    RunSome(p);
    assert p[..k][..k] == p[..k];
    StaticStep(p[..k], p, k);
    hide RunLength;
    assert p[..k][0] == p[0];
  }

  lemma RunSome(p: string)
    requires p != "" && !Special(p[0])
    ensures RunLength(p) > 0
  {
  }

  lemma ParamShape(t: Node, p: string)
    requires WellFormed(t) && p != "" && p[0] == ':' && Enter(t, p).Some?
    ensures var h := Enter(t, p).value;
      && h.edge == [Par(ParamName(p))] && h.child.Edge() == h.edge && Tokens(p) == h.edge + Tokens(h.rest)
      && Takes(h.child, Head(p)) && WellFormed(h.child)
      && var i := Pick(t.children, Head(p)); i < |t.children| ==> Clash(h.child, t.children[i])
  {
  }

  lemma AtUnfold(t: Node, pos: Position)
    requires pos != []
    ensures var i := Pick(t.children, pos[0]);
      At(t, pos) == if i < |t.children| && t.children[i].Edge() <= pos then At(t.children[i], pos[|t.children[i].Edge()|..]) else None
  {
  }

  /** What the child the step lands on denotes, seen from above. */
  lemma HopBelow(t: Node, p: string, pos: Position)
    requires WellFormed(t) && Clean(p) && Enter(t, p).Some? && Enter(t, p).value.edge <= pos
    ensures var h := Enter(t, p).value;
      var q := pos[|h.edge|..];
      && Meth(t, pos) == Meth(h.child, q)
      && (Has(t, pos) ==> Has(h.child, q))
      && (q != [] && Has(h.child, q) ==> Has(t, pos))
  {
    hide WellFormed, Tokens, Gap, CommonPrefixLen, RunLength, AfterParam, ParamName, SkipSlash, At, Pick;
    HopShape(t, p);
    AtUnfold(t, pos);
    var h := Enter(t, p).value;
    var i := Pick(t.children, Head(p));
    assert pos[0] == h.edge[0];
    if p[0] != ':' { assert pos[0] == Head(p); }
    if i < |t.children| {
      if p[0] != ':' { AtClip(t.children[i], CommonPrefixLen(t.children[i].path, p), pos); }
    } else {
      FreshAt(h.child.kind, h.child.path, h.child.paramName, pos[|h.edge|..]);
    }
  }

  lemma SameTakes(c: Node, d: Node, tok: Token)
    requires c.kind == d.kind && c.path == d.path && c.paramName == d.paramName
    ensures Takes(c, tok) == Takes(d, tok)
  {
  }

  lemma GraftAlike(t: Node, tok: Token, d: Node, c: Node, pos: Position)
    requires WellFormed(t) && Takes(d, tok) && d.Edge() != [] && Takes(d, d.Edge()[0])
    requires c.kind == d.kind && c.path == d.path && c.paramName == d.paramName
    requires var i := Pick(t.children, tok); i < |t.children| ==> Clash(d, t.children[i])
    ensures var t' := Graft(t, Pick(t.children, tok), c);
      && t'.methods == t.methods && c.Edge() == d.Edge()
      && (pos == [] ==> Has(t, pos) && Has(t', pos) && Meth(t', pos) == Meth(t, pos))
      && (d.Edge() <= pos ==> Has(t', pos) == Has(c, pos[|d.Edge()|..]) && Meth(t', pos) == Meth(c, pos[|d.Edge()|..]))
      && (pos != [] && !Takes(c, pos[0]) ==> Has(t', pos) == Has(t, pos) && Meth(t', pos) == Meth(t, pos))
      && (pos != [] && Takes(c, pos[0]) && !(d.Edge() <= pos) ==> !Has(t', pos) && Meth(t', pos) == map[])
  {
    hide WellFormed, Pick;
    if pos != [] {
      AtGraft(t, tok, c, pos);
      if d.Edge() <= pos { assert pos[0] == d.Edge()[0]; }
    }
  }

  /** Nothing outside the edge the step follows changes. */
  lemma HopElsewhere(t: Node, p: string, c: Node, pos: Position)
    requires WellFormed(t) && Clean(p) && Enter(t, p).Some?
    requires var h := Enter(t, p).value;
      c.kind == h.child.kind && c.path == h.child.path && c.paramName == h.child.paramName
    ensures var h := Enter(t, p).value;
      var t' := Graft(t, Pick(t.children, Head(p)), c);
      && t'.methods == t.methods
      && (h.edge <= pos ==> Has(t', pos) == Has(c, pos[|h.edge|..]) && Meth(t', pos) == Meth(c, pos[|h.edge|..]))
      && (!(h.edge <= pos) ==> Has(t', pos) == Has(t, pos) && Meth(t', pos) == Meth(t, pos))
  {
    HopShape(t, p);
    var h := Enter(t, p).value;
    GraftAlike(t, Head(p), h.child, c, pos);
    hide *;
    if !(h.edge <= pos) && pos != [] && Takes(c, pos[0]) { SameTakes(c, h.child, pos[0]); Missed(t, p, pos); }
  }

  /** A position that leaves the edge in the middle was no node before. */
  lemma Missed(t: Node, p: string, pos: Position)
    requires WellFormed(t) && Clean(p) && Enter(t, p).Some? && pos != []
    requires var h := Enter(t, p).value; !(h.edge <= pos) && Takes(h.child, pos[0])
    ensures !Has(t, pos) && Meth(t, pos) == map[]
  {
    HopShape(t, p);
    NoClash(t);
    hide WellFormed, Tokens, Gap, CommonPrefixLen, RunLength, AfterParam, ParamName, SkipSlash;
    var h := Enter(t, p).value;
    var i := Pick(t.children, Head(p));
    if i < |t.children| {
      PickUnique(t.children, i, pos[0]);
      assert h.edge <= t.children[i].Edge();
    } else if pos[0] != Head(p) {
      PickByKind(t.children, pos[0], Head(p));
    }
  }

  lemma LeafAt(leaf: Node, q: Position)
    requires leaf.children == []
    ensures Has(leaf, q) == (q == []) && Meth(leaf, q) == if q == [] then leaf.methods else map[]
  {
  }

  /** Where no catch-all child is, no position goes through one. */
  lemma NothingTaken(t: Node, tok: Token, pos: Position)
    requires tok.Any? && Pick(t.children, tok) == |t.children| && pos != []
    ensures pos[0].Any? ==> !Has(t, pos) && Meth(t, pos) == map[]
  {
    if pos[0].Any? { PickByKind(t.children, pos[0], tok); }
  }

  lemma LastStepAny(t: Node, p: string, m: Method, chain: Chain, pos: Position)
    requires WellFormed(t) && p != "" && p[0] == '*'
    requires Pick(t.children, Head(p)) == |t.children|
    ensures var t' := Graft(t, |t.children|, Node(CatchAll, "", p[1..], map[m := chain], []));
      && Meth(t', pos) == (if pos == [Head(p)] then map[m := chain] else Meth(t, pos))
      && (Has(t', pos) <==> Has(t, pos) || pos == [Head(p)])
      && (pos == [Head(p)] ==> Meth(t, pos) == map[])
  {
    var leaf := Node(CatchAll, "", p[1..], map[m := chain], []);
    assert leaf.Edge() == [Head(p)];
    GraftAlike(t, Head(p), leaf, leaf, pos);
    hide WellFormed, Pick, At, Graft;
    if pos != [] {
      HeadTail(pos);
      LeafAt(leaf, pos[1..]);
      NothingTaken(t, Head(p), pos);
    }
  }

  /** The step that does not descend: the end of the pattern, a catch-all, or a refusal. */
  lemma LastStep(t: Node, p: string, m: Method, chain: Chain, pos: Position)
    requires WellFormed(t) && Enter(t, p).None?
    ensures var (t', s) := Insert(t, p, m, chain);
      && (s != Added ==> t' == t)
      && (s == Added ==>
            && Meth(t', pos) == (if pos == Tokens(p) then Meth(t, pos)[m := chain] else Meth(t, pos))
            && (Has(t', pos) <==> Has(t, pos) || pos == Tokens(p)))
  {
    hide WellFormed, Pick, Graft;
    if p != "" && p[0] == '*' && Pick(t.children, Head(p)) == |t.children| { LastStepAny(t, p, m, chain, pos); }
  }

  // ---- The effect of an insertion -----------------------------------------

  /** An insertion gives the chain to its own position and method, and disturbs no other route. */
  lemma {:induction false} InsertMeth(t: Node, p: string, m: Method, chain: Chain, pos: Position)
    requires WellFormed(t) && Clean(p)
    ensures var (t', s) := Insert(t, p, m, chain);
            Meth(t', pos) == if s == Added && pos == Tokens(p) then Meth(t, pos)[m := chain] else Meth(t, pos)
    decreases |p|
  {
    hide *;
    match Enter(t, p)
    case None => LastStep(t, p, m, chain, pos);
    case Some(h) =>
      HopShape(t, p);
      InsertIsGraft(t, p, m, chain);
      HopElsewhere(t, p, Insert(h.child, h.rest, m, chain).0, pos);
      if h.edge <= pos {
        var q := pos[|h.edge|..];
        assert pos == h.edge + q;
        HopBelow(t, p, pos);
        InsertMeth(h.child, h.rest, m, chain, q);
      } else {
        assert pos != Tokens(p);
      }
  }

  /** Insertion, even a refused one, removes no node. */
  lemma {:induction false} InsertKeeps(t: Node, p: string, m: Method, chain: Chain, pos: Position)
    requires WellFormed(t) && Clean(p) && Has(t, pos)
    ensures Has(Insert(t, p, m, chain).0, pos)
    decreases |p|
  {
    hide *;
    match Enter(t, p)
    case None => LastStep(t, p, m, chain, pos);
    case Some(h) =>
      HopShape(t, p);
      InsertIsGraft(t, p, m, chain);
      HopElsewhere(t, p, Insert(h.child, h.rest, m, chain).0, pos);
      if h.edge <= pos {
        HopBelow(t, p, pos);
        InsertKeeps(h.child, h.rest, m, chain, pos[|h.edge|..]);
      }
  }

  /** The stops of a pattern, one step of the descent at a time. */
  lemma HopStops(t: Node, p: string, pos: Position)
    requires WellFormed(t) && Clean(p) && Enter(t, p).Some? && pos != []
    ensures var h := Enter(t, p).value;
      && (InnerStop(p, pos) ==> h.edge <= pos)
      && (h.edge <= pos && pos[|h.edge|..] != [] ==> (InnerStop(p, pos) <==> InnerStop(h.rest, pos[|h.edge|..])))
  {
    HopShape(t, p);
    var h := Enter(t, p).value;
    if p[0] != ':' {
      var k := |h.edge|;
      assert h.edge == Lits(p[..k]);
      assert Plain(p[..k]);
      StopsLits(p, k, pos);
      assert h.edge <= pos <==> |pos| >= k && pos[..k] == h.edge;
    } else {
      assert h.edge <= pos <==> pos[0] == h.edge[0];
    }
  }

  /** A child is the node at its edge. */
  lemma EdgeIsNode(t: Node, i: nat)
    requires WellFormed(t) && i < |t.children|
    ensures Has(t, t.children[i].Edge())
  {
    var c := t.children[i];
    var e := c.Edge();
    assert WellFormedEdge(c);
    assert Takes(c, e[0]);
    PickUnique(t.children, i, e[0]);
    assert e[|e|..] == [];
  }

  /** The node the step lands on is justified: it was there, the pattern stops there, or two routes part there. */
  lemma HopLanding(t: Node, p: string) returns (x: Position)
    requires WellFormed(t) && Clean(p) && Enter(t, p).Some?
    ensures var e := Enter(t, p).value.edge;
      Has(t, e) || Stop(p, e) || (Has(t, x) && Meet(x, Tokens(p)) == e)
  {
    hide *;
    x := [];
    var i := HopCuts(t, p);
    if i < |t.children| {
      EdgeIsNode(t, i);
      x := t.children[i].Edge();
    }
  }

  /** Where the pattern does not stop the step follows a child's edge, to its end or to where the pattern leaves it. */
  lemma HopCuts(t: Node, p: string) returns (i: nat)
    requires WellFormed(t) && Clean(p) && Enter(t, p).Some?
    ensures var e := Enter(t, p).value.edge;
      Stop(p, e) || (i < |t.children| && (t.children[i].Edge() == e || Meet(t.children[i].Edge(), Tokens(p)) == e))
  {
    HopShape(t, p);
    var h := Enter(t, p).value;
    i := Pick(t.children, Head(p));
    if p[0] != ':' {
      var k := |h.edge|;
      assert h.edge == Lits(p[..k]);
      StopsLits(p, k, h.edge);
      hide WellFormed, Tokens, InnerStop, Gap, Meet, Pick;
      if i < |t.children| && !Cut(p[k..]) {
        var c := t.children[i];
        assert h.edge <= c.Edge();
        if k < |c.path| {
          assert Tokens(p)[k] == Tokens(h.rest)[0] == Lit(p[k]) by { RestStarts(p, k); }
          MeetUnique(c.Edge(), Tokens(p), h.edge);
        } else {
          assert h.edge == c.Edge();
        }
      }
    }
  }

  /** What is not cut starts with its first byte. */
  lemma RestStarts(p: string, k: nat)
    requires k < |p| && !Cut(p[k..])
    ensures SkipSlash(p[k..]) == p[k..] && Tokens(p[k..]) != [] && Tokens(p[k..])[0] == Lit(p[k])
  {
  }

  /** Why a position is a node once `p` has been inserted. */
  ghost predicate Wanted(t: Node, p: string, pos: Position) {
    Has(t, pos) || Stop(p, pos) || exists x :: Has(t, x) && Meet(x, Tokens(p)) == pos
  }

  /** A node that parts from the pattern inside the followed edge parts at the root. */
  lemma HopMeets(t: Node, p: string, x: Position)
    requires WellFormed(t) && Clean(p) && Enter(t, p).Some? && Has(t, x)
    ensures var h := Enter(t, p).value;
      var w := Meet(x, Tokens(p));
      && (w != [] ==> h.edge <= w && h.edge <= x && w == h.edge + Meet(x[|h.edge|..], Tokens(h.rest)))
  {
    hide *;
    var h := Enter(t, p).value;
    HopShape(t, p);
    var w := Meet(x, Tokens(p));
    MeetPrefix(x, Tokens(p));
    if w != [] {
      assert x[0] == w[0] == Tokens(p)[0] == h.edge[0];
      if !(h.edge <= x) { Missed(t, p, x); }
      assert x == h.edge + x[|h.edge|..];
      MeetShift(h.edge, x[|h.edge|..], Tokens(h.rest));
    }
  }

  /** The nodes after a successful insertion: the old ones, the stops of the pattern, and where it parts from an old one. */
  lemma {:induction false} InsertHas(t: Node, p: string, m: Method, chain: Chain, pos: Position)
    requires WellFormed(t) && Clean(p) && Insert(t, p, m, chain).1 == Added
    ensures Has(Insert(t, p, m, chain).0, pos) <==> Wanted(t, p, pos)
    decreases |p|
  {
    match Enter(t, p)
    case None =>
      InsertHasLast(t, p, m, chain, pos);
    case Some(h) =>
      hide *;
      HopShape(t, p);
      InsertIsGraft(t, p, m, chain);
      HopElsewhere(t, p, Insert(h.child, h.rest, m, chain).0, pos);
      if h.edge <= pos {
        InsertHas(h.child, h.rest, m, chain, pos[|h.edge|..]);
        WantedBelow(t, p, pos);
      } else {
        WantedElsewhere(t, p, pos);
      }
  }

  lemma InsertHasLast(t: Node, p: string, m: Method, chain: Chain, pos: Position)
    requires WellFormed(t) && Clean(p) && Insert(t, p, m, chain).1 == Added && Enter(t, p).None?
    ensures Has(Insert(t, p, m, chain).0, pos) <==> Wanted(t, p, pos)
  {
    LastStep(t, p, m, chain, pos);
    EndIsStop(p);
    if Stop(p, pos) { StopIsPrefix(p, pos); }
    assert |Tokens(p)| <= 1;
    forall x | Meet(x, Tokens(p)) == pos ensures pos == [] || pos == Tokens(p) {
      MeetPrefix(x, Tokens(p));
    }
  }

  lemma WantedElsewhere(t: Node, p: string, pos: Position)
    requires WellFormed(t) && Clean(p) && Enter(t, p).Some? && !(Enter(t, p).value.edge <= pos)
    ensures Wanted(t, p, pos) <==> Has(t, pos)
  {
    hide Enter, WellFormed, InnerStop, Tokens, Meet;
    if pos != [] {
      HopStops(t, p, pos);
      if exists x :: Has(t, x) && Meet(x, Tokens(p)) == pos {
        var x :| Has(t, x) && Meet(x, Tokens(p)) == pos;
        HopMeets(t, p, x);
      }
    }
  }

  lemma WantedBelow(t: Node, p: string, pos: Position)
    requires WellFormed(t) && Clean(p) && Enter(t, p).Some? && Enter(t, p).value.edge <= pos
    ensures var h := Enter(t, p).value; Wanted(t, p, pos) <==> Wanted(h.child, h.rest, pos[|h.edge|..])
  {
    hide Enter, WellFormed, InnerStop, Tokens, Meet, At;
    var h := Enter(t, p).value;
    HopShape(t, p);
    var q := pos[|h.edge|..];
    assert pos == h.edge + q;
    if q == [] {
      var x := HopLanding(t, p);
      assert pos == h.edge;
      assert Has(h.child, []) by { RootHas(h.child); }
    } else {
      HopBelow(t, p, pos);
      HopStops(t, p, pos);
      if exists x :: Has(t, x) && Meet(x, Tokens(p)) == pos {
        var x :| Has(t, x) && Meet(x, Tokens(p)) == pos;
        HopMeets(t, p, x);
        HopBelow(t, p, x);
        assert Has(h.child, x[|h.edge|..]) && Meet(x[|h.edge|..], Tokens(h.rest)) == q;
      }
      if exists y :: Has(h.child, y) && Meet(y, Tokens(h.rest)) == q {
        var y :| Has(h.child, y) && Meet(y, Tokens(h.rest)) == q;
        MeetPrefix(y, Tokens(h.rest));
        var x := h.edge + y;
        assert x[|h.edge|..] == y;
        HopBelow(t, p, x);
        MeetShift(h.edge, y, Tokens(h.rest));
        assert Has(t, x) && Meet(x, Tokens(p)) == pos;
      }
    }
  }

  lemma RootHas(t: Node)
    ensures Has(t, [])
  {
  }

  // ---- The shape invariant is kept ----------------------------------------

  lemma RivalTakes(c: Node, d: Node, tok: Token)
    requires Takes(c, tok)
    ensures Clash(c, d) || Clash(d, c) ==> Takes(d, tok)
  {
  }

  lemma GraftWellFormed(t: Node, tok: Token, c: Node)
    requires WellFormed(t) && t.kind != CatchAll && WellFormed(c) && WellFormedEdge(c) && Takes(c, tok)
    requires var i := Pick(t.children, tok); i < |t.children| ==> Clash(c, t.children[i])
    ensures WellFormed(Graft(t, Pick(t.children, tok), c))
  {
    var cs := t.children;
    var i := Pick(cs, tok);
    var ds := Graft(t, i, c).children;
    PickOnly(cs, tok);
    forall j | 0 <= j < |cs| && j != i ensures !Clash(c, cs[j]) && !Clash(cs[j], c) {
      RivalTakes(c, cs[j], tok);
    }
    forall a, b | 0 <= a < b < |ds| ensures !Clash(ds[a], ds[b]) {
      assert a != i && b != i ==> !Clash(cs[a], cs[b]);
    }
  }

  /** Every insertion, refused or not, keeps the trie invariant. */
  lemma {:induction false} InsertWellFormed(t: Node, p: string, m: Method, chain: Chain)
    requires WellFormed(t) && t.kind != CatchAll && Clean(p) && chain != []
    ensures WellFormed(Insert(t, p, m, chain).0)
    decreases |p|
  {
    match Enter(t, p)
    case None =>
      if p != "" && p[0] == '*' && Pick(t.children, Head(p)) == |t.children| {
        GraftWellFormed(t, Head(p), Node(CatchAll, "", p[1..], map[m := chain], []));
      }
    case Some(h) =>
      hide WellFormed, WellFormedEdge;
      HopShape(t, p);
      InsertIsGraft(t, p, m, chain);
      InsertWellFormed(h.child, h.rest, m, chain);
      var c := Insert(h.child, h.rest, m, chain).0;
      LabelOnly(c, h.child);
      GraftWellFormed(t, Head(p), c);
  }

  lemma LabelOnly(c: Node, d: Node)
    requires c.kind == d.kind && c.path == d.path && c.paramName == d.paramName && WellFormedEdge(d)
    ensures WellFormedEdge(c)
  {
  }

  // ---- When an insertion is refused ---------------------------------------

  /** A node that stands in the way of a route: another name for one of its parameters, or a catch-all where it ends in one. */
  predicate Blocks(x: Position, w: Position) {
    0 < |x| <= |w| && var k := |x| - 1;
    x[..k] == w[..k] && ((x[k].Par? && w[k].Par? && x[k] != w[k]) || (x[k].Any? && w[k].Any?))
  }

  ghost predicate Blocked(t: Node, w: Position) { exists x :: Has(t, x) && Blocks(x, w) }

  lemma BlocksShift(u: Position, x: Position, w: Position)
    requires x != []
    ensures Blocks(u + x, u + w) == Blocks(x, w)
  {
    var k := |x| - 1;
    assert (u + x)[..|u| + k] == u + x[..k];
    if k < |w| {
      assert (u + w)[..|u| + k] == u + w[..k];
      assert (u + x)[..|u| + k] == (u + w)[..|u| + k] <==> x[..k] == w[..k] by {
        assert (u + x[..k])[|u|..] == x[..k] && (u + w[..k])[|u|..] == w[..k];
      }
    }
  }

  /** What blocks a route below the step blocks it, and nothing else does. */
  lemma BlockedBelow(t: Node, p: string)
    requires WellFormed(t) && Clean(p) && Enter(t, p).Some?
    ensures var h := Enter(t, p).value; Blocked(t, Tokens(p)) <==> Blocked(h.child, Tokens(h.rest))
  {
    hide Enter, WellFormed, Tokens, At, Has, Blocks;
    var h := Enter(t, p).value;
    if x :| Has(t, x) && Blocks(x, Tokens(p)) { BlockerBelow(t, p, x); }
    if y :| Has(h.child, y) && Blocks(y, Tokens(h.rest)) { BlockerAbove(t, p, y); }
  }

  lemma BlockerBelow(t: Node, p: string, x: Position)
    requires WellFormed(t) && Clean(p) && Enter(t, p).Some? && Has(t, x) && Blocks(x, Tokens(p))
    ensures var h := Enter(t, p).value; Blocked(h.child, Tokens(h.rest))
  {
    hide *;
    BlockerDescends(t, p, x);
    HopShape(t, p);
    var h := Enter(t, p).value;
    var y := x[|h.edge|..];
    assert x == h.edge + y && y != [];
    BlocksShift(h.edge, y, Tokens(h.rest));
    HopBelow(t, p, x);
    BlockedBy(h.child, Tokens(h.rest), y);
  }

  lemma BlockerAbove(t: Node, p: string, y: Position)
    requires WellFormed(t) && Clean(p) && Enter(t, p).Some?
    requires var h := Enter(t, p).value; Has(h.child, y) && Blocks(y, Tokens(h.rest))
    ensures Blocked(t, Tokens(p))
  {
    hide *;
    HopShape(t, p);
    var h := Enter(t, p).value;
    var x := h.edge + y;
    BlocksNonEmpty(y, Tokens(h.rest));
    BlocksShift(h.edge, y, Tokens(h.rest));
    assert x[|h.edge|..] == y;
    HopBelow(t, p, x);
    BlockedBy(t, Tokens(p), x);
  }

  lemma BlockedBy(t: Node, w: Position, x: Position)
    requires Has(t, x) && Blocks(x, w)
    ensures Blocked(t, w)
  {
  }

  lemma BlocksNonEmpty(y: Position, w: Position)
    requires Blocks(y, w)
    ensures y != []
  {
  }

  lemma BlockerDescends(t: Node, p: string, x: Position)
    requires WellFormed(t) && Clean(p) && Enter(t, p).Some? && Has(t, x) && Blocks(x, Tokens(p))
    ensures Enter(t, p).value.edge < x
  {
    HopShape(t, p);
    HeadKind(t, p);
    var e, w := Enter(t, p).value.edge, Tokens(p);
    if |x| == 1 {
      ShallowBlocker(t, p, x);
    } else {
      hide Enter, WellFormed, Tokens, At;
      var k := |x| - 1;
      assert x[0] == x[..k][0] == w[..k][0] == e[0];
      if !(e <= x) { Missed(t, p, x); }
      assert forall j :: 0 <= j < |e| ==> w[j] == e[j];
    }
  }

  /** A parameter the step can enter has the pattern's own name. */
  lemma ShallowBlocker(t: Node, p: string, x: Position)
    requires WellFormed(t) && Clean(p) && Enter(t, p).Some? && Has(t, x) && |x| == 1
    ensures !Blocks(x, Tokens(p))
  {
    HeadKind(t, p);
    if x[0].Par? && p[0] == ':' { PickByKind(t.children, x[0], Head(p)); }
  }

  lemma HeadKind(t: Node, p: string)
    requires WellFormed(t) && Clean(p) && Enter(t, p).Some?
    ensures !Enter(t, p).value.edge[|Enter(t, p).value.edge| - 1].Any? && !Tokens(p)[0].Any?
    ensures Tokens(p)[0].Par? <==> p[0] == ':'
  {
    HopShape(t, p);
  }

  /** Registration succeeds exactly when no node stands in the way and the method is still free there. */
  lemma {:induction false} InsertAccepts(t: Node, p: string, m: Method, chain: Chain)
    requires WellFormed(t) && Clean(p)
    ensures Insert(t, p, m, chain).1 == Added <==> !Blocked(t, Tokens(p)) && m !in Meth(t, Tokens(p))
    decreases |p|
  {
    match Enter(t, p)
    case None =>
      AcceptsLast(t, p, m, chain);
    case Some(h) =>
      hide *;
      HopShape(t, p);
      InsertIsGraft(t, p, m, chain);
      InsertAccepts(h.child, h.rest, m, chain);
      BlockedBelow(t, p);
      assert Tokens(p)[|h.edge|..] == Tokens(h.rest);
      HopBelow(t, p, Tokens(p));
  }

  lemma AcceptsLast(t: Node, p: string, m: Method, chain: Chain)
    requires WellFormed(t) && Clean(p) && Enter(t, p).None?
    ensures Insert(t, p, m, chain).1 == Added <==> !Blocked(t, Tokens(p)) && m !in Meth(t, Tokens(p))
  {
    if p != "" {
      var i := Pick(t.children, Head(p));
      if i < |t.children| {
        var x := t.children[i].Edge();
        PickByKind(t.children, x[0], Head(p));
        assert x[|x|..] == [];
        assert Has(t, x);
        assert x[..0] == Tokens(p)[..0];
        assert Blocks(x, Tokens(p));
      } else {
        forall x | Blocks(x, Tokens(p)) ensures !Has(t, x) {
          assert |x| == 1;
          PickByKind(t.children, x[0], Head(p));
        }
      }
    }
  }
}
