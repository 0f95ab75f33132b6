/** What a refused insertion leaves behind: split edges, and exactly where. */
module TrieRefused {
  import opened Patterns
  import opened Trie
  import opened TrieInsert

  /** The position lies on a branch of the trie: at a node, or inside an edge. */
  ghost predicate On(t: Node, pos: Position) { exists x :: Has(t, x) && pos <= x }

  /** A stop of the pattern on a branch that is there already. */
  ghost predicate Torn(t: Node, p: string, pos: Position) { Stop(p, pos) && On(t, pos) }

  lemma OnAt(t: Node, pos: Position, x: Position)
    requires Has(t, x) && pos <= x
    ensures On(t, pos)
  {
  }

  /** Every branch starts with the edge its first token picks. */
  lemma BranchStarts(t: Node, x: Position)
    requires Has(t, x) && x != []
    ensures Pick(t.children, x[0]) < |t.children| && t.children[Pick(t.children, x[0])].Edge() <= x
  {
  }

  /** The step that does not descend tears nothing when it is refused. */
  lemma LastTears(t: Node, p: string, m: Method, chain: Chain, pos: Position)
    requires WellFormed(t) && Clean(p) && Enter(t, p).None? && Insert(t, p, m, chain).1 != Added
    ensures Insert(t, p, m, chain).0 == t && (Torn(t, p, pos) ==> Has(t, pos))
  {
    if Torn(t, p, pos) && pos != [] {
      var x :| Has(t, x) && pos <= x;
      BranchStarts(t, x);
      EdgeIsNode(t, Pick(t.children, x[0]));
      hide WellFormed, At;
      assert x[0] == pos[0] == Head(p);
      if p[0] == '*' { assert t.children[Pick(t.children, x[0])].Edge() == [x[0]] == pos; }
    }
  }

  /** A refused descent lands on a node that was there, or tears an edge at a stop of the pattern. */
  lemma HopTears(t: Node, p: string, m: Method, chain: Chain)
    requires WellFormed(t) && Clean(p) && Enter(t, p).Some?
    requires var h := Enter(t, p).value; Insert(h.child, h.rest, m, chain).1 != Added
    ensures var e := Enter(t, p).value.edge; Has(t, e) || Torn(t, p, e)
  {
    var h := Enter(t, p).value;
    var i := Pick(t.children, Head(p));
    HopShape(t, p);
    if i == |t.children| {
      FreshAccepts(h.child, h.rest, m, chain);
    } else if p[0] == ':' {
      EdgeIsNode(t, i);
    } else {
      var c := t.children[i];
      var cp := |h.edge|;
      EdgeIsNode(t, i);
      SharedFirst(c, p);
      assert h.edge == Lits(p[..cp]) && h.edge <= c.Edge();
      if cp == |c.path| {
        assert h.edge == c.Edge();
      } else {
        OnAt(t, h.edge, c.Edge());
        if !Cut(p[cp..]) { PartsAccepts(c, cp, h.rest, m, chain); }
        assert Plain(p[..cp]) by { assert forall k :: 0 <= k < cp ==> p[..cp][k] == c.path[k]; assert WellFormedEdge(c); }
        StopsLits(p, cp, h.edge);
      }
    }
  }

  /** Nothing is refused where the pattern parts from a split edge at a literal byte. */
  lemma PartsAccepts(c: Node, cp: nat, p: string, m: Method, chain: Chain)
    requires 0 < cp < |c.path| && c.kind == Static && WellFormed(Split(c, cp)) && Clean(p)
    requires p != "" && !Special(p[0]) && p[0] != c.path[cp]
    ensures Insert(Split(c, cp), p, m, chain).1 == Added
  {
    var s := Split(c, cp);
    InsertAccepts(s, p, m, chain);
    var w := Tokens(p);
    assert w[0] == Lit(p[0]);
    hide Insert, WellFormed;
    if x :| Has(s, x) && Blocks(x, w) {
      BranchStarts(s, x);
      BlocksHead(x, w);
    }
    if Has(s, w) { BranchStarts(s, w); }
  }

  /** What blocks a route starts like it, where the route starts with a literal. */
  lemma BlocksHead(x: Position, w: Position)
    requires Blocks(x, w) && w[0].Lit?
    ensures x[0] == w[0]
  {
    var k := |x| - 1;
    if k > 0 { assert x[..k][0] == w[..k][0]; }
  }

  /** Being on a branch, one step of the descent at a time. */
  lemma OnBelow(t: Node, p: string, pos: Position)
    requires WellFormed(t) && Clean(p) && Enter(t, p).Some? && Enter(t, p).value.edge < pos
    ensures var h := Enter(t, p).value; On(t, pos) <==> On(h.child, pos[|h.edge|..])
  {
    hide Enter, WellFormed, At, Has, Clean;
    var h := Enter(t, p).value;
    var q := pos[|h.edge|..];
    assert pos == h.edge + q;
    if On(t, pos) {
      var x :| Has(t, x) && pos <= x;
      HopBelow(t, p, x);
      OnAt(h.child, q, x[|h.edge|..]);
    }
    if On(h.child, q) {
      var y :| Has(h.child, y) && q <= y;
      assert (h.edge + y)[|h.edge|..] == y;
      HopBelow(t, p, h.edge + y);
      OnAt(t, pos, h.edge + y);
    }
  }

  /** The same for nodes and torn edges. */
  lemma TornBelow(t: Node, p: string, pos: Position)
    requires WellFormed(t) && Clean(p) && Enter(t, p).Some? && Enter(t, p).value.edge < pos
    ensures var h := Enter(t, p).value;
      var q := pos[|h.edge|..];
      && (Has(t, pos) <==> Has(h.child, q)) && (Torn(t, p, pos) <==> Torn(h.child, h.rest, q))
  {
    hide Enter, WellFormed, At, Has, Clean, On, InnerStop;
    HopStops(t, p, pos);
    HopBelow(t, p, pos);
    OnBelow(t, p, pos);
  }

  /** After a refused insertion the nodes are the old ones and the stops of the pattern that lie on old branches. */
  lemma {:induction false} RefusedHas(t: Node, p: string, m: Method, chain: Chain, pos: Position)
    requires WellFormed(t) && Clean(p) && Insert(t, p, m, chain).1 != Added
    ensures Has(Insert(t, p, m, chain).0, pos) <==> Has(t, pos) || Torn(t, p, pos)
    decreases |p|
  {
    match Enter(t, p)
    case None => LastTears(t, p, m, chain, pos);
    case Some(h) =>
      hide *;
      HopShape(t, p);
      InsertIsGraft(t, p, m, chain);
      HopElsewhere(t, p, Insert(h.child, h.rest, m, chain).0, pos);
      if h.edge < pos {
        RefusedHas(h.child, h.rest, m, chain, pos[|h.edge|..]);
        TornBelow(t, p, pos);
      } else if h.edge == pos {
        RefusedHas(h.child, h.rest, m, chain, []);
        assert pos[|h.edge|..] == [];
        RootHas(h.child);
        HopTears(t, p, m, chain);
      } else {
        NotTorn(t, p, pos);
      }
  }

  lemma NotTorn(t: Node, p: string, pos: Position)
    requires WellFormed(t) && Clean(p) && Enter(t, p).Some? && !(Enter(t, p).value.edge <= pos)
    ensures Torn(t, p, pos) ==> Has(t, pos)
  {
    if pos == [] { RootHas(t); } else { HopStops(t, p, pos); }
  }
}
