/** The radix trie of the router as a value: its shape, its invariant and what it denotes. */
module Trie {
  import opened Text
  import opened Patterns

  datatype Method = GET | POST | PUT | DELETE | PATCH | HEAD | OPTIONS

  const ALL_METHODS: seq<Method> := [GET, POST, PUT, DELETE, PATCH, HEAD, OPTIONS]

  lemma EveryMethod(m: Method)
    ensures m in ALL_METHODS
  {
    match m
    case GET => assert ALL_METHODS[0] == m;
    case POST => assert ALL_METHODS[1] == m;
    case PUT => assert ALL_METHODS[2] == m;
    case DELETE => assert ALL_METHODS[3] == m;
    case PATCH => assert ALL_METHODS[4] == m;
    case HEAD => assert ALL_METHODS[5] == m;
    case OPTIONS => assert ALL_METHODS[6] == m;
  }

  /** A handler chain; a handler is named by a number. */
  type Chain = seq<nat>

  type Methods = map<Method, Chain>

  datatype Kind = Static | Param | CatchAll

  datatype Node = Node(kind: Kind, path: string, paramName: string, methods: Methods, children: seq<Node>) {
    /** The tokens spelled by walking over the edge into this node. */
    function Edge(): Position {
      match kind
      case Static => Lits(path)
      case Param => [Par(paramName)]
      case CatchAll => [Any(paramName)]
    }
  }

  const ROOT: Node := Node(Static, "/", "", map[], [])

  predicate HasHandler(t: Node, m: Method) { m in t.methods && t.methods[m] != [] }

  /** The edge into `c` is the one to follow for token `tok`, whatever a parameter is called. */
  predicate Takes(c: Node, tok: Token) {
    match tok
    case Lit(x) => c.kind == Static && c.path != "" && c.path[0] == x
    case Par(_) => c.kind == Param
    case Any(_) => c.kind == CatchAll
  }

  /** The first child that takes `tok`, or the number of children. */
  function Pick(cs: seq<Node>, tok: Token): (i: nat)
    ensures i <= |cs|
    ensures i < |cs| ==> Takes(cs[i], tok)
    ensures forall j :: 0 <= j < i ==> !Takes(cs[j], tok)
  {
    if cs == [] || Takes(cs[0], tok) then 0 else 1 + Pick(cs[1..], tok)
  }

  lemma PickIs(cs: seq<Node>, tok: Token, i: nat)
    requires i <= |cs| && (i < |cs| ==> Takes(cs[i], tok))
    requires forall j :: 0 <= j < i ==> !Takes(cs[j], tok)
    ensures Pick(cs, tok) == i
  {
    var k := Pick(cs, tok);
    assert k < |cs| ==> Takes(cs[k], tok);
    assert i < |cs| ==> Takes(cs[i], tok);
  }

  lemma PickUpdate(cs: seq<Node>, i: nat, c: Node, tok: Token)
    requires i < |cs| && (Takes(c, tok) <==> Takes(cs[i], tok))
    ensures Pick(cs[i := c], tok) == Pick(cs, tok)
  {
    PickIs(cs[i := c], tok, Pick(cs, tok));
  }

  lemma PickAppend(cs: seq<Node>, c: Node, tok: Token)
    ensures Pick(cs, tok) < |cs| ==> Pick(cs + [c], tok) == Pick(cs, tok)
    ensures Pick(cs, tok) == |cs| ==> Pick(cs + [c], tok) == if Takes(c, tok) then |cs| else |cs| + 1
  {
    var k := Pick(cs, tok);
    PickIs(cs + [c], tok, if k < |cs| || Takes(c, tok) then k else k + 1);
  }

  // ---- What a trie denotes ------------------------------------------------

  /** The node at a position, when the trie has one there. */
  function At(t: Node, pos: Position): Option<Node>
    decreases t
  {
    if pos == [] then Some(t)
    else
      var i := Pick(t.children, pos[0]);
      if i < |t.children| && t.children[i].Edge() <= pos
      then At(t.children[i], pos[|t.children[i].Edge()|..])
      else None
  }

  predicate Has(t: Node, pos: Position) { At(t, pos).Some? }

  /** The handler table at a position; empty where there is no node. */
  function Meth(t: Node, pos: Position): Methods {
    match At(t, pos)
    case Some(n) => n.methods
    case None => map[]
  }

  // ---- Shape invariant ----------------------------------------------------

  /** Two siblings compete for the same token. */
  predicate Clash(c: Node, d: Node) {
    c.kind == d.kind && (c.kind == Static ==> c.path != "" && d.path != "" && c.path[0] == d.path[0])
  }

  /** Non-empty special-free labels; siblings never compete; catch-alls are leaves; chains are non-empty. */
  predicate WellFormed(t: Node)
    decreases t
  {
    && (forall m :: m in t.methods ==> t.methods[m] != [])
    && (t.kind == CatchAll ==> t.children == [])
    && (forall i, j :: 0 <= i < j < |t.children| ==> !Clash(t.children[i], t.children[j]))
    && (forall i :: 0 <= i < |t.children| ==> WellFormedEdge(t.children[i]))
    && (forall i :: 0 <= i < |t.children| ==> WellFormed(t.children[i]))
  }

  predicate WellFormedEdge(c: Node) { c.kind == Static ==> c.path != "" && Plain(c.path) }

  /** Among well-formed siblings the child that takes a token is unique. */
  lemma PickUnique(cs: seq<Node>, i: nat, tok: Token)
    requires forall a, b :: 0 <= a < b < |cs| ==> !Clash(cs[a], cs[b])
    requires i < |cs| && Takes(cs[i], tok)
    ensures Pick(cs, tok) == i
  {
    var k := Pick(cs, tok);
    assert k < i ==> Clash(cs[k], cs[i]);
  }

  lemma PickOnly(cs: seq<Node>, tok: Token)
    requires forall a, b :: 0 <= a < b < |cs| ==> !Clash(cs[a], cs[b])
    ensures forall j :: 0 <= j < |cs| && Takes(cs[j], tok) ==> j == Pick(cs, tok)
  {
    forall j | 0 <= j < |cs| && Takes(cs[j], tok) ensures j == Pick(cs, tok) { PickUnique(cs, j, tok); }
  }

  // ---- Insertion (src/router.cpp, insert) ---------------------------------

  datatype Status = Added | DuplicateRoute | ParamConflict | DuplicateCatchAll

  function CommonPrefixLen(a: string, b: string): (n: nat)
    ensures n <= |a| && n <= |b|
    ensures a[..n] == b[..n]
    ensures n < |a| && n < |b| ==> a[n] != b[n]
  {
    if a == "" || b == "" || a[0] != b[0] then 0
    else
      var n := CommonPrefixLen(a[1..], b[1..]);
      assert a == [a[0]] + a[1..] && b == [b[0]] + b[1..];
      1 + n
  }

  function Fresh(kind: Kind, path: string, paramName: string): Node {
    Node(kind, path, paramName, map[], [])
  }

  /** Cuts the edge into `c` after `cp` bytes; what `c` was hangs below the cut. */
  function Split(c: Node, cp: nat): Node
    requires cp <= |c.path|
  {
    Node(Static, c.path[..cp], "", map[], [c.(path := c.path[cp..])])
  }

  function Clip(c: Node, cp: nat): Node
    requires cp <= |c.path|
  {
    if cp == |c.path| then c else Split(c, cp)
  }

  /** The static part of a pattern: up to the next special byte. */
  function RunLength(p: string): (k: nat)
    ensures k <= |p| && Plain(p[..k]) && Cut(p[k..])
  {
    if p == "" || Special(p[0]) then 0
    else
      var k := RunLength(p[1..]);
      assert p[..k + 1] == [p[0]] + p[1..][..k];
      assert p[1..][k..] == p[k + 1..];
      k + 1
  }

  /** The token a pattern tail starts with. */
  function Head(p: string): Token
    requires p != ""
  {
    if p[0] == ':' then Par(ParamName(p)) else if p[0] == '*' then Any(p[1..]) else Lit(p[0])
  }

  /** `t` with `c` as its child number `i`, appended when there is no such child yet. */
  function Graft(t: Node, i: nat, c: Node): Node {
    t.(children := if i < |t.children| then t.children[i := c] else t.children + [c])
  }

  /** Inserts the route tail `p` below `t`. A failure can leave a split edge behind. */
  function Insert(t: Node, p: string, m: Method, chain: Chain): (r: (Node, Status))
    ensures r.0.kind == t.kind && r.0.path == t.path && r.0.paramName == t.paramName
    decreases |p|
  {
    if p == "" then
      if HasHandler(t, m) then (t, DuplicateRoute) else (t.(methods := t.methods[m := chain]), Added)
    else
      var i := Pick(t.children, Head(p));
      var found := i < |t.children|;
      if p[0] == ':' then
        if found && t.children[i].paramName != ParamName(p) then (t, ParamConflict)
        else
          var child := if found then t.children[i] else Fresh(Param, "", ParamName(p));
          var (c, s) := Insert(child, AfterParam(p), m, chain);
          (Graft(t, i, c), s)
      else if p[0] == '*' then
        if found then (t, DuplicateCatchAll)
        else (Graft(t, i, Node(CatchAll, "", p[1..], map[m := chain], [])), Added)
      else if found then
        var cp := CommonPrefixLen(t.children[i].path, p);
        var (c, s) := Insert(Clip(t.children[i], cp), SkipSlash(p[cp..]), m, chain);
        (Graft(t, i, c), s)
      else
        var k := RunLength(p);
        var (c, s) := Insert(Fresh(Static, p[..k], ""), SkipSlash(p[k..]), m, chain);
        (Graft(t, i, c), s)
  }
}
