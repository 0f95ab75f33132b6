/** The router itself (src/router.cpp): a trie of linked nodes that insertion rewrites in place, and a search
    that pushes and pops captures in one match record. Both refine the trie as a value. */
module Router {
  import opened Text
  import opened Patterns
  import opened Trie
  import opened TrieSearch
  import opened Routing
  import R = TrieRoutes

  /** common_prefix_len, as the loop it is. */
  method SharedLength(a: string, b: string) returns (n: nat)
    ensures n == CommonPrefixLen(a, b)
  {
    n := if |a| <= |b| then |a| else |b|;
    for i := 0 to n
      invariant a[..i] == b[..i]
    {
      if a[i] != b[i] {
        SharedIs(a, b, i);
        return i;
      }
    }
    SharedIs(a, b, n);
  }

  /** The common prefix is the only agreeing one that cannot be extended. */
  lemma {:induction false} SharedIs(a: string, b: string, n: nat)
    requires n <= |a| && n <= |b| && a[..n] == b[..n] && (n < |a| && n < |b| ==> a[n] != b[n])
    ensures CommonPrefixLen(a, b) == n
  {
    if n > 0 {
      assert a[..n][0] == b[..n][0];
      assert a[1..][..n - 1] == a[..n][1..] && b[1..][..n - 1] == b[..n][1..];
      SharedIs(a[1..], b[1..], n - 1);
    }
  }

  /** A non-empty label shares something with a pattern tail exactly when both start alike. */
  lemma SharedTakes(lab: string, p: string)
    requires lab != "" && p != ""
    ensures CommonPrefixLen(lab, p) == 0 <==> lab[0] != p[0]
  {
  }

  /** route_match: the handlers found, and the captures pushed so far. */
  class RouteMatch {
    var handlers: Chain
    const params: array<Capture>
    var count: nat

    ghost predicate Valid()
      reads this
    {
      params.Length == MAX_CAPTURES && count <= MAX_CAPTURES
    }

    ghost function Captures(): seq<Capture>
      reads this, params
      requires Valid()
    {
      params[..count]
    }

    constructor ()
      ensures Valid() && count == 0 && fresh(params)
    {
      handlers, count := [], 0;
      params := new Capture[MAX_CAPTURES](_ => Capture("", 0, 0));
    }

    /** Pushes one capture. */
    method Push(c: Capture)
      requires Valid() && count < MAX_CAPTURES
      modifies this`count, params
      ensures Valid() && count == old(count) + 1 && Captures() == old(Captures()) + [c]
    {
      params[count] := c;
      count := count + 1;
    }

    /** Takes the last capture back. */
    method Pop()
      requires Valid() && count > 0
      modifies this`count
      ensures Valid() && count == old(count) - 1 && Captures() == old(Captures())[..old(count) - 1]
    {
      count := count - 1;
    }
  }

  /** `r` is what the search has written down: the match, or, after a failure, the captures it started with. */
  ghost predicate Tells(mt: RouteMatch, found: bool, r: Option<Match>, before: seq<Capture>)
    reads mt, mt.params
  {
    && mt.Valid() && found == r.Some?
    && (found ==> mt.handlers == r.value.chain && mt.Captures() == r.value.captures)
    && (!found ==> mt.Captures() == before)
  }

  lemma TellsMeans(mt: RouteMatch, found: bool, r: Option<Match>, before: seq<Capture>)
    requires Tells(mt, found, r, before)
    ensures mt.Valid() && found == r.Some? && (!found ==> mt.Captures() == before)
  {
  }

  lemma TellsNothing(mt: RouteMatch)
    requires mt.Valid()
    ensures Tells(mt, false, None, mt.Captures())
  {
  }

  /** One round of the static loop, in the loop's own terms. */
  lemma StaticTry(t: Node, k: nat, path: string, i: nat, m: Method, caps: seq<Capture>)
    requires k < |t.children| && i < |path|
    ensures var c := t.children[k];
      if c.kind == Static && c.path <= path[i..] then
        var r := TrieSearch.Search(c, path, AfterSlash(path, i + |c.path|), m, caps);
        StaticFrom(t, k, path, i, m, caps) == if r.Some? then r else StaticFrom(t, k + 1, path, i, m, caps)
      else StaticFrom(t, k, path, i, m, caps) == StaticFrom(t, k + 1, path, i, m, caps)
  {
    hide TrieSearch.Search;
  }

  class TrieNode {
    var kind: Kind
    var path: string
    var paramName: string
    var methods: Methods
    var children: seq<TrieNode>
    /** The nodes of this subtree, and the subtree as a value. */
    ghost var repr: set<TrieNode>
    ghost var shape: Node

    ghost predicate Valid()
      reads this, repr
      decreases repr
    {
      && this in repr
      && shape.kind == kind && shape.path == path && shape.paramName == paramName && shape.methods == methods
      && |shape.children| == |children|
      && (forall i :: 0 <= i < |children| ==>
            children[i] in repr && children[i].repr < repr && this !in children[i].repr
            && children[i].Valid() && children[i].shape == shape.children[i])
      && (forall i, j :: 0 <= i < j < |children| ==> children[i].repr !! children[j].repr)
    }

    constructor (kind: Kind, path: string, paramName: string)
      ensures Valid() && fresh(repr) && repr == {this} && shape == Fresh(kind, path, paramName)
    {
      this.kind, this.path, this.paramName := kind, path, paramName;
      methods, children := map[], [];
      repr, shape := {this}, Fresh(kind, path, paramName);
    }

    constructor CatchAllLeaf(name: string, m: Method, chain: Chain)
      ensures Valid() && fresh(repr) && repr == {this} && shape == Node(CatchAll, "", name, map[m := chain], [])
    {
      kind, path, paramName := CatchAll, "", name;
      methods, children := map[m := chain], [];
      repr, shape := {this}, Node(CatchAll, "", name, map[m := chain], []);
    }

    /** The lower half of a cut edge: it takes over everything but the first `cp` bytes of the label. */
    constructor Lower(c: TrieNode, cp: nat)
      requires c.Valid() && cp <= |c.path|
      ensures Valid() && fresh(this) && repr == c.repr - {c} + {this}
      ensures shape == c.shape.(path := c.path[cp..])
    {
      kind, path, paramName := c.kind, c.path[cp..], c.paramName;
      methods, children := c.methods, c.children;
      repr, shape := c.repr - {c} + {this}, c.shape.(path := c.path[cp..]);
    }

    /** The loop over the children of one kind. */
    method FindKind(kind: Kind, ghost tok: Token) returns (i: nat)
      requires Valid() && (if kind == Param then tok.Par? else tok.Any? && kind == CatchAll)
      ensures i == Pick(shape.children, tok) <= |children|
    {
      for k := 0 to |children|
        invariant forall j :: 0 <= j < k ==> !Takes(shape.children[j], tok)
      {
        if children[k].kind == kind {
          PickIs(shape.children, tok, k);
          return k;
        }
      }
      PickIs(shape.children, tok, |children|);
      return |children|;
    }

    /** The loop over the static children: the first that shares a prefix with `p`, and how long that is. */
    method FindStatic(p: string) returns (i: nat, cp: nat)
      requires Valid() && p != "" && !(p[0] == ':' || p[0] == '*')
      ensures i == Pick(shape.children, Head(p)) <= |children|
      ensures i < |children| ==> cp == CommonPrefixLen(children[i].path, p)
    {
      for k := 0 to |children|
        invariant forall j :: 0 <= j < k ==> !Takes(shape.children[j], Head(p))
      {
        var child := children[k];
        if child.kind != Static || child.path == "" { continue; }
        cp := SharedLength(child.path, p);
        SharedTakes(child.path, p);
        if cp == 0 { continue; }
        PickIs(shape.children, Head(p), k);
        return k, cp;
      }
      PickIs(shape.children, Head(p), |children|);
      return |children|, 0;
    }

    /** One child has been rewritten, and nothing else in the subtree. */
    twostate lemma ChildChanged(i: nat)
      requires old(Valid()) && i < |children| && unchanged(`kind, `path, `paramName, `methods, `children)
      requires children[i].Valid() && fresh(children[i].repr - old(children[i].repr))
      requires unchanged(old(repr) - old(children[i].repr) - {this})
      requires repr == old(repr) + children[i].repr
      requires shape == old(shape).(children := old(shape.children)[i := children[i].shape])
      ensures Valid()
    {
      forall j | 0 <= j < |children| && j != i
        ensures children[j].Valid() && children[j].repr == old(children[j].repr) && children[j].shape == old(children[j].shape)
      {
        assert old(children[j].repr !! children[i].repr);
      }
    }

    /** One child has been added behind the others, and nothing else changed. */
    twostate lemma ChildAdded()
      requires old(Valid()) && unchanged(`kind, `path, `paramName, `methods)
      requires |children| == |old(children)| + 1 && children[..|children| - 1] == old(children)
      requires children[|children| - 1].Valid() && fresh(children[|children| - 1].repr)
      requires unchanged(old(repr) - {this})
      requires repr == old(repr) + children[|children| - 1].repr
      requires shape == old(shape).(children := old(shape.children) + [children[|children| - 1].shape])
      ensures Valid()
    {
      forall j | 0 <= j < |children| - 1
        ensures children[j] == old(children[j]) && children[j].Valid()
        ensures children[j].repr == old(children[j].repr) && children[j].shape == old(children[j].shape)
      {
      }
    }

    /** Splits the edge into this node after `cp` bytes; what the node was moves into a new child. */
    method SplitEdge(cp: nat)
      requires Valid() && 0 < cp < |path|
      modifies this
      ensures Valid() && fresh(repr - old(repr)) && shape == Split(old(shape), cp)
    {
      var low := new TrieNode.Lower(this, cp);
      path := path[..cp];
      children := [low];
      paramName := "";
      kind := Static;
      methods := map[];
      repr := repr + {low};
      shape := Split(shape, cp);
    }

    /** Cuts the edge into a child, unless all of it is shared. */
    method ClipChild(i: nat, cp: nat)
      requires Valid() && i < |children| && i < |shape.children| && 0 < cp <= |shape.children[i].path|
      modifies repr
      ensures Valid() && fresh(repr - old(repr)) && |children| == |old(children)|
      ensures shape == old(shape).(children := old(shape.children)[i := Clip(old(shape.children)[i], cp)])
    {
      var c := children[i];
      if cp < |c.path| { c.SplitEdge(cp); }
      hide Split;
      repr, shape := repr + c.repr, shape.(children := shape.children[i := c.shape]);
      ChildChanged(i);
    }

    /** Goes on inside child number `i`. */
    method InsertBelow(i: nat, q: string, m: Method, chain: Chain) returns (s: Status)
      requires Valid() && i < |children|
      modifies repr
      ensures Valid() && fresh(repr - old(repr))
      ensures var r := Trie.Insert(old(shape.children)[i], q, m, chain);
        shape == old(shape).(children := old(shape.children)[i := r.0]) && s == r.1
      decreases |q|, 2
    {
      hide Trie.Insert;
      var c := children[i];
      s := c.Insert(q, m, chain);
      repr, shape := repr + c.repr, shape.(children := shape.children[i := c.shape]);
      ChildChanged(i);
    }

    /** Pushes a new child and goes on inside it. */
    method InsertFresh(kind: Kind, path: string, paramName: string, q: string, m: Method, chain: Chain) returns (s: Status)
      requires Valid()
      modifies repr
      ensures Valid() && fresh(repr - old(repr))
      ensures var r := Trie.Insert(Fresh(kind, path, paramName), q, m, chain);
        shape == old(shape).(children := old(shape.children) + [r.0]) && s == r.1
      decreases |q|, 2
    {
      hide Trie.Insert;
      var c := new TrieNode(kind, path, paramName);
      children := children + [c];
      s := c.Insert(q, m, chain);
      repr, shape := repr + c.repr, shape.(children := shape.children + [c.shape]);
      ChildAdded();
    }

    /** insert. A refused route can still leave a split edge behind. */
    method Insert(p: string, m: Method, chain: Chain) returns (s: Status)
      requires Valid()
      modifies repr
      ensures Valid() && fresh(repr - old(repr)) && (shape, s) == Trie.Insert(old(shape), p, m, chain)
      decreases |p|, 1
    {
      if p == "" {
        if m in methods && methods[m] != [] { return DuplicateRoute; }
        methods := methods[m := chain];
        shape := shape.(methods := methods);
        return Added;
      }
      if p[0] == ':' {
        s := InsertParam(p, m, chain);
      } else if p[0] == '*' {
        s := InsertCatchAll(p, m, chain);
      } else {
        s := InsertStatic(p, m, chain);
      }
    }

    method InsertParam(p: string, m: Method, chain: Chain) returns (s: Status)
      requires Valid() && p != "" && p[0] == ':'
      modifies repr
      ensures Valid() && fresh(repr - old(repr)) && (shape, s) == Trie.Insert(old(shape), p, m, chain)
      decreases |p|, 0
    {
      hide Valid;
      var i := FindKind(Param, Head(p));
      ChildKeeps(i);
      if i == |children| {
        s := InsertFresh(Param, "", ParamName(p), AfterParam(p), m, chain);
      } else if children[i].paramName != ParamName(p) {
        s := ParamConflict;
      } else {
        s := InsertBelow(i, AfterParam(p), m, chain);
      }
    }

    /** What the fields of a child say, its value says too. */
    lemma ChildKeeps(i: nat)
      requires Valid()
      ensures |shape.children| == |children|
      ensures i < |children| ==> children[i].paramName == shape.children[i].paramName && children[i].path == shape.children[i].path
    {
    }

    method InsertCatchAll(p: string, m: Method, chain: Chain) returns (s: Status)
      requires Valid() && p != "" && p[0] == '*'
      modifies this
      ensures Valid() && fresh(repr - old(repr)) && (shape, s) == Trie.Insert(old(shape), p, m, chain)
    {
      hide *;
      CatchAllInsert(shape, p, m, chain);
      var i := FindKind(CatchAll, Head(p));
      ChildKeeps(i);
      if i < |children| { return DuplicateCatchAll; }
      var c := new TrieNode.CatchAllLeaf(p[1..], m, chain);
      children := children + [c];
      repr, shape := repr + c.repr, shape.(children := shape.children + [c.shape]);
      ChildAdded();
      return Added;
    }

    method InsertStatic(p: string, m: Method, chain: Chain) returns (s: Status)
      requires Valid() && p != "" && !(p[0] == ':' || p[0] == '*')
      modifies repr
      ensures Valid() && fresh(repr - old(repr)) && (shape, s) == Trie.Insert(old(shape), p, m, chain)
      decreases |p|, 0
    {
      hide *;
      var i, cp := FindStatic(p);
      ChildKeeps(i);
      StaticInsert(shape, p, m, chain);
      if i < |children| {
        SharedTakes(children[i].path, p);
        ClipChild(i, cp);
        s := InsertBelow(i, SkipSlash(p[cp..]), m, chain);
        UpdateTwice(old(shape.children), i, Clip(old(shape.children)[i], cp), shape.children[i]);
      } else {
        var k := RunLength(p);
        s := InsertFresh(Static, p[..k], "", SkipSlash(p[k..]), m, chain);
      }
    }

    // ---- search -----------------------------------------------------------

    /** A child, and its value. */
    lemma ChildIs(k: nat)
      requires Valid() && k < |children|
      ensures |shape.children| == |children| && children[k].Valid() && children[k].repr < repr
      ensures children[k].shape == shape.children[k]
      ensures children[k].kind == shape.children[k].kind && children[k].path == shape.children[k].path
      ensures children[k].paramName == shape.children[k].paramName && children[k].methods == shape.children[k].methods
    {
    }

    /** search: a failed branch leaves the captures as it found them. */
    method Search(path: string, i: nat, m: Method, mt: RouteMatch) returns (found: bool)
      requires Valid() && mt.Valid() && i <= |path|
      modifies mt, mt.params
      ensures Tells(mt, found, TrieSearch.Search(shape, path, i, m, old(mt.Captures())), old(mt.Captures()))
      decreases repr, 1
    {
      ghost var caps := mt.Captures();
      if i == |path| {
        if m in methods && methods[m] != [] {
          mt.handlers := methods[m];
          return true;
        }
        return false;
      }
      hide StaticFrom, ParamFrom, AnyFrom;
      found := TryStatic(path, i, m, mt);
      if found { return true; }
      found := TryParams(path, i, m, mt);
      if found { return true; }
      found := TryCatchAll(path, i, m, mt);
    }

    method TryStatic(path: string, i: nat, m: Method, mt: RouteMatch) returns (found: bool)
      requires Valid() && mt.Valid() && i < |path|
      modifies mt, mt.params
      ensures Tells(mt, found, StaticFrom(shape, 0, path, i, m, old(mt.Captures())), old(mt.Captures()))
      decreases repr, 0
    {
      hide *;
      ghost var caps := mt.Captures();
      ChildKeeps(0);
      R.StaticEnd(shape, path, i, m, caps);
      for k := 0 to |children|
        invariant |shape.children| == |children| && mt.Valid() && mt.Captures() == caps
        invariant StaticFrom(shape, 0, path, i, m, caps) == StaticFrom(shape, k, path, i, m, caps)
      {
        var child := children[k];
        ChildIs(k);
        StaticTry(shape, k, path, i, m, caps);
        if child.kind != Static { continue; }
        if child.path <= path[i..] {
          found := child.Search(path, AfterSlash(path, i + |child.path|), m, mt);
          TellsMeans(mt, found, TrieSearch.Search(child.shape, path, AfterSlash(path, i + |child.path|), m, caps), caps);
          if found { return true; }
        }
      }
      TellsNothing(mt);
      return false;
    }

    method TryParams(path: string, i: nat, m: Method, mt: RouteMatch) returns (found: bool)
      requires Valid() && mt.Valid() && i < |path|
      modifies mt, mt.params
      ensures Tells(mt, found, ParamFrom(shape, 0, path, i, m, old(mt.Captures())), old(mt.Captures()))
      decreases repr, 0
    {
      hide Valid, TrieSearch.Search, ParamFrom, IndexOf;
      ghost var caps := mt.Captures();
      ChildKeeps(0);
      R.ParamEnd(shape, path, i, m, caps);
      for k := 0 to |children|
        invariant |shape.children| == |children| && mt.Valid() && mt.Captures() == caps
        invariant ParamFrom(shape, 0, path, i, m, caps) == ParamFrom(shape, k, path, i, m, caps)
      {
        var child := children[k];
        ChildIs(k);
        ParamRound(shape, k, path, i, m, caps);
        if child.kind != Param { continue; }
        var slash := IndexOf(path, '/', i);
        if slash == i { continue; }
        if mt.count < MAX_CAPTURES {
          found := child.SearchWith(Capture(child.paramName, i, slash - i), path, AfterSlash(path, slash), m, mt);
          if found { return true; }
        }
      }
      return false;
    }

    /** Searches below this node with one more capture, and takes the capture back on failure. */
    method SearchWith(c: Capture, path: string, i: nat, m: Method, mt: RouteMatch) returns (found: bool)
      requires Valid() && mt.Valid() && mt.count < MAX_CAPTURES && i <= |path|
      modifies mt, mt.params
      ensures Tells(mt, found, TrieSearch.Search(shape, path, i, m, old(mt.Captures()) + [c]), old(mt.Captures()))
      decreases repr, 2
    {
      hide Valid, TrieSearch.Search;
      mt.Push(c);
      found := Search(path, i, m, mt);
      if !found { mt.Pop(); }
    }

    method TryCatchAll(path: string, i: nat, m: Method, mt: RouteMatch) returns (found: bool)
      requires Valid() && mt.Valid() && i < |path|
      modifies mt, mt.params
      ensures Tells(mt, found, AnyFrom(shape, 0, path, i, m, old(mt.Captures())), old(mt.Captures()))
    {
      hide Valid, AnyFrom;
      ghost var caps := mt.Captures();
      ChildKeeps(0);
      R.AnyEnd(shape, path, i, m, caps);
      for k := 0 to |children|
        invariant |shape.children| == |children| && mt.Valid() && mt.Captures() == caps
        invariant AnyFrom(shape, 0, path, i, m, caps) == AnyFrom(shape, k, path, i, m, caps)
      {
        var child := children[k];
        ChildIs(k);
        R.AnyUnfold(shape, k, path, i, m, caps);
        if child.kind != CatchAll { continue; }
        if m in child.methods && child.methods[m] != [] {
          if mt.count < MAX_CAPTURES { mt.Push(Capture(child.paramName, i, |path| - i)); }
          mt.handlers := child.methods[m];
          return true;
        }
      }
      return false;
    }
  }

  class Router {
    const root: TrieNode
    var frozen: bool
    /** The add_route calls made before freeze, refused ones included. */
    ghost var history: seq<Route>

    ghost predicate Valid()
      reads this, root, root.repr
    {
      root.Valid() && Build(history) == Table(root.shape, false)
    }

    /** The router as a value. */
    ghost function Tab(): Table
      reads this, root
    {
      Table(root.shape, frozen)
    }

    constructor ()
      ensures Valid() && fresh(root.repr) && Tab() == EMPTY_TABLE && history == []
    {
      root := new TrieNode(Static, "/", "");
      frozen, history := false, [];
    }

    method Freeze()
      requires Valid()
      modifies this`frozen
      ensures Valid() && Tab() == old(Tab()).(frozen := true)
    {
      frozen := true;
    }

    /** add_route; the caller sees every refusal as an exception. */
    method AddRoute(r: Route) returns (res: AddResult)
      requires Valid()
      modifies this, root.repr
      ensures Valid() && fresh(root.repr - old(root.repr)) && (Tab(), res) == Routing.AddRoute(old(Tab()), r)
      ensures history == if old(frozen) then old(history) else old(history) + [r]
    {
      if frozen { return FrozenTable; }
      BuildMore(history, r);
      hide Trie.Insert, TrieNode.Valid, Build;
      history := history + [r];
      if r.pattern == "" || r.pattern[0] != '/' { return BadPattern; }
      var s := root.Insert(r.pattern[1..], r.verb, r.chain);
      return if s == Added then Accepted else Refused(s);
    }

    method Lookup(m: Method, path: string) returns (r: Option<Match>)
      requires Valid()
      ensures r == Routing.Lookup(Tab(), m, path)
    {
      if path == "" || path[0] != '/' { return None; }
      var mt := new RouteMatch();
      assert mt.Captures() == [];
      hide TrieSearch.Search, TrieNode.Valid;
      var found := root.Search(path, 1, m, mt);
      if !found { return None; }
      return Some(Match(mt.handlers, mt.params[..mt.count]));
    }

    /** methods_for_path: the methods whose bits the mask has. */
    method MethodsForPath(path: string) returns (ms: set<Method>)
      requires Valid()
      ensures forall m :: m in ms <==> Routing.Lookup(Tab(), m, path).Some?
    {
      ms := {};
      hide Routing.Lookup;
      for i := 0 to |ALL_METHODS|
        invariant forall m :: m in ms <==> m in ALL_METHODS[..i] && Routing.Lookup(Tab(), m, path).Some?
      {
        var r := Lookup(ALL_METHODS[i], path);
        if r.Some? { ms := ms + {ALL_METHODS[i]}; }
      }
      assert ALL_METHODS[..|ALL_METHODS|] == ALL_METHODS;
      forall m ensures m in ALL_METHODS { EveryMethod(m); }
    }

    /** However often add_route was called, and whatever it refused: every accepted route is found again under
        every path that fills its pattern. */
    lemma RegisteredIsFound(k: nat, vs: seq<string>)
      requires Valid() && AllSane(history) && k < |history| && Taken(history, k)
      requires R.GoodValues(Tail(history[k]), vs) && R.ParCount(Tokens(Tail(history[k]))) <= MAX_CAPTURES
      ensures Routing.Lookup(Tab(), history[k].verb, "/" + R.Fill(Tail(history[k]), vs)).Some?
    {
      NoRouteLost(history, k, vs);
    }
  }

  lemma BuildMore(rs: seq<Route>, r: Route)
    ensures Build(rs + [r]) == Routing.AddRoute(Build(rs), r).0
  {
    assert (rs + [r])[..|rs|] == rs;
  }

  lemma UpdateTwice<T>(s: seq<T>, i: nat, a: T, b: T)
    requires i < |s|
    ensures s[i := a][i := b] == s[i := b]
  {
  }

  /** insert on a literal, as one rewritten or one new child. */
  lemma StaticInsert(t: Node, p: string, m: Method, chain: Chain)
    requires p != "" && !(p[0] == ':' || p[0] == '*')
    ensures |SkipSlash(p[RunLength(p)..])| < |p|
    ensures var i := Pick(t.children, Head(p));
      if i < |t.children| then
        var cp := CommonPrefixLen(t.children[i].path, p);
        var r := Trie.Insert(Clip(t.children[i], cp), SkipSlash(p[cp..]), m, chain);
        && 0 < cp && t.children[i].path != "" && t.children[i].path[0] == p[0] && |SkipSlash(p[cp..])| < |p|
        && Trie.Insert(t, p, m, chain) == (t.(children := t.children[i := r.0]), r.1)
      else
        var k := RunLength(p);
        var r := Trie.Insert(Fresh(Static, p[..k], ""), SkipSlash(p[k..]), m, chain);
        Trie.Insert(t, p, m, chain) == (t.(children := t.children + [r.0]), r.1)
  {
    var i := Pick(t.children, Head(p));
    if i < |t.children| { SharedTakes(t.children[i].path, p); }
    hide Pick, CommonPrefixLen, Clip;
  }

  /** insert on a catch-all. */
  lemma CatchAllInsert(t: Node, p: string, m: Method, chain: Chain)
    requires p != "" && p[0] == '*'
    ensures Head(p).Any?
    ensures Trie.Insert(t, p, m, chain) ==
      if Pick(t.children, Head(p)) < |t.children| then (t, DuplicateCatchAll)
      else (t.(children := t.children + [Node(CatchAll, "", p[1..], map[m := chain], [])]), Added)
  {
    hide Pick;
  }
}
