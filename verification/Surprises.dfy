/** Where the router does less than one might expect: concrete registrations that show it, and when a pattern can be
    registered twice. */
module Surprises {
  import opened Text
  import opened Patterns
  import opened Trie
  import opened TrieInsert
  import opened TrieSearch
  import opened Routing
  import opened Router

  const AB: Node := Node(Static, "ab", "", map[GET := [7]], [])

  const A_B: Node := Node(Static, "a", "", map[], [Node(Static, "b", "", map[GET := [7]], [])])

  function Over(c: Node): Node { Node(Static, "/", "", map[], [c]) }

  lemma InsertAb()
    ensures Insert(ROOT, "ab", GET, [7]) == (Over(AB), Added)
  {
    assert RunLength("ab") == 2 by { assert RunLength("b") == 1; }
    assert SkipSlash("ab"[2..]) == "" && "ab"[..2] == "ab";
    assert Insert(Fresh(Static, "ab", ""), "", GET, [7]) == (AB, Added);
    StaticInsert(ROOT, "ab", GET, [7]);
    assert ROOT.children + [AB] == [AB];
  }

  lemma InsertB()
    ensures Insert(A_B, "b", GET, [8]) == (A_B, DuplicateRoute)
  {
    var b := Node(Static, "b", "", map[GET := [7]], []);
    assert CommonPrefixLen("b", "b") == 1 by { assert CommonPrefixLen("", "") == 0; }
    assert Clip(b, 1) == b && SkipSlash("b"[1..]) == "";
    assert Insert(b, "", GET, [8]) == (b, DuplicateRoute);
    StaticInsert(A_B, "b", GET, [8]);
    assert A_B.children == [b] && [b][0 := b] == [b];
  }

  lemma InsertAgain()
    ensures Insert(Over(AB), "a/b", GET, [8]) == (Over(A_B), DuplicateRoute)
  {
    hide Insert;
    assert CommonPrefixLen("ab", "a/b") == 1 by {
      assert "ab"[1..] == "b" && "a/b"[1..] == "/b";
      assert CommonPrefixLen("b", "/b") == 0;
    }
    assert "ab"[..1] == "a" && "ab"[1..] == "b" && SkipSlash("a/b"[1..]) == "b";
    assert Clip(AB, 1) == A_B;
    InsertB();
    StaticInsert(Over(AB), "a/b", GET, [8]);
    assert Over(AB).children == [AB] && [AB][0 := A_B] == [A_B];
  }

  /** A refused registration is not without effect: "/a/b" is refused as a duplicate of "/ab", yet the split it
      leaves behind makes the path "/a/b" reach the handlers of "/ab", which it did not before. */
  lemma RefusedYetFound()
    ensures var one, two := Route(GET, "/ab", [7]), Route(GET, "/a/b", [8]);
      && Taken([one], 0) && !Taken([one, two], 1)
      && Lookup(Build([one]), GET, "/a/b") == None
      && Lookup(Build([one, two]), GET, "/a/b") == Some(Match([7], []))
  {
    hide Insert, Search, Over;
    var one, two := Route(GET, "/ab", [7]), Route(GET, "/a/b", [8]);
    InsertAb();
    InsertAgain();
    assert [one][..0] == [] && [one, two][..1] == [one];
    assert "/ab"[1..] == "ab" && "/a/b"[1..] == "a/b";
    assert Build([]).root == ROOT;
    assert Build([one]).root == Over(AB);
    assert Build([one, two]).root == Over(A_B);
    BeforeSplit();
    AfterSplit();
  }

  lemma BeforeSplit()
    ensures Search(Over(AB), "/a/b", 1, GET, []) == None
  {
    var path := "/a/b";
    assert path[1..] == "a/b";
    assert !("ab" <= path[1..]) by { assert path[1..][1] == '/'; }
    assert Over(AB).children == [AB];
    assert StaticFrom(Over(AB), 0, path, 1, GET, []) == None;
    assert ParamFrom(Over(AB), 0, path, 1, GET, []) == None;
    assert AnyFrom(Over(AB), 0, path, 1, GET, []) == None;
  }

  lemma AfterSplit()
    ensures Search(Over(A_B), "/a/b", 1, GET, []) == Some(Match([7], []))
  {
    var path := "/a/b";
    var b := Node(Static, "b", "", map[GET := [7]], []);
    assert Over(A_B).children == [A_B] && A_B.children == [b];
    assert "a" <= path[1..] && "b" <= path[3..];
    assert Search(b, path, 4, GET, []) == Some(Match([7], []));
    assert StaticFrom(A_B, 0, path, 3, GET, []) == Some(Match([7], []));
    assert Search(A_B, path, 3, GET, []) == Some(Match([7], []));
    assert StaticFrom(Over(A_B), 0, path, 1, GET, []) == Some(Match([7], []));
  }

  // ---- Why patterns with an empty segment are left out --------------------

  /** No label holds a special byte; unlike `WellFormed`, every insertion keeps this. */
  predicate PlainLabels(t: Node)
    decreases t
  {
    forall i :: 0 <= i < |t.children| ==> Plain(t.children[i].path) && PlainLabels(t.children[i])
  }

  lemma PlainPick(t: Node, p: string)
    requires PlainLabels(t) && p != "" && p[0] == '/'
    ensures Pick(t.children, Head(p)) == |t.children|
  {
  }

  lemma PlainHop(t: Node, p: string)
    requires PlainLabels(t) && Enter(t, p).Some?
    ensures var h := Enter(t, p).value; PlainLabels(h.child) && Plain(h.child.path) && |h.rest| < |p|
  {
    var i := Pick(t.children, Head(p));
    if p[0] != ':' && i < |t.children| {
      if p[0] == '/' { PlainPick(t, p); } else { ClipPlain(t.children[i], p); }
    }
  }

  lemma ClipPlain(c: Node, p: string)
    requires p != "" && Takes(c, Lit(p[0])) && Plain(c.path) && PlainLabels(c)
    ensures var cp := CommonPrefixLen(c.path, p); 0 < cp && Plain(p[..cp]) && Plain(Clip(c, cp).path) && PlainLabels(Clip(c, cp))
  {
    var cp := CommonPrefixLen(c.path, p);
    SharedFirst(c, p);
    assert forall k :: 0 <= k < cp ==> c.path[..cp][k] == c.path[k];
    assert forall k :: cp <= k < |c.path| ==> c.path[cp..][k - cp] == c.path[k];
    assert Plain(c.path[cp..]);
  }

  lemma {:induction false} InsertPlain(t: Node, p: string, m: Method, chain: Chain)
    requires PlainLabels(t)
    ensures PlainLabels(Insert(t, p, m, chain).0)
    decreases |p|
  {
    if Enter(t, p).Some? {
      var h := Enter(t, p).value;
      PlainHop(t, p);
      InsertPlain(h.child, h.rest, m, chain);
      InsertIsGraft(t, p, m, chain);
    }
  }

  /** A second insertion of the same pattern meets the child the first one left. */
  lemma AgainBelow(t: Node, p: string, m: Method, one: Chain, two: Chain)
    requires PlainLabels(t) && Enter(t, p).Some? && p[0] != '/'
    ensures var h := Enter(t, p).value; var u := Insert(t, p, m, one).0;
      && Gap(h.rest) == Gap(p)
      && Insert(t, p, m, one).1 == Insert(h.child, h.rest, m, one).1
      && Insert(u, p, m, two).1 == Insert(Insert(h.child, h.rest, m, one).0, h.rest, m, two).1
  {
    var h := Enter(t, p).value;
    var c := Insert(h.child, h.rest, m, one).0;
    var i := Pick(t.children, Head(p));
    InsertIsGraft(t, p, m, one);
    var u := Graft(t, i, c);
    if p[0] == ':' {
      PickGraft(t, i, c, Head(p));
    } else {
      var cp := |h.edge|;
      AgainStatic(t, p);
      assert c.path == p[..cp];
      PickGraft(t, i, c, Head(p));
      SharedAll(p, cp);
    }
    assert u.children[i] == c;
    assert Enter(u, p) == Some(Hop(c, h.edge, h.rest));
    InsertIsGraft(u, p, m, two);
  }

  lemma AgainStatic(t: Node, p: string)
    requires PlainLabels(t) && Enter(t, p).Some? && !Special(p[0])
    ensures var h := Enter(t, p).value; var cp := |h.edge|;
      && 0 < cp <= |p| && h.child.kind == Static && h.child.path == p[..cp] && h.rest == SkipSlash(p[cp..]) && Gap(h.rest) == Gap(p)
  {
    var i := Pick(t.children, Head(p));
    hide Gap;
    if i < |t.children| {
      ClipPlain(t.children[i], p);
      SharedFirst(t.children[i], p);
      GapRun(p, CommonPrefixLen(t.children[i].path, p));
    } else {
      GapRun(p, RunLength(p));
    }
  }

  lemma {:induction false} SharedAll(p: string, k: nat)
    requires k <= |p|
    ensures CommonPrefixLen(p[..k], p) == k
  {
    if k > 0 {
      assert p[..k][1..] == p[1..][..k - 1];
      SharedAll(p[1..], k - 1);
    }
  }

  lemma PickGraft(t: Node, i: nat, c: Node, tok: Token)
    requires i == Pick(t.children, tok) && Takes(c, tok)
    ensures Pick(Graft(t, i, c).children, tok) == i
  {
    if i < |t.children| { PickUpdate(t.children, i, c, tok); } else { PickAppend(t.children, c, tok); }
  }

  /** Registered a second time, a pattern is accepted again exactly when it has an empty segment before any catch-all. */
  lemma {:induction false} InsertTwice(t: Node, p: string, m: Method, one: Chain, two: Chain)
    requires PlainLabels(t) && one != [] && Insert(t, p, m, one).1 == Added
    ensures Insert(Insert(t, p, m, one).0, p, m, two).1 == Added <==> Gap(p)
    decreases |p|
  {
    var u := Insert(t, p, m, one).0;
    if p == "" {
    } else if p[0] == '*' {
      PickGraft(t, Pick(t.children, Head(p)), Node(CatchAll, "", p[1..], map[m := one], []), Head(p));
    } else if p[0] == '/' {
      InsertPlain(t, p, m, one);
      PlainPick(u, p);
      FreshAccepts(Fresh(Static, "", ""), p[1..], m, two);
    } else if Enter(t, p).Some? {
      var h := Enter(t, p).value;
      PlainHop(t, p);
      AgainBelow(t, p, m, one, two);
      InsertTwice(h.child, h.rest, m, one, two);
    }
  }

  lemma {:induction false} BuildPlain(rs: seq<Route>)
    ensures PlainLabels(Build(rs).root)
  {
    if rs != [] {
      var n := |rs| - 1;
      BuildPlain(rs[..n]);
      if rs[n].pattern != "" && rs[n].pattern[0] == '/' {
        InsertPlain(Build(rs[..n]).root, rs[n].pattern[1..], rs[n].verb, rs[n].chain);
      }
    }
  }

  /** After any history: a pattern just accepted can be registered once more for the same method exactly when it has
      an empty segment before any catch-all. */
  lemma AcceptedTwice(rs: seq<Route>, r: Route, again: Chain)
    requires r.chain != [] && Taken(rs + [r], |rs|)
    ensures Taken(rs + [r, r.(chain := again)], |rs| + 1) <==> Gap(Tail(r))
  {
    hide *;
    var next := r.(chain := again);
    assert rs + [r, next] == rs + [r] + [next] && Tail(next) == Tail(r) by { SameTail(r, again); }
    NextTaken(rs, r);
    NextTaken(rs + [r], next);
    BuildPlain(rs);
    InsertTwice(Build(rs).root, Tail(r), r.verb, r.chain, again);
  }

  lemma SameTail(r: Route, again: Chain)
    ensures Tail(r.(chain := again)) == Tail(r)
  {
  }

  /** One more registration, on the table the history leaves. */
  lemma NextTaken(rs: seq<Route>, r: Route)
    ensures Taken(rs + [r], |rs|) <==>
      r.pattern != "" && r.pattern[0] == '/' && Insert(Build(rs).root, Tail(r), r.verb, r.chain).1 == Added
    ensures Taken(rs + [r], |rs|) ==> Build(rs + [r]).root == Insert(Build(rs).root, Tail(r), r.verb, r.chain).0
  {
    hide Insert;
    assert (rs + [r])[..|rs|] == rs;
  }

  function Leaf(c: nat): Node { Node(Static, "b", "", map[GET := [c]], []) }

  /** The node an empty segment leaves: a label without a byte. */
  function Blank(c: nat): Node { Node(Static, "", "", map[], [Leaf(c)]) }

  function A(cs: seq<Node>): Node { Node(Static, "a", "", map[], cs) }

  lemma InsertBlank(cs: seq<Node>, c: nat)
    requires cs == [] || exists d :: cs == [Blank(d)]
    ensures Insert(A(cs), "/b", GET, [c]) == (A(cs + [Blank(c)]), Added)
  {
    var blank := Fresh(Static, "", "");
    assert RunLength("b") == 1 && "b"[..1] == "b" && SkipSlash("b"[1..]) == "";
    assert Insert(Fresh(Static, "b", ""), "", GET, [c]) == (Leaf(c), Added);
    StaticInsert(blank, "b", GET, [c]);
    assert blank.children + [Leaf(c)] == [Leaf(c)];
    PickIs(cs, Lit('/'), |cs|);
    assert RunLength("/b") == 0 && "/b"[..0] == "" && SkipSlash("/b"[0..]) == "b";
    StaticInsert(A(cs), "/b", GET, [c]);
  }

  lemma InsertFirst(c: nat)
    ensures Insert(ROOT, "a//b", GET, [c]) == (Over(A([Blank(c)])), Added)
  {
    assert RunLength("a//b") == 1 by { assert "a//b"[1..] == "//b" && RunLength("//b") == 0; }
    assert "a//b"[..1] == "a" && SkipSlash("a//b"[1..]) == "/b";
    InsertBlank([], c);
    assert [] + [Blank(c)] == [Blank(c)] && Fresh(Static, "a", "") == A([]);
    StaticInsert(ROOT, "a//b", GET, [c]);
    assert ROOT.children + [A([Blank(c)])] == [A([Blank(c)])];
  }

  lemma InsertSecond(c: nat, d: nat)
    ensures Insert(Over(A([Blank(c)])), "a//b", GET, [d]) == (Over(A([Blank(c), Blank(d)])), Added)
  {
    hide Insert;
    var a := A([Blank(c)]);
    assert CommonPrefixLen("a", "a//b") == 1 by {
      assert "a"[1..] == "" && CommonPrefixLen("", "a//b"[1..]) == 0;
    }
    assert Clip(a, 1) == a && SkipSlash("a//b"[1..]) == "/b";
    InsertBlank([Blank(c)], d);
    assert [Blank(c)] + [Blank(d)] == [Blank(c), Blank(d)];
    StaticInsert(Over(a), "a//b", GET, [d]);
    assert Over(a).children == [a] && [a][0 := A([Blank(c), Blank(d)])] == [A([Blank(c), Blank(d)])];
  }

  lemma FindsFirst(c: nat, d: nat)
    ensures Search(Over(A([Blank(c), Blank(d)])), "/a//b", 1, GET, []) == Some(Match([c], []))
  {
    var path := "/a//b";
    var a, x := A([Blank(c), Blank(d)]), Some(Match([c], []));
    assert Over(a).children == [a] && Blank(c).children == [Leaf(c)];
    assert "a" <= path[1..] && "" <= path[3..] && "b" <= path[4..];
    assert Search(Leaf(c), path, 5, GET, []) == x;
    assert StaticFrom(Blank(c), 0, path, 4, GET, []) == x;
    assert Search(Blank(c), path, 4, GET, []) == x;
    assert StaticFrom(a, 0, path, 3, GET, []) == x;
    assert Search(a, path, 3, GET, []) == x;
    assert StaticFrom(Over(a), 0, path, 1, GET, []) == x;
  }

  lemma OneOrder(one: Route, two: Route, c: nat, d: nat)
    requires one == Route(GET, "/a//b", [c]) && two == Route(GET, "/a//b", [d])
    ensures Taken([one, two], 0) && Taken([one, two], 1)
    ensures Lookup(Build([one, two]), GET, "/a//b") == Some(Match([c], []))
  {
    hide Insert, Search, Over, A, Blank;
    assert "/a//b"[1..] == "a//b";
    InsertFirst(c);
    InsertSecond(c, d);
    FindsFirst(c, d);
    assert [one, two][..0] == [] && [one, two][..1] == [one] && [one][..0] == [];
    assert Build([]).root == ROOT;
    assert Build([one]).root == Over(A([Blank(c)]));
    assert Build([one, two]).root == Over(A([Blank(c), Blank(d)]));
  }

  /** For instance "/a//b", where the first registration hides the second: such patterns are neither guarded
      against duplicates nor independent of their order. */
  lemma EmptySegmentTwice(c: nat, d: nat)
    ensures var one, two := Route(GET, "/a//b", [c]), Route(GET, "/a//b", [d]);
      && !Sane(one) && Taken([one, two], 0) && Taken([one, two], 1)
      && Lookup(Build([one, two]), GET, "/a//b") == Some(Match([c], []))
      && Lookup(Build([two, one]), GET, "/a//b") == Some(Match([d], []))
  {
    var one, two := Route(GET, "/a//b", [c]), Route(GET, "/a//b", [d]);
    assert Tail(one) == "a//b" && SkipSlash("a//b"[1..]) == "/b" && Gap("/b");
    hide Taken, Lookup, Build;
    OneOrder(one, two, c, d);
    OneOrder(two, one, d, c);
  }
}
