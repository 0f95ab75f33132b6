/** The backtracking search of the router, and the trace it is proved to choose. */
module TrieSearch {
  import opened Text
  import opened Trie

  const MAX_CAPTURES: nat := 8

  /** A captured value is a slice of the looked-up path. */
  datatype Capture = Capture(key: string, start: nat, len: nat)

  datatype Match = Match(chain: Chain, captures: seq<Capture>)

  function AfterSlash(path: string, i: nat): (j: nat)
    requires i <= |path|
    ensures i <= j <= |path| && path[j..] == SkipSlash(path[i..])
  {
    if i < |path| && path[i] == '/' then i + 1 else i
  }

  /** Whether the edge into `c` can be walked from offset `i`. */
  predicate Passes(c: Node, path: string, i: nat)
    requires i <= |path|
  {
    match c.kind
    case Static => c.path <= path[i..]
    case Param => IndexOf(path, '/', i) > i
    case CatchAll => true
  }

  /** The offset reached by walking the edge into `c`. */
  function Land(c: Node, path: string, i: nat): (j: nat)
    requires i <= |path| && Passes(c, path, i)
    ensures i <= j <= |path|
  {
    match c.kind
    case Static => AfterSlash(path, i + |c.path|)
    case Param => AfterSlash(path, IndexOf(path, '/', i))
    case CatchAll => |path|
  }

  /** The slice an edge captures. */
  function Captured(c: Node, path: string, i: nat): seq<Capture>
    requires i <= |path|
  {
    match c.kind
    case Static => []
    case Param => [Capture(c.paramName, i, IndexOf(path, '/', i) - i)]
    case CatchAll => [Capture(c.paramName, i, |path| - i)]
  }

  // ---- The search (src/router.cpp, search) --------------------------------

  function Search(t: Node, path: string, i: nat, m: Method, caps: seq<Capture>): Option<Match>
    requires i <= |path|
    decreases t, 1, 0
  {
    if i == |path| then
      if HasHandler(t, m) then Some(Match(t.methods[m], caps)) else None
    else
      var a := StaticFrom(t, 0, path, i, m, caps);
      if a.Some? then a
      else
        var b := ParamFrom(t, 0, path, i, m, caps);
        if b.Some? then b else AnyFrom(t, 0, path, i, m, caps)
  }

  function StaticFrom(t: Node, k: nat, path: string, i: nat, m: Method, caps: seq<Capture>): Option<Match>
    requires k <= |t.children| && i < |path|
    decreases t, 0, |t.children| - k
  {
    if k == |t.children| then None
    else
      var c := t.children[k];
      var r := if c.kind == Static && c.path <= path[i..]
               then Search(c, path, AfterSlash(path, i + |c.path|), m, caps) else None;
      if r.Some? then r else StaticFrom(t, k + 1, path, i, m, caps)
  }

  function ParamFrom(t: Node, k: nat, path: string, i: nat, m: Method, caps: seq<Capture>): Option<Match>
    requires k <= |t.children| && i < |path|
    decreases t, 0, |t.children| - k
  {
    if k == |t.children| then None
    else
      var c := t.children[k];
      var j := IndexOf(path, '/', i);
      var r := if c.kind == Param && i < j && |caps| < MAX_CAPTURES
               then Search(c, path, AfterSlash(path, j), m, caps + [Capture(c.paramName, i, j - i)]) else None;
      if r.Some? then r else ParamFrom(t, k + 1, path, i, m, caps)
  }

  function AnyFrom(t: Node, k: nat, path: string, i: nat, m: Method, caps: seq<Capture>): Option<Match>
    requires k <= |t.children| && i < |path|
    decreases t, 0, |t.children| - k
  {
    if k == |t.children| then None
    else
      var c := t.children[k];
      if c.kind == CatchAll && HasHandler(c, m) then
        Some(Match(c.methods[m], if |caps| < MAX_CAPTURES then caps + [Capture(c.paramName, i, |path| - i)] else caps))
      else AnyFrom(t, k + 1, path, i, m, caps)
  }

  // ---- Traces: the declarative reading ------------------------------------

  /** A trace names the child followed at every node. */
  type Trace = seq<nat>

  /** Walks a trace: every edge must pass, the path must be used up, and a handler for `m` must be there. */
  function Run(t: Node, path: string, i: nat, m: Method, ks: Trace): Option<Match>
    requires i <= |path|
    decreases t
  {
    if ks == [] then
      if i == |path| && HasHandler(t, m) then Some(Match(t.methods[m], [])) else None
    else if i == |path| || ks[0] >= |t.children| || !Passes(t.children[ks[0]], path, i) then None
    else
      var c := t.children[ks[0]];
      match Run(c, path, Land(c, path, i), m, ks[1..])
      case None => None
      case Some(r) => Some(Match(r.chain, Captured(c, path, i) + r.captures))
  }

  /** The trace is an accepting one. */
  predicate Accepts(t: Node, path: string, i: nat, m: Method, ks: Trace)
    requires i <= |path|
  {
    Run(t, path, i, m, ks).Some?
  }

  /** The number of `:name` steps of a trace. */
  function Params(t: Node, ks: Trace): nat
    decreases t
  {
    if ks == [] || ks[0] >= |t.children| then 0
    else (if t.children[ks[0]].kind == Param then 1 else 0) + Params(t.children[ks[0]], ks[1..])
  }

  function Rank(k: Kind): nat {
    match k case Static => 0 case Param => 1 case CatchAll => 2
  }

  /** Static before parameter before catch-all, then registration order. */
  predicate Earlier(cs: seq<Node>, a: nat, b: nat)
    requires a < |cs| && b < |cs|
  {
    Rank(cs[a].kind) < Rank(cs[b].kind) || (cs[a].kind == cs[b].kind && a < b)
  }

  /** Lexicographic order on traces. */
  predicate Before(t: Node, ks: Trace, ls: Trace)
    decreases t
  {
    && ks != [] && ls != [] && ks[0] < |t.children| && ls[0] < |t.children|
    && if ks[0] == ls[0] then Before(t.children[ks[0]], ks[1..], ls[1..]) else Earlier(t.children, ks[0], ls[0])
  }

  /** A trace the search may take: accepting, with at most eight parameters in all. */
  predicate Eligible(t: Node, path: string, i: nat, m: Method, caps: seq<Capture>, ks: Trace)
    requires i <= |path|
  {
    Accepts(t, path, i, m, ks) && |caps| + Params(t, ks) <= MAX_CAPTURES
  }

  function Keep8(caps: seq<Capture>): seq<Capture> {
    if |caps| <= MAX_CAPTURES then caps else caps[..MAX_CAPTURES]
  }

  /** `r` is the outcome of trace `ks`. */
  ghost predicate OutcomeOf(t: Node, path: string, i: nat, m: Method, caps: seq<Capture>, ks: Trace, r: Option<Match>)
    requires i <= |path|
  {
    && Eligible(t, path, i, m, caps, ks)
    && var e := Run(t, path, i, m, ks).value;
       r == Some(Match(e.chain, Keep8(caps + e.captures)))
  }

  /** The traces that start with child `k` or later of the given kind. */
  predicate StartsIn(t: Node, kind: Kind, k: nat, ls: Trace) {
    ls != [] && k <= ls[0] < |t.children| && t.children[ls[0]].kind == kind
  }

  /** What a search over the children of one kind promises. */
  ghost predicate FirstAmong(t: Node, kind: Kind, k: nat, path: string, i: nat, m: Method, caps: seq<Capture>,
                             r: Option<Match>, ks: Trace)
    requires i <= |path|
  {
    && (r.Some? ==>
          && StartsIn(t, kind, k, ks) && OutcomeOf(t, path, i, m, caps, ks, r)
          && forall ls :: StartsIn(t, kind, k, ls) && Eligible(t, path, i, m, caps, ls) ==> ls == ks || Before(t, ks, ls))
    && (r.None? ==> forall ls :: StartsIn(t, kind, k, ls) ==> !Eligible(t, path, i, m, caps, ls))
  }

  /** What the whole search promises. */
  ghost predicate FirstOf(t: Node, path: string, i: nat, m: Method, caps: seq<Capture>, r: Option<Match>, ks: Trace)
    requires i <= |path|
  {
    && (r.Some? ==>
          && OutcomeOf(t, path, i, m, caps, ks, r)
          && forall ls :: Eligible(t, path, i, m, caps, ls) ==> ls == ks || Before(t, ks, ls))
    && (r.None? ==> forall ls :: !Eligible(t, path, i, m, caps, ls))
  }

  /** One step in front of a trace. */
  lemma PrependRun(t: Node, k: nat, path: string, i: nat, m: Method, ls: Trace)
    requires i < |path| && k < |t.children| && Passes(t.children[k], path, i)
    ensures var c := t.children[k];
      var r := Run(c, path, Land(c, path, i), m, ls);
      Run(t, path, i, m, [k] + ls) ==
        if r.None? then None else Some(Match(r.value.chain, Captured(c, path, i) + r.value.captures))
  {
    assert ([k] + ls)[1..] == ls;
  }

  lemma Stuck(t: Node, k: nat, path: string, i: nat, m: Method, ls: Trace)
    requires i < |path| && k < |t.children| && !Passes(t.children[k], path, i)
    ensures Run(t, path, i, m, [k] + ls).None?
  {
  }

  lemma PrependParams(t: Node, k: nat, ls: Trace)
    requires k < |t.children|
    ensures Params(t, [k] + ls) == (if t.children[k].kind == Param then 1 else 0) + Params(t.children[k], ls)
  {
    assert ([k] + ls)[1..] == ls;
  }

  lemma Prepend(t: Node, k: nat, path: string, i: nat, m: Method, caps: seq<Capture>, ls: Trace, r: Option<Match>)
    requires i < |path| && k < |t.children| && Passes(t.children[k], path, i) && t.children[k].kind != CatchAll
    ensures var c := t.children[k];
      var caps' := caps + Captured(c, path, i);
      var j := Land(c, path, i);
      && (Eligible(t, path, i, m, caps, [k] + ls) <==> Eligible(c, path, j, m, caps', ls))
      && (OutcomeOf(t, path, i, m, caps, [k] + ls, r) <==> OutcomeOf(c, path, j, m, caps', ls, r))
  {
    hide Run, Params, IndexOf;
    PrependRun(t, k, path, i, m, ls);
    PrependParams(t, k, ls);
    var c := t.children[k];
    assert |Captured(c, path, i)| == if c.kind == Param then 1 else 0;
    hide Passes, Land, Captured, Keep8;
    var below := Run(c, path, Land(c, path, i), m, ls);
    if below.Some? {
      assert caps + (Captured(c, path, i) + below.value.captures) == caps + Captured(c, path, i) + below.value.captures;
    }
  }

  /** The best trace through child `k`, when the search succeeds there, is the best trace of its kind from `k` on. */
  lemma ThroughChild(t: Node, k: nat, path: string, i: nat, m: Method, caps: seq<Capture>, r: Option<Match>, ks: Trace)
    requires i < |path| && k < |t.children| && Passes(t.children[k], path, i)
    requires t.children[k].kind != CatchAll && r.Some?
    requires FirstOf(t.children[k], path, Land(t.children[k], path, i), m, caps + Captured(t.children[k], path, i), r, ks)
    ensures FirstAmong(t, t.children[k].kind, k, path, i, m, caps, r, [k] + ks)
  {
    Prepend(t, k, path, i, m, caps, ks, r);
    forall ls | StartsIn(t, t.children[k].kind, k, ls) && Eligible(t, path, i, m, caps, ls)
      ensures ls == [k] + ks || Before(t, [k] + ks, ls)
    {
      assert ([k] + ks)[1..] == ks;
      if ls[0] == k {
        assert ls == [k] + ls[1..];
        Prepend(t, k, path, i, m, caps, ls[1..], r);
      }
    }
  }

  /** When child `k` offers nothing, only later children of its kind remain. */
  lemma PastChild(t: Node, kind: Kind, k: nat, path: string, i: nat, m: Method, caps: seq<Capture>, r: Option<Match>, ks: Trace)
    requires i < |path| && k < |t.children|
    requires t.children[k].kind == kind ==> forall ls :: !Eligible(t, path, i, m, caps, [k] + ls)
    requires FirstAmong(t, kind, k + 1, path, i, m, caps, r, ks)
    ensures FirstAmong(t, kind, k, path, i, m, caps, r, ks)
  {
    hide Eligible, OutcomeOf, Before;
    forall ls | StartsIn(t, kind, k, ls) && Eligible(t, path, i, m, caps, ls) ensures StartsIn(t, kind, k + 1, ls) {
      assert ls == [ls[0]] + ls[1..];
    }
  }

  /** No children left: nothing found, nothing to find. */
  lemma NoneLeft(t: Node, kind: Kind, path: string, i: nat, m: Method, caps: seq<Capture>)
    requires i < |path|
    ensures FirstAmong(t, kind, |t.children|, path, i, m, caps, None, [])
  {
  }

  /** A child whose search fails is on no eligible trace. */
  lemma NoneThrough(t: Node, k: nat, path: string, i: nat, m: Method, caps: seq<Capture>, below: Trace)
    requires i < |path| && k < |t.children| && Passes(t.children[k], path, i) && t.children[k].kind != CatchAll
    requires FirstOf(t.children[k], path, Land(t.children[k], path, i), m, caps + Captured(t.children[k], path, i), None, below)
    ensures forall ls :: !Eligible(t, path, i, m, caps, [k] + ls)
  {
    hide Eligible;
    forall ls ensures !Eligible(t, path, i, m, caps, [k] + ls) { Prepend(t, k, path, i, m, caps, ls, None); }
  }

  /** Neither is a child whose edge does not pass. */
  lemma NoneStuck(t: Node, k: nat, path: string, i: nat, m: Method, caps: seq<Capture>)
    requires i < |path| && k < |t.children| && !Passes(t.children[k], path, i)
    ensures forall ls :: !Eligible(t, path, i, m, caps, [k] + ls)
  {
    forall ls ensures !Eligible(t, path, i, m, caps, [k] + ls) { Stuck(t, k, path, i, m, ls); }
  }

  /** Nor a parameter when eight captures are taken. */
  lemma NoneFull(t: Node, k: nat, path: string, i: nat, m: Method, caps: seq<Capture>)
    requires i < |path| && k < |t.children| && t.children[k].kind == Param && |caps| >= MAX_CAPTURES
    ensures forall ls :: !Eligible(t, path, i, m, caps, [k] + ls)
  {
    forall ls ensures !Eligible(t, path, i, m, caps, [k] + ls) { PrependParams(t, k, ls); }
  }

  /** One round of the static loop. */
  lemma StaticRound(t: Node, k: nat, path: string, i: nat, m: Method, caps: seq<Capture>)
    requires k < |t.children| && i < |path|
    ensures var c := t.children[k];
      if c.kind == Static && Passes(c, path, i) then
        && caps + Captured(c, path, i) == caps
        && var r := Search(c, path, Land(c, path, i), m, caps + Captured(c, path, i));
           StaticFrom(t, k, path, i, m, caps) == if r.Some? then r else StaticFrom(t, k + 1, path, i, m, caps)
      else StaticFrom(t, k, path, i, m, caps) == StaticFrom(t, k + 1, path, i, m, caps)
  {
    hide Search, StaticFrom;
    assert caps + [] == caps;
    StaticUnfold(t, k, path, i, m, caps);
  }

  lemma StaticUnfold(t: Node, k: nat, path: string, i: nat, m: Method, caps: seq<Capture>)
    requires k < |t.children| && i < |path|
    ensures var c := t.children[k];
      var r := if c.kind == Static && c.path <= path[i..]
               then Search(c, path, AfterSlash(path, i + |c.path|), m, caps) else None;
      StaticFrom(t, k, path, i, m, caps) == if r.Some? then r else StaticFrom(t, k + 1, path, i, m, caps)
  {
    hide Search;
  }

  lemma ParamUnfold(t: Node, k: nat, path: string, i: nat, m: Method, caps: seq<Capture>)
    requires k < |t.children| && i < |path|
    ensures var c := t.children[k];
      var j := IndexOf(path, '/', i);
      var r := if c.kind == Param && i < j && |caps| < MAX_CAPTURES
               then Search(c, path, AfterSlash(path, j), m, caps + [Capture(c.paramName, i, j - i)]) else None;
      ParamFrom(t, k, path, i, m, caps) == if r.Some? then r else ParamFrom(t, k + 1, path, i, m, caps)
  {
    hide Search, IndexOf;
  }

  /** One round of the parameter loop. */
  lemma ParamRound(t: Node, k: nat, path: string, i: nat, m: Method, caps: seq<Capture>)
    requires k < |t.children| && i < |path|
    ensures var c := t.children[k];
      if c.kind == Param && Passes(c, path, i) && |caps| < MAX_CAPTURES then
        && |caps + Captured(c, path, i)| == |caps| + 1
        && var r := Search(c, path, Land(c, path, i), m, caps + Captured(c, path, i));
           ParamFrom(t, k, path, i, m, caps) == if r.Some? then r else ParamFrom(t, k + 1, path, i, m, caps)
      else ParamFrom(t, k, path, i, m, caps) == ParamFrom(t, k + 1, path, i, m, caps)
  {
    hide Search, ParamFrom, IndexOf;
    ParamUnfold(t, k, path, i, m, caps);
  }

  lemma {:induction false} StaticFirst(t: Node, k: nat, path: string, i: nat, m: Method, caps: seq<Capture>) returns (ks: Trace)
    requires k <= |t.children| && i < |path| && |caps| <= MAX_CAPTURES
    ensures FirstAmong(t, Static, k, path, i, m, caps, StaticFrom(t, k, path, i, m, caps), ks)
    decreases t, 0, |t.children| - k
  {
    assert k == |t.children| ==> StaticFrom(t, k, path, i, m, caps) == None;
    hide *;
    if k == |t.children| {
      NoneLeft(t, Static, path, i, m, caps);
      return [];
    }
    StaticRound(t, k, path, i, m, caps);
    var c := t.children[k];
    if c.kind == Static && Passes(c, path, i) {
      var below := SearchFirst(c, path, Land(c, path, i), m, caps + Captured(c, path, i));
      var r := Search(c, path, Land(c, path, i), m, caps + Captured(c, path, i));
      if r.Some? {
        ThroughChild(t, k, path, i, m, caps, r, below);
        return [k] + below;
      }
      NoneThrough(t, k, path, i, m, caps, below);
    } else if c.kind == Static {
      NoneStuck(t, k, path, i, m, caps);
    }
    ks := StaticFirst(t, k + 1, path, i, m, caps);
    PastChild(t, Static, k, path, i, m, caps, StaticFrom(t, k + 1, path, i, m, caps), ks);
  }

  lemma {:induction false} ParamFirst(t: Node, k: nat, path: string, i: nat, m: Method, caps: seq<Capture>) returns (ks: Trace)
    requires k <= |t.children| && i < |path| && |caps| <= MAX_CAPTURES
    ensures FirstAmong(t, Param, k, path, i, m, caps, ParamFrom(t, k, path, i, m, caps), ks)
    decreases t, 0, |t.children| - k
  {
    assert k == |t.children| ==> ParamFrom(t, k, path, i, m, caps) == None;
    hide *;
    if k == |t.children| {
      NoneLeft(t, Param, path, i, m, caps);
      return [];
    }
    ParamRound(t, k, path, i, m, caps);
    var c := t.children[k];
    if c.kind == Param && Passes(c, path, i) && |caps| < MAX_CAPTURES {
      var below := SearchFirst(c, path, Land(c, path, i), m, caps + Captured(c, path, i));
      var r := Search(c, path, Land(c, path, i), m, caps + Captured(c, path, i));
      if r.Some? {
        ThroughChild(t, k, path, i, m, caps, r, below);
        return [k] + below;
      }
      NoneThrough(t, k, path, i, m, caps, below);
    } else if c.kind == Param {
      if |caps| >= MAX_CAPTURES { NoneFull(t, k, path, i, m, caps); } else { NoneStuck(t, k, path, i, m, caps); }
    }
    ks := ParamFirst(t, k + 1, path, i, m, caps);
    PastChild(t, Param, k, path, i, m, caps, ParamFrom(t, k + 1, path, i, m, caps), ks);
  }

  lemma CatchAllEnds(c: Node, path: string, m: Method, ls: Trace)
    ensures Run(c, path, |path|, m, ls).Some? ==> ls == [] && HasHandler(c, m)
  {
  }

  lemma {:induction false} AnyFirst(t: Node, k: nat, path: string, i: nat, m: Method, caps: seq<Capture>) returns (ks: Trace)
    requires k <= |t.children| && i < |path| && |caps| <= MAX_CAPTURES
    ensures FirstAmong(t, CatchAll, k, path, i, m, caps, AnyFrom(t, k, path, i, m, caps), ks)
    decreases t, 0, |t.children| - k
  {
    ks := [];
    if k < |t.children| {
      var c := t.children[k];
      if c.kind == CatchAll && HasHandler(c, m) {
        ks := [k];
        PrependRun(t, k, path, i, m, []);
        assert [k] + [] == ks;
        var tail := [Capture(c.paramName, i, |path| - i)];
        assert tail + [] == tail;
        assert Run(t, path, i, m, ks) == Some(Match(c.methods[m], tail));
        assert |caps| == MAX_CAPTURES ==> (caps + tail)[..MAX_CAPTURES] == caps;
        forall ls | StartsIn(t, CatchAll, k, ls) && Eligible(t, path, i, m, caps, ls) ensures ls == ks || Before(t, ks, ls) {
          if ls[0] == k { assert ls == [k] + ls[1..]; PrependRun(t, k, path, i, m, ls[1..]); CatchAllEnds(c, path, m, ls[1..]); }
        }
      } else {
        if c.kind == CatchAll {
          forall ls ensures !Eligible(t, path, i, m, caps, [k] + ls) { PrependRun(t, k, path, i, m, ls); CatchAllEnds(c, path, m, ls); }
        }
        ks := AnyFirst(t, k + 1, path, i, m, caps);
        PastChild(t, CatchAll, k, path, i, m, caps, AnyFrom(t, k + 1, path, i, m, caps), ks);
      }
    }
  }

  lemma SearchSplit(t: Node, path: string, i: nat, m: Method, caps: seq<Capture>)
    requires i <= |path|
    ensures i == |path| ==> Search(t, path, i, m, caps) == if HasHandler(t, m) then Some(Match(t.methods[m], caps)) else None
    ensures i < |path| ==>
      var a, b := StaticFrom(t, 0, path, i, m, caps), ParamFrom(t, 0, path, i, m, caps);
      Search(t, path, i, m, caps) == if a.Some? then a else if b.Some? then b else AnyFrom(t, 0, path, i, m, caps)
  {
    hide StaticFrom, ParamFrom, AnyFrom;
  }

  /** At the end of the path only the empty trace is left. */
  lemma FirstAtEnd(t: Node, path: string, m: Method, caps: seq<Capture>)
    requires |caps| <= MAX_CAPTURES
    ensures FirstOf(t, path, |path|, m, caps, Search(t, path, |path|, m, caps), [])
  {
    assert caps + [] == caps;
  }

  /** Static children come first, then parameters, then the catch-all. */
  lemma FirstOfThree(t: Node, path: string, i: nat, m: Method, caps: seq<Capture>, ks: Trace)
    requires i < |path| && |caps| <= MAX_CAPTURES
    requires var a := StaticFrom(t, 0, path, i, m, caps);
      var b := ParamFrom(t, 0, path, i, m, caps);
      var c := AnyFrom(t, 0, path, i, m, caps);
      && (if a.Some? then FirstAmong(t, Static, 0, path, i, m, caps, a, ks)
          else exists js :: FirstAmong(t, Static, 0, path, i, m, caps, a, js))
      && (a.None? ==> if b.Some? then FirstAmong(t, Param, 0, path, i, m, caps, b, ks)
                      else exists js :: FirstAmong(t, Param, 0, path, i, m, caps, b, js))
      && (a.None? && b.None? ==> FirstAmong(t, CatchAll, 0, path, i, m, caps, c, ks))
    ensures FirstOf(t, path, i, m, caps, Search(t, path, i, m, caps), ks)
  {
    hide StaticFrom, ParamFrom, AnyFrom, Passes, Land, Captured;
    forall ls | Eligible(t, path, i, m, caps, ls) ensures StartsIn(t, t.children[ls[0]].kind, 0, ls) {}
    hide Run, Params;
  }

  /** The search finds the lexicographically first eligible trace, and fails only when there is none. */
  lemma {:induction false} SearchFirst(t: Node, path: string, i: nat, m: Method, caps: seq<Capture>) returns (ks: Trace)
    requires i <= |path| && |caps| <= MAX_CAPTURES
    ensures FirstOf(t, path, i, m, caps, Search(t, path, i, m, caps), ks)
    decreases t, 1, 0
  {
    hide *;
    if i == |path| {
      ks := [];
      FirstAtEnd(t, path, m, caps);
    } else {
      ks := StaticFirst(t, 0, path, i, m, caps);
      if StaticFrom(t, 0, path, i, m, caps).None? {
        ks := ParamFirst(t, 0, path, i, m, caps);
        if ParamFrom(t, 0, path, i, m, caps).None? {
          ks := AnyFirst(t, 0, path, i, m, caps);
        }
      }
      FirstOfThree(t, path, i, m, caps, ks);
    }
  }

  // ---- Searches that start without captures -------------------------------

  lemma EligibleAccepts(t: Node, path: string, i: nat, m: Method, ks: Trace)
    requires i <= |path| && Eligible(t, path, i, m, [], ks)
    ensures Accepts(t, path, i, m, ks) && Params(t, ks) <= MAX_CAPTURES
  {
    hide Run, Params;
  }

  lemma FirstMeans(t: Node, path: string, i: nat, m: Method, r: Option<Match>, ks: Trace)
    requires i <= |path| && FirstOf(t, path, i, m, [], r, ks) && r.Some?
    ensures Eligible(t, path, i, m, [], ks) && Run(t, path, i, m, ks).Some?
    ensures var e := Run(t, path, i, m, ks).value; r.value.chain == e.chain && r.value.captures == Keep8(e.captures)
  {
    hide Run, Params;
    var cs := Run(t, path, i, m, ks).value.captures;
    assert [] + cs == cs;
  }
}
