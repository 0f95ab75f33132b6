/** Refused registrations over whole histories (src/router.cpp): which nodes any history leaves, and when a refused
    registration changes what lookups answer. */
module Refusals {
  import opened Patterns
  import opened Trie
  import opened TrieInsert
  import opened TrieSearch
  import opened TrieRefused
  import opened TrieWitness
  import opened Routing

  // ---- The nodes of any history -------------------------------------------

  /** Registration `k` reached the trie and was refused there. */
  predicate Declined(rs: seq<Route>, k: nat)
    requires k < |rs|
  {
    !Taken(rs, k) && rs[k].pattern != "" && rs[k].pattern[0] == '/'
  }

  ghost predicate StopOf(rs: seq<Route>, k: nat, pos: Position) { k < |rs| && Taken(rs, k) && Stop(Tail(rs[k]), pos) }

  ghost predicate MeetOf(rs: seq<Route>, j: nat, k: nat, pos: Position) {
    j < |rs| && k < |rs| && Taken(rs, j) && Taken(rs, k) && Meet(Tokens(Tail(rs[j])), Tokens(Tail(rs[k]))) == pos
  }

  /** A refused pattern tears a branch of an earlier accepted one at one of its stops. */
  ghost predicate TearOf(rs: seq<Route>, j: nat, k: nat, pos: Position) {
    j < k < |rs| && Taken(rs, j) && Declined(rs, k) && Stop(Tail(rs[k]), pos) && pos <= Tokens(Tail(rs[j]))
  }

  /** Why a position is a node after a history of registrations. */
  ghost predicate SpotIn(rs: seq<Route>, pos: Position) {
    || pos == []
    || (exists k: nat :: StopOf(rs, k, pos))
    || (exists j: nat, k: nat :: MeetOf(rs, j, k, pos))
    || (exists j: nat, k: nat :: TearOf(rs, j, k, pos))
  }

  /** Every such position lies on the way of an accepted pattern. */
  lemma SpotOnRoute(rs: seq<Route>, pos: Position) returns (k: nat)
    requires SpotIn(rs, pos) && pos != []
    ensures k < |rs| && Taken(rs, k) && pos <= Tokens(Tail(rs[k]))
  {
    hide *;
    SpotCases(rs, pos);
    if i: nat :| StopOf(rs, i, pos) {
      StopBounds(rs, i, pos);
      StopIsPrefix(Tail(rs[i]), pos);
      k := i;
    } else if i: nat, j: nat :| MeetOf(rs, i, j, pos) {
      MeetBounds(rs, i, j, pos);
      MeetPrefix(Tokens(Tail(rs[i])), Tokens(Tail(rs[j])));
      k := i;
    } else {
      var i: nat, j: nat :| TearOf(rs, i, j, pos);
      TearBounds(rs, i, j, pos);
      k := i;
    }
  }

  /** Spots stay spots when the history goes on. */
  lemma SpotStays(rs: seq<Route>, pos: Position)
    requires rs != [] && SpotIn(rs[..|rs| - 1], pos)
    ensures SpotIn(rs, pos)
  {
    hide *;
    var n := |rs| - 1;
    var init := rs[..n];
    SpotCases(init, pos);
    StopsAtRoot(rs, pos);
    if pos == [] {
    } else if k: nat :| StopOf(init, k, pos) {
      StopBounds(init, k, pos);
      TakenPrefix(rs, n, k);
      StopSpot(rs, k, pos);
    } else if j: nat, k: nat :| MeetOf(init, j, k, pos) {
      MeetBounds(init, j, k, pos);
      TakenPrefix(rs, n, j);
      TakenPrefix(rs, n, k);
      MeetIsSpot(rs, j, k);
    } else {
      var j: nat, k: nat :| TearOf(init, j, k, pos);
      TearBounds(init, j, k, pos);
      TakenPrefix(rs, n, j);
      DeclinedPrefix(rs, n, k);
      TearIsSpot(rs, j, k, pos);
    }
  }

  /** What the last registration adds when it is accepted. */
  lemma SpotAccepted(rs: seq<Route>, pos: Position)
    requires rs != [] && Taken(rs, |rs| - 1)
    ensures var n := |rs| - 1;
      SpotIn(rs, pos) <==>
        SpotIn(rs[..n], pos) || Stop(Tail(rs[n]), pos) || exists x :: SpotIn(rs[..n], x) && Meet(x, Tokens(Tail(rs[n]))) == pos
  {
    hide *;
    var n := |rs| - 1;
    var init, p := rs[..n], Tail(rs[n]);
    if SpotIn(rs, pos) { AcceptedOnly(rs, pos); }
    if SpotIn(init, pos) { SpotStays(rs, pos); }
    if Stop(p, pos) { StopSpot(rs, n, pos); }
    if x :| SpotIn(init, x) && Meet(x, Tokens(p)) == pos { MeetSpot(rs, x, pos); }
  }

  lemma StopSpot(rs: seq<Route>, k: nat, pos: Position)
    requires k < |rs| && Taken(rs, k) && Stop(Tail(rs[k]), pos)
    ensures SpotIn(rs, pos)
  {
    hide Taken, Tokens, InnerStop, MeetOf, TearOf;
    assert StopOf(rs, k, pos);
  }

  /** Where a spot parts from the new pattern is a spot. */
  lemma MeetSpot(rs: seq<Route>, x: Position, pos: Position)
    requires rs != [] && Taken(rs, |rs| - 1) && SpotIn(rs[..|rs| - 1], x) && Meet(x, Tokens(Tail(rs[|rs| - 1]))) == pos
    ensures SpotIn(rs, pos)
  {
    hide *;
    var n := |rs| - 1;
    var w := Tokens(Tail(rs[n]));
    SpotStays(rs, x);
    StopsAtRoot(rs, pos);
    if x != [] {
      var k := SpotOnRoute(rs[..n], x);
      TakenPrefix(rs, n, k);
      MeetOfPrefix(x, Tokens(Tail(rs[k])), w);
      if pos != x { MeetIsSpot(rs, k, n); }
    } else {
      MeetRoot(w);
    }
  }

  lemma MeetRoot(w: Position)
    ensures Meet([], w) == []
  {
  }

  lemma MeetIsSpot(rs: seq<Route>, j: nat, k: nat)
    requires j < |rs| && k < |rs| && Taken(rs, j) && Taken(rs, k)
    ensures SpotIn(rs, Meet(Tokens(Tail(rs[j])), Tokens(Tail(rs[k]))))
  {
    hide Taken, Tokens, Meet, StopOf, TearOf;
    assert MeetOf(rs, j, k, Meet(Tokens(Tail(rs[j])), Tokens(Tail(rs[k]))));
  }

  lemma TearIsSpot(rs: seq<Route>, j: nat, k: nat, pos: Position)
    requires j < k < |rs| && Taken(rs, j) && Declined(rs, k) && Stop(Tail(rs[k]), pos) && pos <= Tokens(Tail(rs[j]))
    ensures SpotIn(rs, pos)
  {
    hide Taken, Tokens, Declined, InnerStop, StopOf, MeetOf;
    assert TearOf(rs, j, k, pos);
  }

  lemma DeclinedPrefix(rs: seq<Route>, n: nat, k: nat)
    requires k < n <= |rs|
    ensures Declined(rs[..n], k) == Declined(rs, k)
  {
    TakenPrefix(rs, n, k);
    hide Taken;
  }

  lemma OldStop(rs: seq<Route>, k: nat, pos: Position)
    requires rs != [] && StopOf(rs, k, pos) && k < |rs| - 1
    ensures SpotIn(rs[..|rs| - 1], pos)
  {
    hide *;
    StopBounds(rs, k, pos);
    TakenPrefix(rs, |rs| - 1, k);
    StopSpot(rs[..|rs| - 1], k, pos);
  }

  lemma OldMeet(rs: seq<Route>, j: nat, k: nat, pos: Position)
    requires rs != [] && MeetOf(rs, j, k, pos) && j < |rs| - 1 && k < |rs| - 1
    ensures SpotIn(rs[..|rs| - 1], pos)
  {
    hide *;
    MeetBounds(rs, j, k, pos);
    TakenPrefix(rs, |rs| - 1, j);
    TakenPrefix(rs, |rs| - 1, k);
    MeetIsSpot(rs[..|rs| - 1], j, k);
  }

  lemma OldTear(rs: seq<Route>, j: nat, k: nat, pos: Position)
    requires rs != [] && TearOf(rs, j, k, pos) && k < |rs| - 1
    ensures SpotIn(rs[..|rs| - 1], pos)
  {
    hide *;
    TearBounds(rs, j, k, pos);
    TakenPrefix(rs, |rs| - 1, j);
    DeclinedPrefix(rs, |rs| - 1, k);
    TearIsSpot(rs[..|rs| - 1], j, k, pos);
  }

  /** Where the new pattern parts from an old one, or from itself. */
  lemma NewMeet(rs: seq<Route>, j: nat, k: nat, pos: Position)
    requires rs != [] && MeetOf(rs, j, k, pos) && (j == |rs| - 1 || k == |rs| - 1)
    ensures var n := |rs| - 1;
      Stop(Tail(rs[n]), pos) || exists x :: SpotIn(rs[..n], x) && Meet(x, Tokens(Tail(rs[n]))) == pos
  {
    hide *;
    var n := |rs| - 1;
    var w := Tokens(Tail(rs[n]));
    MeetBounds(rs, j, k, pos);
    EndIsStop(Tail(rs[n]));
    MeetSymmetric(Tokens(Tail(rs[j])), Tokens(Tail(rs[k])));
    MeetSelf(w);
    if j < n || k < n {
      var i := if j < n then j else k;
      var x := Tokens(Tail(rs[i]));
      EndIsStop(Tail(rs[i]));
      TakenPrefix(rs, n, i);
      StopSpot(rs[..n], i, x);
      assert Meet(x, w) == pos;
    }
  }

  lemma MeetSelf(w: Position)
    ensures Meet(w, w) == w
  {
    MeetUnique(w, w, w);
  }

  /** Nothing else is added. */
  lemma AcceptedOnly(rs: seq<Route>, pos: Position)
    requires rs != [] && Taken(rs, |rs| - 1) && SpotIn(rs, pos)
    ensures var n := |rs| - 1;
      SpotIn(rs[..n], pos) || Stop(Tail(rs[n]), pos) || exists x :: SpotIn(rs[..n], x) && Meet(x, Tokens(Tail(rs[n]))) == pos
  {
    hide *;
    var n := |rs| - 1;
    StopsAtRoot(rs[..n], pos);
    SpotCases(rs, pos);
    if pos == [] {
    } else if k: nat :| StopOf(rs, k, pos) {
      StopBounds(rs, k, pos);
      if k < n { OldStop(rs, k, pos); }
    } else if j: nat, k: nat :| MeetOf(rs, j, k, pos) {
      MeetBounds(rs, j, k, pos);
      if j < n && k < n { OldMeet(rs, j, k, pos); } else { NewMeet(rs, j, k, pos); }
    } else {
      var j: nat, k: nat :| TearOf(rs, j, k, pos);
      TearBounds(rs, j, k, pos);
      OldTear(rs, j, k, pos);
    }
  }

  lemma SpotCases(rs: seq<Route>, pos: Position)
    requires SpotIn(rs, pos)
    ensures pos == [] || (exists k: nat :: StopOf(rs, k, pos)) || (exists j: nat, k: nat :: MeetOf(rs, j, k, pos))
            || (exists j: nat, k: nat :: TearOf(rs, j, k, pos))
  {
  }

  lemma StopBounds(rs: seq<Route>, k: nat, pos: Position)
    requires StopOf(rs, k, pos)
    ensures k < |rs| && Taken(rs, k) && Stop(Tail(rs[k]), pos)
  {
  }

  lemma MeetBounds(rs: seq<Route>, j: nat, k: nat, pos: Position)
    requires MeetOf(rs, j, k, pos)
    ensures j < |rs| && k < |rs| && Taken(rs, j) && Taken(rs, k) && Meet(Tokens(Tail(rs[j])), Tokens(Tail(rs[k]))) == pos
  {
  }

  lemma TearBounds(rs: seq<Route>, j: nat, k: nat, pos: Position)
    requires TearOf(rs, j, k, pos)
    ensures j < k < |rs| && Taken(rs, j) && !Taken(rs, k) && Declined(rs, k) && Stop(Tail(rs[k]), pos) && pos <= Tokens(Tail(rs[j]))
  {
    hide Taken, Tokens, InnerStop;
  }

  lemma RouteMake(rs: seq<Route>, n: nat, j: nat, pos: Position)
    requires j < n <= |rs| && Taken(rs, j) && pos <= Tokens(Tail(rs[j]))
    ensures OnRoute(rs[..n], j, pos)
  {
    TakenPrefix(rs, n, j);
    hide Taken, Tokens;
  }

  /** What the last registration adds when the trie refuses it. */
  lemma SpotDeclined(rs: seq<Route>, pos: Position)
    requires rs != [] && !Taken(rs, |rs| - 1)
    ensures var n := |rs| - 1;
      SpotIn(rs, pos) <==>
        SpotIn(rs[..n], pos) || (Declined(rs, n) && Stop(Tail(rs[n]), pos) && exists j: nat :: OnRoute(rs[..n], j, pos))
  {
    hide *;
    var n := |rs| - 1;
    var init := rs[..n];
    if SpotIn(rs, pos) { DeclinedOnly(rs, pos); }
    if SpotIn(init, pos) { SpotStays(rs, pos); }
    if Declined(rs, n) && Stop(Tail(rs[n]), pos) && exists j: nat :: OnRoute(init, j, pos) {
      var j: nat :| OnRoute(init, j, pos);
      RouteBounds(init, j, pos);
      TakenPrefix(rs, n, j);
      TearIsSpot(rs, j, n, pos);
    }
  }

  lemma RouteBounds(rs: seq<Route>, j: nat, pos: Position)
    requires OnRoute(rs, j, pos)
    ensures j < |rs| && Taken(rs, j) && pos <= Tokens(Tail(rs[j]))
  {
  }

  /** Nothing else is added. */
  lemma DeclinedOnly(rs: seq<Route>, pos: Position)
    requires rs != [] && !Taken(rs, |rs| - 1) && SpotIn(rs, pos)
    ensures var n := |rs| - 1;
      SpotIn(rs[..n], pos) || (Declined(rs, n) && Stop(Tail(rs[n]), pos) && exists j: nat :: OnRoute(rs[..n], j, pos))
  {
    hide *;
    var n := |rs| - 1;
    StopsAtRoot(rs[..n], pos);
    SpotCases(rs, pos);
    if pos == [] {
    } else if k: nat :| StopOf(rs, k, pos) {
      StopBounds(rs, k, pos);
      OldStop(rs, k, pos);
    } else if j: nat, k: nat :| MeetOf(rs, j, k, pos) {
      MeetBounds(rs, j, k, pos);
      OldMeet(rs, j, k, pos);
    } else {
      var j: nat, k: nat :| TearOf(rs, j, k, pos);
      TearBounds(rs, j, k, pos);
      if k < n { OldTear(rs, j, k, pos); } else { RouteMake(rs, n, j, pos); }
    }
  }

  ghost predicate OnRoute(rs: seq<Route>, j: nat, pos: Position) { j < |rs| && Taken(rs, j) && pos <= Tokens(Tail(rs[j])) }

  /** The nodes of the trie after any history, refused registrations included. */
  lemma {:induction false} HistorySpots(rs: seq<Route>, pos: Position)
    requires AllSane(rs)
    ensures Has(Build(rs).root, pos) <==> SpotIn(rs, pos)
    decreases |rs|, 0
  {
    if rs == [] {
      NoHistory(pos);
    } else {
      hide *;
      var n := |rs| - 1;
      var init := rs[..n];
      TakenPrefix(rs, n, 0);
      forall x ensures Has(Build(init).root, x) <==> SpotIn(init, x) { HistorySpots(init, x); }
      if Taken(rs, n) {
        SpotAccepted(rs, pos);
        BuiltAccepted(rs, pos);
      } else {
        SpotDeclined(rs, pos);
        BuiltDeclined(rs, pos);
        OnBuilt(init, pos);
        StopsAtRoot(init, pos);
      }
    }
  }

  lemma NoHistory(pos: Position)
    ensures Has(Build([]).root, pos) <==> SpotIn([], pos)
  {
  }

  lemma StopsAtRoot(rs: seq<Route>, pos: Position)
    ensures pos == [] ==> SpotIn(rs, pos)
  {
  }

  /** The nodes after one more registration that is accepted. */
  lemma BuiltAccepted(rs: seq<Route>, pos: Position)
    requires AllSane(rs) && rs != [] && Taken(rs, |rs| - 1)
    ensures var n := |rs| - 1;
      var t := Build(rs[..n]).root;
      Has(Build(rs).root, pos) <==> Has(t, pos) || Stop(Tail(rs[n]), pos) || exists x :: Has(t, x) && Meet(x, Tokens(Tail(rs[n]))) == pos
  {
    var n := |rs| - 1;
    BuildWellFormed(rs[..n]);
    hide WellFormed, Has, InnerStop;
    InsertHas(Build(rs[..n]).root, Tail(rs[n]), rs[n].verb, rs[n].chain, pos);
  }

  /** And after one that is refused. */
  lemma BuiltDeclined(rs: seq<Route>, pos: Position)
    requires AllSane(rs) && rs != [] && !Taken(rs, |rs| - 1)
    ensures var n := |rs| - 1;
      var t := Build(rs[..n]).root;
      Has(Build(rs).root, pos) <==> Has(t, pos) || (Declined(rs, n) && Stop(Tail(rs[n]), pos) && On(t, pos))
  {
    var n := |rs| - 1;
    BuildWellFormed(rs[..n]);
    hide WellFormed, Has, InnerStop, On;
    if Declined(rs, n) {
      RefusedHas(Build(rs[..n]).root, Tail(rs[n]), rs[n].verb, rs[n].chain, pos);
    }
  }

  /** A position lies on a branch exactly when it lies on the way of an accepted pattern. */
  lemma {:induction false} OnBuilt(rs: seq<Route>, pos: Position)
    requires AllSane(rs)
    ensures On(Build(rs).root, pos) <==> pos == [] || exists k: nat :: OnRoute(rs, k, pos)
    decreases |rs|, 1
  {
    var t := Build(rs).root;
    assert Has(t, []);
    if k: nat :| OnRoute(rs, k, pos) {
      EndIsStop(Tail(rs[k]));
      TakenHolds(rs, k, Tokens(Tail(rs[k])));
    }
    hide SpotIn, Has, Taken, Tokens, Build, InnerStop;
    if On(t, pos) {
      var x :| Has(t, x) && pos <= x;
      HistorySpots(rs, x);
      if x != [] {
        var k := SpotOnRoute(rs, x);
        assert OnRoute(rs, k, pos);
      }
    }
  }

  // ---- What refused registrations change ----------------------------------

  /** Every accepted pattern makes at most eight captures. */
  predicate FewCaptures(rs: seq<Route>) {
    forall k :: 0 <= k < |rs| && Taken(rs, k) ==> Wilds(Tokens(Tail(rs[k]))) <= MAX_CAPTURES
  }

  lemma BuiltAtMost(rs: seq<Route>)
    requires AllSane(rs) && FewCaptures(rs)
    ensures AtMost(Build(rs).root, MAX_CAPTURES)
  {
    hide SpotIn, Has, Taken, Tokens, Build;
    forall x | Has(Build(rs).root, x) ensures Wilds(x) <= MAX_CAPTURES {
      HistorySpots(rs, x);
      if x != [] {
        var k := SpotOnRoute(rs, x);
        var w := Tokens(Tail(rs[k]));
        assert w == x + w[|x|..];
        WildsConcat(x, w[|x|..]);
      }
    }
  }

  lemma BuiltFruitful(rs: seq<Route>)
    requires AllSane(rs)
    ensures Fruitful(Build(rs).root)
  {
    var t := Build(rs).root;
    hide SpotIn, Has, Taken, Tokens, Build, Meth;
    forall x | Has(t, x) && x != [] ensures Leads(t, x) {
      HistorySpots(rs, x);
      var k := SpotOnRoute(rs, x);
      TakenStays(rs, k);
      assert TrieWitness.Route(t, x, Tokens(Tail(rs[k])), rs[k].verb);
    }
  }

  // ---- Some byte is always left -------------------------------------------

  /** The first `n` bytes, the slash left out. */
  function Choices(n: nat): (cs: set<char>)
    requires n <= 256
    ensures forall c :: c in cs ==> c as int < n && c != '/'
  {
    if n == 0 then {} else Choices(n - 1) + if n - 1 == '/' as int then {} else {(n - 1) as char}
  }

  lemma {:induction false} ChoicesCount(n: nat)
    requires n <= 256
    ensures |Choices(n)| == if n > '/' as int then n - 1 else n
  {
    if n > 0 {
      ChoicesCount(n - 1);
      if n - 1 != '/' as int { assert (n - 1) as char !in Choices(n - 1); }
    }
  }

  /** The byte pattern `k` goes on with behind `pos`, as a set. */
  function Used(rs: seq<Route>, pos: Position, n: nat): set<char>
    requires n <= |rs|
  {
    if n == 0 then {}
    else
      var w := Tokens(Tail(rs[n - 1]));
      Used(rs, pos, n - 1) + if |pos| < |w| && w[|pos|].Lit? then {w[|pos|].c} else {}
  }

  lemma {:induction false} UsedCount(rs: seq<Route>, pos: Position, n: nat)
    requires n <= |rs|
    ensures |Used(rs, pos, n)| <= n
    ensures forall k :: 0 <= k < n && |pos| < |Tokens(Tail(rs[k]))| && Tokens(Tail(rs[k]))[|pos|].Lit? ==>
      Tokens(Tail(rs[k]))[|pos|].c in Used(rs, pos, n)
  {
    hide Tokens;
    if n > 0 { UsedCount(rs, pos, n - 1); }
  }

  /** With fewer than 255 registrations every node leaves some byte to its parameter. */
  lemma BuiltRoomy(rs: seq<Route>)
    requires AllSane(rs) && |rs| < 255
    ensures Roomy(Build(rs).root)
  {
    hide SpotIn, Has, Taken, Tokens, Build, OpenTo;
    forall pos ensures RoomAt(Build(rs).root, pos) {
      UsedCount(rs, pos, |rs|);
      ChoicesCount(256);
      var b := Left(Choices(256), Used(rs, pos, |rs|));
      OpenByUse(rs, pos, b);
    }
  }

  lemma Left(a: set<char>, b: set<char>) returns (x: char)
    requires |b| < |a|
    ensures x in a && x !in b
  {
    if a <= b { SubsetCount(a, b); }
    x :| x in a && x !in b;
  }

  lemma SubsetCount(a: set<char>, b: set<char>)
    requires a <= b
    ensures |a| <= |b|
  {
    assert b == a + (b - a);
    assert |b| == |a| + |b - a|;
  }

  lemma UsedOf(rs: seq<Route>, pos: Position, b: char, x: Position)
    requires AllSane(rs) && Has(Build(rs).root, x) && pos + [Lit(b)] <= x
    ensures b in Used(rs, pos, |rs|)
  {
    hide SpotIn, Has, Taken, Tokens, Build, Used;
    UsedCount(rs, pos, |rs|);
    HistorySpots(rs, x);
    var k := SpotOnRoute(rs, x);
    assert x[|pos|] == (pos + [Lit(b)])[|pos|] == Lit(b);
    assert Tokens(Tail(rs[k]))[|pos|] == x[|pos|];
  }

  lemma OpenByUse(rs: seq<Route>, pos: Position, b: char)
    requires AllSane(rs) && b in Choices(256) && b !in Used(rs, pos, |rs|)
    ensures OpenTo(Build(rs).root, pos, b)
  {
    hide Has, Build, Used;
    forall x | Has(Build(rs).root, x) ensures !(pos + [Lit(b)] <= x) {
      if pos + [Lit(b)] <= x { UsedOf(rs, pos, b, x); }
    }
  }

  // ---- The result ---------------------------------------------------------

  /** The last registration, refused by the trie, tears an edge: it stops inside an edge on the way of an accepted
      pattern, where no registration had put a node. */
  ghost predicate TearsEdge(rs: seq<Route>, pos: Position)
    requires rs != []
  {
    var n := |rs| - 1;
    Declined(rs, n) && Stop(Tail(rs[n]), pos) && (exists j: nat :: OnRoute(rs[..n], j, pos)) && !SpotIn(rs[..n], pos)
  }

  ghost predicate SameAnswers(a: Table, b: Table) { forall m, path :: Lookup(a, m, path) == Lookup(b, m, path) }

  /** A refused registration changes no lookup, unless it tears an edge. */
  lemma RefusalHarmless(rs: seq<Route>)
    requires AllSane(rs) && rs != [] && !Taken(rs, |rs| - 1) && forall pos :: !TearsEdge(rs, pos)
    ensures SameAnswers(Build(rs), Build(rs[..|rs| - 1]))
  {
    var n := |rs| - 1;
    if Declined(rs, n) { DeclinedHarmless(rs); }
  }

  lemma DeclinedHarmless(rs: seq<Route>)
    requires AllSane(rs) && rs != [] && Declined(rs, |rs| - 1) && forall pos :: !TearsEdge(rs, pos)
    ensures SameAnswers(Build(rs), Build(rs[..|rs| - 1]))
  {
    var n := |rs| - 1;
    var init, r, p := rs[..n], rs[n], Tail(rs[n]);
    var t := Build(init).root;
    BuildWellFormed(init);
    hide WellFormed, Has, SpotIn, Taken, InnerStop, Search, Insert, On;
    forall pos | Torn(t, p, pos) ensures Has(t, pos) {
      OnBuilt(init, pos);
      HistorySpots(init, pos);
      StopsAtRoot(init, pos);
      assert !TearsEdge(rs, pos);
    }
    forall m, path ensures Lookup(Build(rs), m, path) == Lookup(Build(init), m, path) {
      if path != "" && path[0] == '/' { RefusedHarmless(t, p, r.verb, r.chain, path, 1, m, []); }
    }
  }

  /** One that tears an edge changes some lookup, where no route captures more than eight values and every parameter
      has a byte to itself; fewer than 255 registrations always leave one. */
  lemma RefusalShows(rs: seq<Route>, pos: Position)
    requires AllSane(rs) && rs != [] && FewCaptures(rs[..|rs| - 1]) && Roomy(Build(rs[..|rs| - 1]).root) && TearsEdge(rs, pos)
    ensures !SameAnswers(Build(rs), Build(rs[..|rs| - 1]))
  {
    var n := |rs| - 1;
    var init, r, p := rs[..n], rs[n], Tail(rs[n]);
    var t := Build(init).root;
    TakenPrefix(rs, n, 0);
    BuildWellFormed(init);
    BuiltAtMost(init);
    BuiltFruitful(init);
    HistorySpots(init, pos);
    OnBuilt(init, pos);
    hide WellFormed, Has, SpotIn, Taken, InnerStop, Search, Insert, On, AtMost, Fruitful, Roomy, FewCaptures;
    var path, v := RefusedShows(t, p, r.verb, r.chain, pos);
    assert Lookup(Build(rs), v, path) != Lookup(Build(init), v, path);
  }

  /** So a refused registration is without effect exactly when it tears no edge. */
  lemma RefusalExactly(rs: seq<Route>)
    requires AllSane(rs) && rs != [] && FewCaptures(rs[..|rs| - 1]) && Roomy(Build(rs[..|rs| - 1]).root) && !Taken(rs, |rs| - 1)
    ensures SameAnswers(Build(rs), Build(rs[..|rs| - 1])) <==> forall pos :: !TearsEdge(rs, pos)
  {
    hide TearsEdge, SameAnswers, Taken, Build, FewCaptures, Roomy;
    if forall pos :: !TearsEdge(rs, pos) {
      RefusalHarmless(rs);
    } else {
      var pos :| TearsEdge(rs, pos);
      RefusalShows(rs, pos);
    }
  }
}
