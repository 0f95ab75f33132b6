/** The order in which a chain of handlers runs (src/ctx.cpp, next): inward through the parts before next(), outward
    through the parts behind it, and no further than the first handler that does not call it. */
module Chains {
  import opened Text
  import opened Ctx
  import opened Terminal

  // ---- Handlers that make calls around the rest of the chain --------------

  /** A program that makes these calls and goes on with `rest`. */
  function Calls(acts: seq<Action>, rest: Program): Program
    decreases |acts|
  {
    if acts == [] then rest else Do(acts[0], Calls(acts[1..], rest))
  }

  datatype Shell = Shell(before: seq<Action>, after: seq<Action>)

  function Wrap(s: Shell): Program { Calls(s.before, Next(Calls(s.after, Done))) }

  /** The calls made on the way in, outermost handler first. */
  function Inward(ss: seq<Shell>): seq<Action> { if ss == [] then [] else ss[0].before + Inward(ss[1..]) }

  /** The calls made on the way out, outermost handler last. */
  function Outward(ss: seq<Shell>): seq<Action> { if ss == [] then [] else Outward(ss[1..]) + ss[0].after }

  /** What is behind the handlers that call next(): nothing, a handler that does not call it, or one that throws. */
  datatype End = Over | Stops(acts: seq<Action>) | Throws(acts: seq<Action>)

  function EndCalls(end: End): seq<Action> { if end.Over? then [] else end.acts }

  /** From handler `i` on the chain is `ss`, then `end`, then anything. */
  ghost predicate Shaped(ps: seq<Program>, i: nat, ss: seq<Shell>, end: End) {
    && i + |ss| <= |ps| && (forall j :: 0 <= j < |ss| ==> ps[i + j] == Wrap(ss[j]))
    && match end
       case Over => i + |ss| == |ps|
       case Stops(acts) => i + |ss| < |ps| && ps[i + |ss|] == Calls(acts, Done)
       case Throws(acts) => i + |ss| < |ps| && ps[i + |ss|] == Calls(acts, Throw)
  }

  lemma {:induction false} CallsRun(ps: seq<Program>, acts: seq<Action>, rest: Program, st: State)
    ensures Exec(ps, Calls(acts, rest), st) == Exec(ps, rest, ApplyAll(st, acts))
    ensures ApplyAll(st, acts).index == st.index
    decreases |acts|
  {
    if acts != [] {
      ApplyFirst(st, acts);
      hide ApplyAll, Apply;
      CallsRun(ps, acts[1..], rest, Apply(st, acts[0]));
    }
  }

  lemma ApplyFirst(st: State, acts: seq<Action>)
    requires acts != []
    ensures ApplyAll(st, acts) == ApplyAll(Apply(st, acts[0]), acts[1..]) && Apply(st, acts[0]).index == st.index
  {
    assert [acts[0]][..0] == [] && acts == [acts[0]] + acts[1..];
    ApplyConcat(st, [acts[0]], acts[1..]);
    assert ApplyAll(st, [acts[0]]) == Apply(st, acts[0]);
  }

  /** next() with nothing left is no call at all; otherwise it runs the handler at the index, then what follows. */
  lemma NextRuns(ps: seq<Program>, rest: Program, st: State)
    ensures st.index >= |ps| ==> Exec(ps, Next(rest), st) == Exec(ps, rest, st)
    ensures st.index < |ps| ==>
      var r := Exec(ps, ps[st.index], st.(index := st.index + 1));
      Exec(ps, Next(rest), st) == if r.Threw? then Threw else Exec(ps, rest, r.st)
  {
  }

  lemma EndsRun(ps: seq<Program>, st: State)
    ensures Exec(ps, Done, st) == Finished(st) && Exec(ps, Throw, st) == Threw
  {
  }

  /** The state left by the calls in the order of the onion. */
  function Around(st: State, ss: seq<Shell>, end: End): State { ApplyAll(st, Inward(ss) + EndCalls(end) + Outward(ss)) }

  lemma AroundMore(st: State, ss: seq<Shell>, end: End)
    requires ss != []
    ensures Around(st, ss, end) == ApplyAll(Around(ApplyAll(st, ss[0].before), ss[1..], end), ss[0].after)
  {
    var s, tail := ss[0], Inward(ss[1..]) + EndCalls(end) + Outward(ss[1..]);
    Regroup(s.before, Inward(ss[1..]), EndCalls(end), Outward(ss[1..]), s.after);
    assert Inward(ss) == s.before + Inward(ss[1..]) && Outward(ss) == Outward(ss[1..]) + s.after;
    hide *;
    ApplyConcat(st, s.before, tail + s.after);
    ApplyConcat(ApplyAll(st, s.before), tail, s.after);
    AroundIs(ApplyAll(st, s.before), ss[1..], end);
    AroundIs(st, ss, end);
  }

  lemma Regroup<T>(a: seq<T>, b: seq<T>, c: seq<T>, d: seq<T>, e: seq<T>)
    ensures (a + b) + c + (d + e) == a + ((b + c + d) + e)
  {
  }

  lemma AroundIs(st: State, ss: seq<Shell>, end: End)
    ensures Around(st, ss, end) == ApplyAll(st, Inward(ss) + EndCalls(end) + Outward(ss))
  {
    hide ApplyAll, Inward, Outward;
  }

  /** Where the index stands in the end. */
  function Stand(i: nat, ss: seq<Shell>, end: End): nat { i + |ss| + if end.Over? then 0 else 1 }

  /** Running such a chain is making the calls in that order; a handler that throws ends everything. */
  lemma {:induction false} ShellsRun(ps: seq<Program>, ss: seq<Shell>, end: End, st: State)
    requires Shaped(ps, st.index, ss, end)
    ensures Exec(ps, Next(Done), st) ==
      if end.Throws? then Threw else Finished(Around(st, ss, end).(index := Stand(st.index, ss, end)))
    decreases |ss|
  {
    var i := st.index;
    hide *;
    NextRuns(ps, Done, st);
    ShapedHead(ps, i, ss, end);
    if ss == [] {
      EndRuns(ps, end, st);
    } else {
      var st1 := st.(index := i + 1);
      CallsRun(ps, ss[0].before, Next(Calls(ss[0].after, Done)), st1);
      WrapIs(ss[0]);
      var st2 := ApplyAll(st1, ss[0].before);
      ShellsRun(ps, ss[1..], end, st2);
      NextThen(ps, Calls(ss[0].after, Done), st2);
      if !end.Throws? { ShellCloses(ps, ss, end, st); }
      EndsRun(ps, Around(st, ss, end).(index := Stand(i, ss, end)));
    }
  }

  lemma WrapIs(s: Shell)
    ensures Wrap(s) == Calls(s.before, Next(Calls(s.after, Done)))
  {
  }

  /** What follows next() runs behind it, in the state it leaves. */
  lemma NextThen(ps: seq<Program>, rest: Program, st: State)
    ensures var r := Exec(ps, Next(Done), st); Exec(ps, Next(rest), st) == if r.Threw? then Threw else Exec(ps, rest, r.st)
  {
    hide *;
    NextRuns(ps, rest, st);
    NextRuns(ps, Done, st);
    EndsRun(ps, st);
    if st.index < |ps| {
      var r := Exec(ps, ps[st.index], st.(index := st.index + 1));
      if r.Finished? { EndsRun(ps, r.st); }
    }
  }

  lemma ShapedHead(ps: seq<Program>, i: nat, ss: seq<Shell>, end: End)
    requires Shaped(ps, i, ss, end)
    ensures ss != [] ==> i < |ps| && ps[i] == Wrap(ss[0]) && Shaped(ps, i + 1, ss[1..], end)
    ensures ss == [] && end.Over? ==> i >= |ps|
    ensures ss == [] && end.Stops? ==> i < |ps| && ps[i] == Calls(end.acts, Done)
    ensures ss == [] && end.Throws? ==> i < |ps| && ps[i] == Calls(end.acts, Throw)
  {
    hide Wrap, Calls;
    if ss != [] {
      assert ps[i + 0] == Wrap(ss[0]);
      forall j | 0 <= j < |ss[1..]| ensures ps[i + 1 + j] == Wrap(ss[1..][j]) { assert ps[i + (j + 1)] == Wrap(ss[j + 1]); }
    }
  }

  lemma EndRuns(ps: seq<Program>, end: End, st: State)
    requires Shaped(ps, st.index, [], end)
    ensures Exec(ps, Next(Done), st) ==
      if end.Throws? then Threw else Finished(Around(st, [], end).(index := Stand(st.index, [], end)))
  {
    hide *;
    ShapedHead(ps, st.index, [], end);
    NextRuns(ps, Done, st);
    EndsRun(ps, st);
    NothingAround(st, end);
    if !end.Over? {
      var st1 := st.(index := st.index + 1);
      CallsRun(ps, end.acts, if end.Stops? then Done else Throw, st1);
      EndsRun(ps, ApplyAll(st1, end.acts));
      IndexAside(st, end.acts, st1.index);
    }
  }

  lemma NothingAround(st: State, end: End)
    ensures Around(st, [], end) == ApplyAll(st, EndCalls(end)) && Stand(st.index, [], end) == st.index + if end.Over? then 0 else 1
    ensures end.Over? ==> Around(st, [], end) == st
    ensures !end.Over? ==> EndCalls(end) == end.acts
  {
    hide ApplyAll;
    AroundIs(st, [], end);
    NothingAdded(EndCalls(end));
    NoCalls(st);
  }

  lemma NothingAdded<T>(a: seq<T>)
    ensures [] + a + [] == a
  {
  }

  lemma NoCalls(st: State)
    ensures ApplyAll(st, []) == st
  {
  }

  /** The outermost handler goes on behind next(). */
  lemma ShellCloses(ps: seq<Program>, ss: seq<Shell>, end: End, st: State)
    requires ss != []
    ensures var st2 := ApplyAll(st.(index := st.index + 1), ss[0].before);
      && st2.index == st.index + 1
      && Exec(ps, Calls(ss[0].after, Done), Around(st2, ss[1..], end).(index := Stand(st2.index, ss[1..], end))) ==
           Finished(Around(st, ss, end).(index := Stand(st.index, ss, end)))
  {
    hide *;
    var i := st.index;
    var st1 := st.(index := i + 1);
    var st2 := ApplyAll(st1, ss[0].before);
    var n := Stand(i, ss, end);
    StandMore(i, ss, end);
    CallsRun([], ss[0].before, Done, st1);
    var mid := Around(st2, ss[1..], end);
    CallsRun(ps, ss[0].after, Done, mid.(index := n));
    EndsRun(ps, ApplyAll(mid.(index := n), ss[0].after));
    IndexAside(mid, ss[0].after, n);
    AroundMore(st, ss, end);
    IndexAside(st, ss[0].before, i + 1);
    AroundIs(ApplyAll(st, ss[0].before), ss[1..], end);
    AroundIs(st2, ss[1..], end);
    IndexAside(ApplyAll(st, ss[0].before), Inward(ss[1..]) + EndCalls(end) + Outward(ss[1..]), i + 1);
    IndexAside(ApplyAll(ApplyAll(st, ss[0].before), Inward(ss[1..]) + EndCalls(end) + Outward(ss[1..])), ss[0].after, i + 1);
  }

  lemma StandMore(i: nat, ss: seq<Shell>, end: End)
    requires ss != []
    ensures Stand(i + 1, ss[1..], end) == Stand(i, ss, end)
  {
  }

  // ---- No further than the handler that does not call next() --------------

  /** The most next() calls on any way through the program. */
  function Nexts(p: Program): nat
    decreases p
  {
    match p
    case Done => 0
    case Throw => 0
    case Do(_, rest) => Nexts(rest)
    case Test(_, yes, no) => if Nexts(yes) > Nexts(no) then Nexts(yes) else Nexts(no)
    case Next(rest) => 1 + Nexts(rest)
  }

  /** Without next() the chain does not matter. */
  lemma {:induction false} Alone(ps: seq<Program>, qs: seq<Program>, p: Program, st: State)
    requires Nexts(p) == 0
    ensures Exec(ps, p, st) == Exec(qs, p, st)
    ensures Exec(ps, p, st).Finished? ==> Exec(ps, p, st).st.index == st.index
    decreases p
  {
    match p
    case Done =>
    case Throw =>
    case Do(a, rest) =>
      hide SetIn;
      Alone(ps, qs, rest, Apply(st, a));
    case Test(cond, yes, no) => if cond(st) { Alone(ps, qs, yes, st); } else { Alone(ps, qs, no, st); }
  }

  /** Handlers up to `k` that call next() at most once, and `k` not at all. */
  ghost predicate StopsAt(ps: seq<Program>, k: nat) {
    k < |ps| && Nexts(ps[k]) == 0 && forall j :: 0 <= j < k ==> Nexts(ps[j]) <= 1
  }

  /** What is behind handler `k` has no effect. */
  lemma {:induction false} SameUpTo(ps: seq<Program>, qs: seq<Program>, k: nat, p: Program, st: State)
    requires StopsAt(ps, k) && k < |qs| && (forall j :: 0 <= j <= k ==> ps[j] == qs[j]) && Nexts(p) <= 1 && st.index <= k
    ensures Exec(ps, p, st) == Exec(qs, p, st)
    decreases k - st.index, p
  {
    match p
    case Done =>
    case Throw =>
    case Do(a, rest) =>
      hide SetIn;
      SameUpTo(ps, qs, k, rest, Apply(st, a));
    case Test(cond, yes, no) =>
      if cond(st) { SameUpTo(ps, qs, k, yes, st); } else { SameUpTo(ps, qs, k, no, st); }
    case Next(rest) =>
      hide Exec;
      var st1 := st.(index := st.index + 1);
      NextRuns(ps, rest, st);
      NextRuns(qs, rest, st);
      if st.index == k { Alone(ps, qs, ps[k], st1); } else { SameUpTo(ps, qs, k, ps[st.index], st1); }
      var r := Exec(ps, ps[st.index], st1);
      if r.Finished? { Alone(ps, qs, rest, r.st); }
  }
}
