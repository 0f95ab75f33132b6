/** What becomes of the first terminal response call (src/ctx.cpp): exactly when the page that is sent is the one
    it described. */
module Terminal {
  import opened Text
  import opened Ctx
  import opened Serve

  // ---- The calls a chain makes --------------------------------------------

  function ApplyAll(st: State, acts: seq<Action>): State {
    if acts == [] then st else Apply(ApplyAll(st, acts[..|acts| - 1]), acts[|acts| - 1])
  }

  lemma {:induction false} ApplyConcat(st: State, a: seq<Action>, b: seq<Action>)
    ensures ApplyAll(st, a + b) == ApplyAll(ApplyAll(st, a), b)
  {
    if b == [] {
      assert a + b == a;
    } else {
      var n := |b| - 1;
      assert (a + b)[..|a + b| - 1] == a + b[..n];
      ApplyConcat(st, a, b[..n]);
    }
  }

  lemma {:induction false} IndexAside(st: State, acts: seq<Action>, i: nat)
    ensures ApplyAll(st.(index := i), acts) == ApplyAll(st, acts).(index := i)
  {
    if acts != [] { IndexAside(st, acts[..|acts| - 1], i); }
  }

  /** The response calls made while `p` runs as part of a chain, in order. */
  function Trail(chain: seq<Program>, p: Program, st: State): seq<Action>
    decreases if st.index < |chain| then |chain| - st.index else 0, p
  {
    match p
    case Done => []
    case Throw => []
    case Do(a, rest) => [a] + Trail(chain, rest, Apply(st, a))
    case Test(cond, yes, no) => if cond(st) then Trail(chain, yes, st) else Trail(chain, no, st)
    case Next(rest) =>
      if st.index < |chain| then
        var st1 := st.(index := st.index + 1);
        Trail(chain, chain[st.index], st1) +
        (match Exec(chain, chain[st.index], st1)
         case Threw => []
         case Finished(st2) => Trail(chain, rest, st2))
      else Trail(chain, rest, st)
  }

  /** Running a chain is making those calls; only the position in the chain is kept besides. */
  lemma {:induction false} ExecTrail(chain: seq<Program>, p: Program, st: State)
    requires Exec(chain, p, st).Finished?
    ensures var end := Exec(chain, p, st).st; ApplyAll(st, Trail(chain, p, st)).(index := end.index) == end
    decreases if st.index < |chain| then |chain| - st.index else 0, p
  {
    match p
    case Done =>
    case Throw =>
    case Do(a, rest) =>
      ExecTrail(chain, rest, Apply(st, a));
      ApplyConcat(st, [a], Trail(chain, rest, Apply(st, a)));
      assert ApplyAll(st, [a]) == Apply(st, a) by { assert [a][..0] == []; }
    case Test(cond, yes, no) =>
      if cond(st) { ExecTrail(chain, yes, st); } else { ExecTrail(chain, no, st); }
    case Next(rest) =>
      if st.index < |chain| {
        var st1 := st.(index := st.index + 1);
        ExecTrail(chain, chain[st.index], st1);
        var st2 := Exec(chain, chain[st.index], st1).st;
        ExecTrail(chain, rest, st2);
        var a, b := Trail(chain, chain[st.index], st1), Trail(chain, rest, st2);
        ApplyConcat(st, a, b);
        IndexAside(st, a, st1.index);
        IndexAside(ApplyAll(st, a), b, st2.index);
      } else {
        ExecTrail(chain, rest, st);
      }
  }

  // ---- What later calls can change ----------------------------------------

  /** The status code named last. */
  function LastStatus(acts: seq<Action>, code: int): int {
    if acts == [] then code
    else
      match acts[|acts| - 1]
      case Status(c) => c
      case Redirect(_, c) => c
      case _ => LastStatus(acts[..|acts| - 1], code)
  }

  /** The header a call names, when it is valid. */
  function Naming(a: Action): Option<Field> {
    match a
    case Set(name, value) => if ValidName(name) && ValidValue(value) then Some(Field(name, value)) else None
    case Redirect(location, _) => if ValidValue(location) then Some(Field("Location", location)) else None
    case _ => None
  }

  /** The value given last to a header. */
  function LastValue(acts: seq<Action>, key: string): Option<string> {
    if acts == [] then None
    else
      match Naming(acts[|acts| - 1])
      case Some(f) => if Folded(f.name) == key then Some(f.value) else LastValue(acts[..|acts| - 1], key)
      case None => LastValue(acts[..|acts| - 1], key)
  }

  /** Every header these calls name has, in the end, the value it had, or found the table full. */
  ghost predicate HeadersBack(acts: seq<Action>, hs: seq<Field>) {
    forall key :: LastValue(acts, key).Some? ==>
      if key in Denoted(hs) then Denoted(hs)[key] == LastValue(acts, key).value else |hs| == MAX_HEADERS
  }

  lemma NamingIs(st: State, a: Action)
    ensures Apply(st, a).headers ==
      match Naming(a) case None => st.headers case Some(f) => SetIn(st.headers, f.name, f.value)
    ensures Naming(a).Some? ==> ValidName(Naming(a).value.name) && ValidValue(Naming(a).value.value)
  {
    assert ValidName("Location");
  }

  /** `gs` has the names of `hs` in front, in place. */
  predicate Grown(hs: seq<Field>, gs: seq<Field>) {
    |hs| <= |gs| && forall k :: 0 <= k < |hs| ==> gs[k].name == hs[k].name
  }

  /** What the table says about one header after some calls. */
  ghost predicate Explained(acts: seq<Action>, hs: seq<Field>, gs: seq<Field>, key: string) {
    var last := LastValue(acts, key);
    && (key in Denoted(hs) ==> key in Denoted(gs) && Denoted(gs)[key] == if last.Some? then last.value else Denoted(hs)[key])
    && (key !in Denoted(hs) && last.None? ==> key !in Denoted(gs))
    && (key !in Denoted(hs) && last.Some? ==> if key in Denoted(gs) then Denoted(gs)[key] == last.value else |gs| == MAX_HEADERS)
  }

  lemma SetGrows(hs: seq<Field>, name: string, value: string)
    ensures Grown(hs, SetIn(hs, name, value))
  {
    hide ValidName, ValidValue, Folded;
  }

  lemma GrownTwice(a: seq<Field>, b: seq<Field>, c: seq<Field>)
    requires Grown(a, b) && Grown(b, c)
    ensures Grown(a, c)
  {
  }

  /** One more valid header call. */
  lemma ExplainSet(acts: seq<Action>, hs: seq<Field>, mid: seq<Field>, f: Field, key: string)
    requires acts != [] && Naming(acts[|acts| - 1]) == Some(f) && ValidName(f.name) && ValidValue(f.value)
    requires TableOk(mid) && Explained(acts[..|acts| - 1], hs, mid, key)
    ensures Explained(acts, hs, SetIn(mid, f.name, f.value), key) && TableOk(SetIn(mid, f.name, f.value))
  {
    SetIsUpdate(mid, f.name, f.value);
    FullStays(mid, f.name, f.value);
    hide TableOk, Denoted, Folded, ValidName, ValidValue, SetIn, Naming;
  }

  lemma FullStays(hs: seq<Field>, name: string, value: string)
    ensures |hs| == MAX_HEADERS ==> |SetIn(hs, name, value)| == MAX_HEADERS
  {
    hide ValidName, ValidValue, Folded;
  }

  lemma {:induction false} TableAfter(st: State, acts: seq<Action>, key: string)
    requires TableOk(st.headers)
    ensures var gs := ApplyAll(st, acts).headers;
      TableOk(gs) && Grown(st.headers, gs) && Explained(acts, st.headers, gs, key)
  {
    if acts != [] {
      var n := |acts| - 1;
      TableAfter(st, acts[..n], key);
      var mid := ApplyAll(st, acts[..n]);
      NamingIs(mid, acts[n]);
      hide TableOk, Denoted, Folded, ValidName, ValidValue, SetIn, Grown, Apply, Naming;
      match Naming(acts[n])
      case Some(f) =>
        ExplainSet(acts, st.headers, mid.headers, f, key);
        SetGrows(mid.headers, f.name, f.value);
        GrownTwice(st.headers, mid.headers, ApplyAll(st, acts).headers);
      case None =>
    }
  }

  /** The table is what it was exactly when every header named in between has its value back. */
  lemma TableBack(st: State, acts: seq<Action>)
    requires TableOk(st.headers)
    ensures ApplyAll(st, acts).headers == st.headers <==> HeadersBack(acts, st.headers)
  {
    var hs, gs := st.headers, ApplyAll(st, acts).headers;
    TableAfter(st, acts, "");
    forall key ensures Explained(acts, hs, gs, key) { TableAfter(st, acts, key); }
    hide TableOk, Denoted, ApplyAll, LastValue, Explained;
    if HeadersBack(acts, hs) {
      NothingAdded(acts, hs, gs);
      forall k | 0 <= k < |hs| ensures gs[k] == hs[k] { SameValue(acts, hs, gs, k); }
    }
    if gs == hs { AllBack(acts, hs); }
  }

  lemma AllBack(acts: seq<Action>, hs: seq<Field>)
    requires forall key :: Explained(acts, hs, hs, key)
    ensures HeadersBack(acts, hs)
  {
    forall key | LastValue(acts, key).Some?
      ensures if key in Denoted(hs) then Denoted(hs)[key] == LastValue(acts, key).value else |hs| == MAX_HEADERS
    {
      assert Explained(acts, hs, hs, key);
    }
  }

  lemma NothingAdded(acts: seq<Action>, hs: seq<Field>, gs: seq<Field>)
    requires TableOk(hs) && TableOk(gs) && Grown(hs, gs) && HeadersBack(acts, hs) && forall key :: Explained(acts, hs, gs, key)
    ensures |gs| == |hs|
  {
    if |gs| > |hs| {
      var key := Folded(gs[|hs|].name);
      FoundValue(gs, |hs|);
      assert Explained(acts, hs, gs, key);
      DenotedKeys(hs, key);
    }
  }

  lemma SameValue(acts: seq<Action>, hs: seq<Field>, gs: seq<Field>, k: nat)
    requires TableOk(hs) && TableOk(gs) && Grown(hs, gs) && HeadersBack(acts, hs) && forall key :: Explained(acts, hs, gs, key)
    requires k < |hs|
    ensures gs[k] == hs[k]
  {
    FoundValue(hs, k);
    FoundValue(gs, k);
    assert Explained(acts, hs, gs, Folded(hs[k].name));
  }

  /** After a terminal call only status and headers can still change. */
  lemma {:induction false} AfterSent(st: State, acts: seq<Action>)
    requires st.sent
    ensures ApplyAll(st, acts) == st.(status := LastStatus(acts, st.status), headers := ApplyAll(st, acts).headers)
  {
    if acts != [] {
      AfterSent(st, acts[..|acts| - 1]);
      hide SetIn;
    }
  }

  // ---- The page that is sent ----------------------------------------------

  /** The calls behind a terminal one leave its page as it is: it is prebuilt, or the status named last is its
      own and every header named has its value back. */
  ghost predicate LeavesPage(st: State, acts: seq<Action>) {
    st.prebuilt.Some? || (LastStatus(acts, st.status) == st.status && HeadersBack(acts, st.headers))
  }

  lemma PageStays(st: State, acts: seq<Action>, head: bool)
    requires st.sent && TableOk(st.headers)
    ensures PageOf(ApplyAll(st, acts), head) == PageOf(st, head) <==> LeavesPage(st, acts)
  {
    AfterSent(st, acts);
    TableBack(st, acts);
    hide ApplyAll, HeadersBack, LastStatus, TableOk;
  }

  /** What runs behind a terminal call leaves its page as it is exactly under that condition on the calls made. */
  lemma RestLeavesPage(chain: seq<Program>, p: Program, st: State, head: bool)
    requires st.sent && TableOk(st.headers) && Exec(chain, p, st).Finished?
    ensures PageOf(Exec(chain, p, st).st, head) == PageOf(st, head) <==> LeavesPage(st, Trail(chain, p, st))
  {
    ExecTrail(chain, p, st);
    PageStays(st, Trail(chain, p, st), head);
    hide Exec, Trail, ApplyAll, LeavesPage, TableOk;
  }

  /** A content type gets a charset exactly when it is a text type that does not speak of one; twice is once. */
  lemma CharsetAdded(t: string)
    ensures var named := exists a, b :: t == a + "charset" + b;
      WithCharset(t) == if "text/" <= t && !named then t + "; charset=utf-8" else t
    ensures WithCharset(WithCharset(t)) == WithCharset(t)
  {
    NamesCharset(t);
    var u := t + "; charset=utf-8";
    assert u == (t + "; ") + "charset" + "=utf-8";
    NamesCharset(u);
    hide Contains;
    assert "text/" <= t ==> u[..5] == t[..5];
  }

  lemma NamesCharset(t: string)
    ensures Contains(t, "charset") <==> exists a, b :: t == a + "charset" + b
  {
    if Contains(t, "charset") {
      var k :| 0 <= k <= |t| && OccursAt(t, "charset", k);
      assert t == t[..k] + "charset" + t[k + 7..];
    }
    if a, b :| t == a + "charset" + b {
      assert t[|a|..|a| + 7] == "charset";
      assert OccursAt(t, "charset", |a|);
    }
  }

  /** What the first terminal call of a response makes of the calls before it: the status named last, the headers set so
      far, and its own body and type. */
  lemma FirstPage(acts: seq<Action>, a: Action, head: bool)
    requires (forall k :: 0 <= k < |acts| ==> !TerminalCall(acts[k])) && TerminalCall(a)
    ensures var hs := ApplyAll(FRESH, acts).headers;
      && (forall key :: Explained(acts, [], hs, key))
      && PageOf(Apply(ApplyAll(FRESH, acts), a), head) ==
           match a
           case Send(body, contentType) => Built(LastStatus(acts, 200), WithCharset(contentType), body, hs, head)
           case NoContent => Built(204, "", "", hs, head)
           case Prebuilt(data) => Raw(data)
           case Redirect(location, code) => Built(code, WithCharset("text/plain"), "", SetIn(hs, "Location", location), head)
           case _ => PageOf(FRESH, head)
  {
    NotSentYet(acts);
    NoHeaders();
    forall key ensures Explained(acts, [], ApplyAll(FRESH, acts).headers, key) { TableAfter(FRESH, acts, key); }
    hide ApplyAll, Explained, SetIn, WithCharset, LastStatus;
  }

  /** Before any terminal call: the status named last, and nothing else but headers. */
  lemma {:induction false} NotSentYet(acts: seq<Action>)
    requires forall k :: 0 <= k < |acts| ==> !TerminalCall(acts[k])
    ensures ApplyAll(FRESH, acts) == FRESH.(status := LastStatus(acts, 200), headers := ApplyAll(FRESH, acts).headers)
  {
    if acts != [] {
      NotSentYet(acts[..|acts| - 1]);
      hide SetIn;
      assert !TerminalCall(acts[|acts| - 1]);
    }
  }

  lemma {:induction false} StartsUnsent(st: State, acts: seq<Action>)
    requires !st.sent
    ensures ApplyAll(st, acts).sent <==> exists k :: 0 <= k < |acts| && TerminalCall(acts[k])
  {
    if acts != [] {
      var n := |acts| - 1;
      StartsUnsent(st, acts[..n]);
      assert forall k :: 0 <= k < n ==> acts[..n][k] == acts[k];
      hide SetIn;
    }
  }

  lemma {:induction false} TableStays(st: State, acts: seq<Action>)
    requires TableOk(st.headers)
    ensures TableOk(ApplyAll(st, acts).headers)
  {
    TableAfter(st, acts, "");
  }

  /** The page of a chain that makes a terminal call is the one that stands right after the first of them,
      exactly when the calls behind it leave that page as it is. */
  lemma FirstTerminalDecides(chain: seq<Program>, p: Program, k: nat, head: bool)
    requires Exec(chain, p, FRESH).Finished?
    requires var acts := Trail(chain, p, FRESH);
      k < |acts| && TerminalCall(acts[k]) && forall j :: 0 <= j < k ==> !TerminalCall(acts[j])
    ensures var acts := Trail(chain, p, FRESH);
      var first := ApplyAll(FRESH, acts[..k + 1]);
      && first.sent && !ApplyAll(FRESH, acts[..k]).sent
      && (PageOf(Exec(chain, p, FRESH).st, head) == PageOf(first, head) <==> LeavesPage(first, acts[k + 1..]))
  {
    var acts := Trail(chain, p, FRESH);
    var first := ApplyAll(FRESH, acts[..k + 1]);
    ExecTrail(chain, p, FRESH);
    StartsUnsent(FRESH, acts[..k + 1]);
    StartsUnsent(FRESH, acts[..k]);
    assert acts[..k + 1][k] == acts[k];
    assert acts[..k + 1] + acts[k + 1..] == acts;
    ApplyConcat(FRESH, acts[..k + 1], acts[k + 1..]);
    NoHeaders();
    TableStays(FRESH, acts[..k + 1]);
    hide Exec, Trail, ApplyAll, LeavesPage, TableOk;
    PageStays(first, acts[k + 1..], head);
  }

  /** A handler that sends a text and then redirects. */
  function TextThenRedirect(text: string, location: string): Program {
    Do(Send(text, "text/plain"), Do(Redirect(location, 302), Done))
  }

  /** So the documented rule fails for every text followed by a redirect: the text goes out, but as a 302 that names
      the location. */
  lemma RedirectOverText(text: string, location: string, head: bool)
    requires ValidValue(location)
    ensures var t := WithCharset("text/plain");
      && PageOf(Apply(FRESH, Send(text, "text/plain")), head) == Built(200, t, text, [], head)
      && Exec([], TextThenRedirect(text, location), FRESH).Finished?
      && PageOf(Exec([], TextThenRedirect(text, location), FRESH).st, head) == Built(302, t, text, [Field("Location", location)], head)
  {
    LocationName();
    hide WithCharset, ValidName, ValidValue;
    var sent := Apply(FRESH, Send(text, "text/plain"));
    var p := TextThenRedirect(text, location);
    assert [] + [Field("Location", location)] == [Field("Location", location)];
    assert SetIn([], "Location", location) == [Field("Location", location)];
    assert Exec([], p, FRESH) == Exec([], p.rest, sent);
    assert Exec([], p.rest, sent) == Exec([], p.rest.rest, Apply(sent, p.rest.act));
  }
}
