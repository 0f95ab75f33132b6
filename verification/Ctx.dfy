/** The per-request context (src/ctx.cpp): the response under construction, and handlers as programs over it. */
module Ctx {
  import opened Text

  datatype Field = Field(name: string, value: string)

  const MAX_HEADERS: nat := 16

  // ---- Header validation --------------------------------------------------

  predicate Separator(c: char) { c in "()<>@,;:\\\"/[]?={}" }

  /** A token byte; bytes from 0x80 up are negative as signed chars and fail like control bytes. */
  predicate TokenChar(c: char) { '!' <= c <= '~' && !Separator(c) }

  predicate ValidName(name: string) { name != "" && forall k :: 0 <= k < |name| ==> TokenChar(name[k]) }

  predicate ValueChar(c: char) { c != '\r' && c != '\n' && c != NUL }

  predicate ValidValue(value: string) { forall k :: 0 <= k < |value| ==> ValueChar(value[k]) }

  /** The name as header_name_eq sees it. */
  function Folded(name: string): (r: string)
    ensures |r| == |name| && forall k :: 0 <= k < |r| ==> r[k] == Lower(name[k])
  {
    seq(|name|, i requires 0 <= i < |name| => Lower(name[i]))
  }

  // ---- The response under construction ------------------------------------

  datatype State = State(status: int, sent: bool, prebuilt: Option<string>, headers: seq<Field>,
                         body: string, contentType: string, index: nat)

  const FRESH: State := State(200, false, None, [], "", "", 0)

  /** The first header of that name, whatever its case; the count when there is none. */
  function Find(hs: seq<Field>, name: string): (i: nat)
    ensures i <= |hs|
    ensures i < |hs| ==> Folded(hs[i].name) == Folded(name)
    ensures forall j :: 0 <= j < i ==> Folded(hs[j].name) != Folded(name)
  {
    if hs == [] || Folded(hs[0].name) == Folded(name) then 0 else 1 + Find(hs[1..], name)
  }

  function SetIn(hs: seq<Field>, name: string, value: string): seq<Field> {
    if !ValidName(name) || !ValidValue(value) then hs
    else
      var i := Find(hs, name);
      if i < |hs| then hs[i := Field(hs[i].name, value)]
      else if |hs| < MAX_HEADERS then hs + [Field(name, value)]
      else hs
  }

  /** At most sixteen valid headers, no name twice. */
  predicate TableOk(hs: seq<Field>) {
    && |hs| <= MAX_HEADERS
    && (forall k :: 0 <= k < |hs| ==> ValidName(hs[k].name) && ValidValue(hs[k].value))
    && (forall i, j :: 0 <= i < j < |hs| ==> Folded(hs[i].name) != Folded(hs[j].name))
  }

  /** The table read as a map from case-folded names. */
  function Denoted(hs: seq<Field>): map<string, string> {
    if hs == [] then map[] else Denoted(hs[..|hs| - 1])[Folded(hs[|hs| - 1].name) := hs[|hs| - 1].value]
  }

  lemma {:induction false} DenotedKeys(hs: seq<Field>, key: string)
    ensures key in Denoted(hs) <==> exists k :: 0 <= k < |hs| && Folded(hs[k].name) == key
  {
    if hs != [] {
      var n := |hs| - 1;
      DenotedKeys(hs[..n], key);
      assert forall k :: 0 <= k < n ==> hs[..n][k] == hs[k];
    }
  }

  lemma {:induction false} DenotedUpdate(hs: seq<Field>, i: nat, value: string)
    requires TableOk(hs) && i < |hs|
    ensures Denoted(hs[i := Field(hs[i].name, value)]) == Denoted(hs)[Folded(hs[i].name) := value]
  {
    var n := |hs| - 1;
    var init, gs := hs[..n], hs[i := Field(hs[i].name, value)];
    if i < n {
      DenotedUpdate(init, i, value);
      assert gs[..n] == init[i := Field(init[i].name, value)];
      assert Folded(hs[i].name) != Folded(hs[n].name);
    } else {
      assert gs[..n] == init;
    }
  }

  lemma DenotedAppend(hs: seq<Field>, f: Field)
    ensures Denoted(hs + [f]) == Denoted(hs)[Folded(f.name) := f.value]
  {
    assert (hs + [f])[..|hs|] == hs;
  }

  /** Setting a header keeps the table sound and is a map update on valid input, except that a new name
      is dropped when all sixteen slots are taken. */
  lemma SetIsUpdate(hs: seq<Field>, name: string, value: string)
    requires TableOk(hs)
    ensures TableOk(SetIn(hs, name, value))
    ensures var d := Denoted(hs);
      Denoted(SetIn(hs, name, value)) ==
        if ValidName(name) && ValidValue(value) && (Folded(name) in d || |hs| < MAX_HEADERS)
        then d[Folded(name) := value] else d
  {
    var i := Find(hs, name);
    DenotedKeys(hs, Folded(name));
    hide Denoted, Find, ValidName, ValidValue, Folded;
    SetKeeps(hs, name, value);
    hide TableOk;
    if i < |hs| {
      DenotedUpdate(hs, i, value);
    } else if |hs| < MAX_HEADERS {
      DenotedAppend(hs, Field(name, value));
    }
  }

  /** What setting a valid header does slot by slot: a header of that name, up to case, gets the value where it stands,
      spelled as before; a new one goes behind the others as given, when there is room; no other slot changes. */
  lemma SetInPlace(hs: seq<Field>, name: string, value: string)
    requires TableOk(hs)
    ensures var gs := SetIn(hs, name, value);
      var valid := ValidName(name) && ValidValue(value);
      var there := exists k :: 0 <= k < |hs| && Folded(hs[k].name) == Folded(name);
      && |gs| == |hs| + (if valid && !there && |hs| < 16 then 1 else 0)
      && (|gs| > |hs| ==> gs[|hs|] == Field(name, value))
      && forall k :: 0 <= k < |hs| ==>
           gs[k] == if valid && Folded(hs[k].name) == Folded(name) then Field(hs[k].name, value) else hs[k]
  {
    hide ValidName, ValidValue, Folded, Find;
    var i := Find(hs, name);
    assert i < |hs| ==> forall k :: 0 <= k < |hs| && k != i ==> Folded(hs[k].name) != Folded(name);
  }

  const MARKS: string := "!#$%&'*+-.^_`|~"

  /** The bytes of a token: fifteen marks, digits and letters (section 3.2.6 of RFC 7230). */
  lemma TokenChars(c: char)
    ensures TokenChar(c) <==> c in MARKS || '0' <= c <= '9' || 'A' <= c <= 'Z' || 'a' <= c <= 'z'
  {
    MarksAre(c);
    SeparatorsAre(c);
    hide Separator, MARKS;
  }

  lemma MarksAre(c: char)
    ensures c in MARKS <==>
      c == '!' || '#' <= c <= '\'' || c == '*' || c == '+' || c == '-' || c == '.' || '^' <= c <= '`' || c == '|' || c == '~'
  {
    assert MARKS[1] == '#' && MARKS[2] == '$' && MARKS[3] == '%' && MARKS[4] == '&' && MARKS[5] == '\'';
    assert MARKS[0] == '!' && MARKS[6] == '*' && MARKS[7] == '+' && MARKS[8] == '-' && MARKS[9] == '.';
    assert MARKS[10] == '^' && MARKS[11] == '_' && MARKS[12] == '`' && MARKS[13] == '|' && MARKS[14] == '~';
  }

  lemma SeparatorsAre(c: char)
    ensures Separator(c) <==>
      c == '"' || c == '(' || c == ')' || c == ',' || c == '/' || ':' <= c <= '@' || '[' <= c <= ']' || c == '{' || c == '}'
  {
    var s := "()<>@,;:\\\"/[]?={}";
    assert s[0] == '(' && s[1] == ')' && s[2] == '<' && s[3] == '>' && s[4] == '@' && s[5] == ',' && s[6] == ';' && s[7] == ':';
    assert s[8] == '\\' && s[9] == '"' && s[10] == '/' && s[11] == '[' && s[12] == ']' && s[13] == '?' && s[14] == '=';
    assert s[15] == '{' && s[16] == '}';
  }

  lemma SetKeeps(hs: seq<Field>, name: string, value: string)
    requires TableOk(hs)
    ensures TableOk(SetIn(hs, name, value))
  {
    hide Find, ValidName, ValidValue, Folded;
  }

  // ---- Terminal calls -----------------------------------------------------

  predicate OccursAt(s: string, t: string, k: nat) { k + |t| <= |s| && s[k..k + |t|] == t }

  predicate Contains(s: string, t: string) { exists k :: 0 <= k <= |s| && OccursAt(s, t, k) }

  function WithCharset(contentType: string): string {
    if "text/" <= contentType && !Contains(contentType, "charset") then contentType + "; charset=utf-8" else contentType
  }

  datatype Action =
    | Status(code: int)
    | Set(name: string, value: string)
    | Send(body: string, contentType: string)
    | NoContent
    | Prebuilt(data: string)
    | Redirect(location: string, code: int)

  function SendOn(st: State, body: string, contentType: string): State {
    if st.sent then st
    else st.(body := body, contentType := WithCharset(contentType), sent := true)
  }

  function Apply(st: State, a: Action): State {
    match a
    case Status(code) => st.(status := code)
    case Set(name, value) => st.(headers := SetIn(st.headers, name, value))
    case Send(body, contentType) => SendOn(st, body, contentType)
    case NoContent => if st.sent then st else st.(status := 204, body := "", contentType := "", sent := true)
    case Prebuilt(data) => if st.sent then st else st.(sent := true, prebuilt := Some(data))
    case Redirect(location, code) =>
      SendOn(st.(status := code, headers := SetIn(st.headers, "Location", location)), "", "text/plain")
  }

  // ---- Handlers as programs -----------------------------------------------

  /** A deterministic handler body: actions, tests of the response so far, the rest of the chain, or an exception. */
  datatype Program =
    | Done
    | Throw
    | Do(act: Action, rest: Program)
    | Test(cond: State -> bool, yes: Program, no: Program)
    | Next(rest: Program)

  datatype Outcome = Threw | Finished(st: State)

  /** Runs `p` as part of a chain of handler bodies; `Next` runs the handler at the current index. */
  function Exec(chain: seq<Program>, p: Program, st: State): (r: Outcome)
    ensures r.Finished? ==> r.st.index >= st.index
    decreases if st.index < |chain| then |chain| - st.index else 0, p
  {
    match p
    case Done => Finished(st)
    case Throw => Threw
    case Do(a, rest) => Exec(chain, rest, Apply(st, a))
    case Test(cond, yes, no) => if cond(st) then Exec(chain, yes, st) else Exec(chain, no, st)
    case Next(rest) =>
      if st.index < |chain| then
        match Exec(chain, chain[st.index], st.(index := st.index + 1))
        case Threw => Threw
        case Finished(st') => Exec(chain, rest, st')
      else Exec(chain, rest, st)
  }

  /** What any handler leaves behind: a sound header table, and the first terminal call's body, type and bytes. */
  ghost predicate Extends(before: State, after: State) {
    && (TableOk(before.headers) ==> TableOk(after.headers))
    && Denoted(before.headers).Keys <= Denoted(after.headers).Keys
    && (before.sent ==> after.sent && after.body == before.body && after.contentType == before.contentType
                        && after.prebuilt == before.prebuilt)
  }

  /** For every chain of handlers: headers stay valid, distinct and at most sixteen, none disappears,
      and after a terminal call no later one changes the body. */
  lemma {:induction false} ExecExtends(chain: seq<Program>, p: Program, st: State)
    requires TableOk(st.headers) && Exec(chain, p, st).Finished?
    ensures Extends(st, Exec(chain, p, st).st)
    decreases if st.index < |chain| then |chain| - st.index else 0, p
  {
    match p
    case Done =>
    case Throw =>
    case Do(a, rest) =>
      ApplyExtends(st, a);
      ExecExtends(chain, rest, Apply(st, a));
    case Test(cond, yes, no) =>
      if cond(st) { ExecExtends(chain, yes, st); } else { ExecExtends(chain, no, st); }
    case Next(rest) =>
      if st.index < |chain| {
        var st1 := st.(index := st.index + 1);
        ExecExtends(chain, chain[st.index], st1);
        ExecExtends(chain, rest, Exec(chain, chain[st.index], st1).st);
      } else {
        ExecExtends(chain, rest, st);
      }
  }

  lemma ApplyExtends(st: State, a: Action)
    requires TableOk(st.headers)
    ensures Extends(st, Apply(st, a))
  {
    match a
    case Set(name, value) => SetIsUpdate(st.headers, name, value);
    case Redirect(location, code) => SetIsUpdate(st.headers, "Location", location);
    case _ =>
  }

  predicate TerminalCall(a: Action) { a.Send? || a.NoContent? || a.Prebuilt? || a.Redirect? }

  /** Location cannot change to that value: it has it, the value is invalid, or there is no room for it. */
  predicate LocationStays(hs: seq<Field>, location: string) {
    || !ValidValue(location)
    || (if "location" in Denoted(hs) then Denoted(hs)["location"] == location else |hs| == MAX_HEADERS)
  }

  /** The documentation lets only the first terminal call take effect. A later one does nothing exactly when it is
      no redirect, or a redirect to the status and the Location that are there already. */
  lemma RedirectAfterSend(st: State, a: Action)
    requires TableOk(st.headers) && st.sent && TerminalCall(a)
    ensures Apply(st, a) == st <==> (a.Redirect? ==> a.code == st.status && LocationStays(st.headers, a.location))
    ensures a.Redirect? ==>
      var after := Apply(st, a);
      && after.status == a.code && after.body == st.body && after.contentType == st.contentType
      && (ValidValue(a.location) && |st.headers| < MAX_HEADERS ==> Denoted(after.headers) == Denoted(st.headers)["location" := a.location])
  {
    if a.Redirect? {
      LocationName();
      hide Denoted, SetIn, ValidValue, Folded, ValidName, TableOk;
      LocationSet(st.headers, a.location);
      SetIsUpdate(st.headers, "Location", a.location);
    }
  }

  lemma LocationName()
    ensures ValidName("Location") && Folded("Location") == "location"
  {
  }

  lemma LocationSet(hs: seq<Field>, location: string)
    requires TableOk(hs)
    ensures SetIn(hs, "Location", location) == hs <==> LocationStays(hs, location)
  {
    assert ValidName("Location") && Folded("Location") == "location";
    SetIsUpdate(hs, "Location", location);
    var i := Find(hs, "Location");
    DenotedKeys(hs, "location");
    if i < |hs| { FoundValue(hs, i); }
    hide Denoted, ValidName, ValidValue, Folded;
  }

  /** The table says of each header what its slot says. */
  lemma {:induction false} FoundValue(hs: seq<Field>, i: nat)
    requires TableOk(hs) && i < |hs|
    ensures Folded(hs[i].name) in Denoted(hs) && Denoted(hs)[Folded(hs[i].name)] == hs[i].value
  {
    var n := |hs| - 1;
    if i < n {
      FoundValue(hs[..n], i);
      assert Folded(hs[i].name) != Folded(hs[n].name);
    }
  }

  // ---- The context object -------------------------------------------------

  /** The loop of is_valid_header_name. */
  method CheckName(name: string) returns (ok: bool)
    ensures ok == ValidName(name)
  {
    if name == "" { return false; }
    for k := 0 to |name|
      invariant forall j :: 0 <= j < k ==> TokenChar(name[j])
    {
      if name[k] <= ' ' || name[k] >= '\U{7F}' || Separator(name[k]) { return false; }
    }
    return true;
  }

  /** The loop of is_valid_header_value. */
  method CheckValue(value: string) returns (ok: bool)
    ensures ok == ValidValue(value)
    ensures ok <==> '\r' !in value && '\n' !in value && NUL !in value
  {
    for k := 0 to |value|
      invariant forall j :: 0 <= j < k ==> ValueChar(value[j])
    {
      if value[k] == '\r' || value[k] == '\n' || value[k] == '\0' { return false; }
    }
    return true;
  }

  /** The loop of header_name_eq. */
  method SameName(a: string, b: string) returns (same: bool)
    ensures same == (Folded(a) == Folded(b))
  {
    if |a| != |b| { return false; }
    for k := 0 to |a|
      invariant forall j :: 0 <= j < k ==> Lower(a[j]) == Lower(b[j])
    {
      if Lower(a[k]) != Lower(b[k]) {
        assert Folded(a)[k] != Folded(b)[k];
        return false;
      }
    }
    return true;
  }

  lemma FindIs(hs: seq<Field>, name: string, i: nat)
    requires i <= |hs| && (i < |hs| ==> Folded(hs[i].name) == Folded(name))
    requires forall j :: 0 <= j < i ==> Folded(hs[j].name) != Folded(name)
    ensures Find(hs, name) == i
  {
    var f := Find(hs, name);
    assert f < |hs| ==> Folded(hs[f].name) == Folded(name);
  }

  class Context {
    var statusCode: int
    var responseSent: bool
    var prebuilt: Option<string>
    const respHeaders: array<Field>
    var respCount: nat
    var respBody: string
    var respContentType: string
    var handlerIndex: nat

    ghost predicate Valid()
      reads this
    {
      respHeaders.Length == MAX_HEADERS && respCount <= MAX_HEADERS
    }

    ghost function Now(): State
      reads this, respHeaders
      requires Valid()
    {
      State(statusCode, responseSent, prebuilt, respHeaders[..respCount], respBody, respContentType, handlerIndex)
    }

    constructor ()
      ensures Valid() && fresh(respHeaders) && Now() == FRESH
    {
      statusCode, responseSent, prebuilt := 200, false, None;
      respHeaders := new Field[MAX_HEADERS](_ => Field("", ""));
      respCount, respBody, respContentType, handlerIndex := 0, "", "", 0;
    }

    method SetHeader(name: string, value: string)
      requires Valid()
      modifies this, respHeaders
      ensures Valid() && Now() == old(Now()).(headers := SetIn(old(Now()).headers, name, value))
    {
      var nameOk := CheckName(name);
      var valueOk := CheckValue(value);
      if !nameOk || !valueOk { return; }
      ghost var hs := respHeaders[..respCount];
      for i := 0 to respCount
        invariant unchanged(this) && unchanged(respHeaders)
        invariant forall j :: 0 <= j < i ==> Folded(hs[j].name) != Folded(name)
      {
        var same := SameName(respHeaders[i].name, name);
        if same {
          FindIs(hs, name, i);
          respHeaders[i] := Field(respHeaders[i].name, value);
          assert respHeaders[..respCount] == hs[i := Field(hs[i].name, value)];
          return;
        }
      }
      FindIs(hs, name, respCount);
      if respCount < MAX_HEADERS {
        respHeaders[respCount] := Field(name, value);
        respCount := respCount + 1;
        assert respHeaders[..respCount] == hs + [Field(name, value)];
      }
    }

    method SendBody(body: string, contentType: string)
      requires Valid()
      modifies this
      ensures Valid() && Now() == SendOn(old(Now()), body, contentType)
    {
      if responseSent { return; }
      respBody := body;
      if "text/" <= contentType && !Contains(contentType, "charset") {
        respContentType := contentType + "; charset=utf-8";
      } else {
        respContentType := contentType;
      }
      responseSent := true;
    }

    /** One action of a handler. */
    method Act(a: Action)
      requires Valid()
      modifies this, respHeaders
      ensures Valid() && Now() == Apply(old(Now()), a)
    {
      match a
      case Status(code) =>
        statusCode := code;
      case Set(name, value) =>
        SetHeader(name, value);
      case Send(body, contentType) =>
        SendBody(body, contentType);
      case NoContent =>
        if !responseSent { statusCode, respBody, respContentType, responseSent := 204, "", "", true; }
      case Prebuilt(data) =>
        if !responseSent { responseSent, prebuilt := true, Some(data); }
      case Redirect(location, code) =>
        statusCode := code;
        SetHeader("Location", location);
        SendBody("", "text/plain");
    }

    /** Runs a handler body; `Next` enters the handler at `handlerIndex` after stepping the index. */
    method Perform(chain: seq<Program>, p: Program) returns (threw: bool)
      requires Valid()
      modifies this, respHeaders
      ensures Valid()
      ensures threw == Exec(chain, p, old(Now())).Threw?
      ensures !threw ==> Exec(chain, p, old(Now())) == Finished(Now())
      decreases if handlerIndex < |chain| then |chain| - handlerIndex else 0, p
    {
      match p
      case Done =>
        return false;
      case Throw =>
        return true;
      case Do(a, rest) =>
        Act(a);
        threw := Perform(chain, rest);
      case Test(cond, yes, no) =>
        ghost var st := Now();
        var now := State(statusCode, responseSent, prebuilt, respHeaders[..respCount], respBody, respContentType, handlerIndex);
        if cond(now) { threw := Perform(chain, yes); } else { threw := Perform(chain, no); }
      case Next(rest) =>
        if handlerIndex < |chain| {
          var idx := handlerIndex;
          handlerIndex := handlerIndex + 1;
          threw := Perform(chain, chain[idx]);
          if threw { return true; }
        }
        threw := Perform(chain, rest);
    }
  }
}
