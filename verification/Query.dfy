/** Query parameters (src/ctx.cpp, query): the first field of a name, its value decoded in arena memory. */
module Query {
  import opened Text
  import A = Arena
  import M = Memory
  import U = UrlDecode

  /** A value as the handler gets it; a value that holds "%00" reads as empty. */
  function DecodedOrEmpty(raw: string): string {
    match U.Decoded(raw) case None => "" case Some(v) => v
  }

  /** What query answers: the first field of that name decides. */
  function QueryValue(qs: string, name: string): string
    decreases |qs|
  {
    if qs == "" then ""
    else
      var amp := IndexOf(qs, '&', 0);
      var pair := qs[..amp];
      var eq := IndexOf(pair, '=', 0);
      if pair[..eq] == name then if eq == |pair| then "" else DecodedOrEmpty(pair[eq + 1..])
      else QueryValue(if amp < |qs| then qs[amp + 1..] else "", name)
  }

  /** Copies the raw value into the arena and decodes it there; the request itself stays as it is. */
  method DecodeCopy(a: A.Arena, raw: string) returns (v: string)
    requires a.Valid()
    modifies a, a.main
    ensures a.Valid() && v == DecodedOrEmpty(raw)
  {
    hide A.Arena.Valid, U.Decoded, U.Overwritten;
    var r := a.Alloc(|raw|, 1);
    var q := M.Put(r.mem, r.start, raw);
    var n, nul := U.DecodeInPlace(r.mem, r.start, |raw|);
    v := r.mem[r.start..r.start + n];
  }

  method Query(a: A.Arena, query: string, name: string) returns (v: string)
    requires a.Valid()
    modifies a, a.main
    ensures a.Valid() && v == QueryValue(query, name)
  {
    hide A.Arena.Valid, QueryValue, DecodedOrEmpty;
    var qs := query;
    QueryEnds(name);
    while qs != ""
      invariant a.Valid() && QueryValue(query, name) == QueryValue(qs, name)
      decreases |qs|
    {
      QueryStep(qs, name);
      var amp := IndexOf(qs, '&', 0);
      var pair := qs[..amp];
      var eq := IndexOf(pair, '=', 0);
      if pair[..eq] == name {
        if eq == |pair| { return ""; }
        var raw := pair[eq + 1..];
        if raw == "" { return raw; }
        v := DecodeCopy(a, raw);
        return v;
      }
      qs := if amp < |qs| then qs[amp + 1..] else "";
    }
    return "";
  }

  lemma QueryEnds(name: string)
    ensures QueryValue("", name) == "" && DecodedOrEmpty("") == ""
  {
  }

  lemma QueryStep(qs: string, name: string)
    requires qs != ""
    ensures var amp := IndexOf(qs, '&', 0);
      var pair := qs[..amp];
      var eq := IndexOf(pair, '=', 0);
      QueryValue(qs, name) ==
        if pair[..eq] == name then if eq == |pair| then "" else DecodedOrEmpty(pair[eq + 1..])
        else QueryValue(if amp < |qs| then qs[amp + 1..] else "", name)
  {
    hide IndexOf, DecodedOrEmpty;
  }

  // ---- Reading back what a client wrote -----------------------------------

  datatype Pair = Pair(key: string, text: string)

  /** A form of the text that decodes to it and holds no '&'. */
  function Written(text: string, safe: set<char>): string
    requires forall k :: 0 <= k < |text| ==> text[k] as int < 256
  {
    U.Flatten(U.Encode(text, safe))
  }

  predicate Bytes(s: string) { forall k :: 0 <= k < |s| ==> s[k] as int < 256 }

  predicate Fields(ps: seq<Pair>) {
    forall k :: 0 <= k < |ps| ==> '&' !in ps[k].key && '=' !in ps[k].key && Bytes(ps[k].text) && NUL !in ps[k].text
  }

  /** A query string: key, '=', percent-encoded text, joined by '&'. */
  function Form(ps: seq<Pair>, safe: set<char>): string
    requires Fields(ps)
  {
    if ps == [] then ""
    else ps[0].key + "=" + Written(ps[0].text, safe) + (if |ps| == 1 then "" else "&" + Form(ps[1..], safe))
  }

  lemma {:induction false} NoAmpersand(text: string, safe: set<char>)
    requires Bytes(text) && '&' !in safe
    ensures '&' !in Written(text, safe)
  {
    if text != "" {
      var es := U.Encode(text, safe);
      assert es[1..] == U.Encode(text[1..], safe);
      assert Bytes(text[1..]);
      NoAmpersand(text[1..], safe);
      assert es[0] == if text[0] in safe then [text[0]] else U.EscapeOf(text[0]);
      assert '&' !in es[0] by { NotHex(text[0]); }
    }
  }

  lemma NotHex(c: char)
    requires c as int < 256
    ensures '&' !in U.EscapeOf(c)
  {
  }

  /** The first field of a query string, taken apart. */
  lemma FirstField(key: string, value: string, rest: string)
    requires '&' !in key && '=' !in key && '&' !in value && (rest != "" ==> rest[0] == '&')
    ensures var qs := key + "=" + value + rest;
      var amp := IndexOf(qs, '&', 0);
      && qs != "" && amp == |key| + 1 + |value| && |qs[..amp]| == amp
      && IndexOf(qs[..amp], '=', 0) == |key| && qs[..amp][..|key|] == key && qs[..amp][|key| + 1..] == value
      && (if amp < |qs| then qs[amp + 1..] else "") == if rest == "" then "" else rest[1..]
  {
    var qs := key + "=" + value + rest;
    var n := |key| + 1 + |value|;
    assert qs[..n] == key + "=" + value && qs[n..] == rest;
    assert forall k :: 0 <= k < n ==> qs[k] == (key + "=" + value)[k];
    assert forall k :: 0 <= k < n ==> qs[k] != '&';
    assert rest != "" ==> qs[n] == '&';
    assert rest != "" ==> qs[n + 1..] == rest[1..];
    assert forall k :: 0 <= k < |key| ==> qs[..n][k] == key[k];
    assert qs[..n][|key|] == '=';
  }

  lemma ReadFirst(key: string, value: string, rest: string, name: string)
    requires '&' !in key && '=' !in key && '&' !in value && (rest != "" ==> rest[0] == '&')
    ensures QueryValue(key + "=" + value + rest, name) ==
      if key == name then DecodedOrEmpty(value) else QueryValue(if rest == "" then "" else rest[1..], name)
  {
    hide *;
    FirstField(key, value, rest);
    var qs := key + "=" + value + rest;
    var amp := IndexOf(qs, '&', 0);
    FieldStep(qs, name, qs[..amp], |key|, if amp < |qs| then qs[amp + 1..] else "");
  }

  /** One step, with the first field and what is behind it at hand. */
  lemma FieldStep(qs: string, name: string, pair: string, eq: nat, next: string)
    requires qs != "" && pair == qs[..IndexOf(qs, '&', 0)] && eq == IndexOf(pair, '=', 0) < |pair|
    requires next == var amp := IndexOf(qs, '&', 0); if amp < |qs| then qs[amp + 1..] else ""
    ensures QueryValue(qs, name) == if pair[..eq] == name then DecodedOrEmpty(pair[eq + 1..]) else QueryValue(next, name)
  {
    hide *;
    QueryStep(qs, name);
  }

  /** The key of field `k` occurs in no field before it. */
  predicate FirstOfKey(ps: seq<Pair>, k: nat) {
    k < |ps| && forall j :: 0 <= j < k ==> ps[j].key != ps[k].key
  }

  lemma FirstOfKeyTail(ps: seq<Pair>, k: nat)
    requires FirstOfKey(ps, k)
    ensures k < |ps|
    ensures k > 0 ==> |ps| > 1 && FirstOfKey(ps[1..], k - 1) && ps[1..][k - 1] == ps[k] && ps[0].key != ps[k].key
  {
  }

  /** Every field of a form whose encoding escapes at least '%', '+' and '&' is read back, the first of its name. */
  lemma {:induction false} FormReadBack(ps: seq<Pair>, safe: set<char>, k: nat)
    requires Fields(ps) && '&' !in safe && '%' !in safe && '+' !in safe && FirstOfKey(ps, k)
    ensures QueryValue(Form(ps, safe), ps[k].key) == ps[k].text
  {
    hide *;
    FirstOfKeyTail(ps, k);
    FormParts(ps, safe, ps[k].key);
    if k > 0 { FormReadBack(ps[1..], safe, k - 1); }
  }

  /** Reading a form looks at its first field, then at the others. */
  lemma FormParts(ps: seq<Pair>, safe: set<char>, name: string)
    requires Fields(ps) && '&' !in safe && '%' !in safe && '+' !in safe && ps != []
    ensures Fields(ps[1..])
    ensures QueryValue(Form(ps, safe), name) ==
      if ps[0].key == name then ps[0].text else if |ps| == 1 then "" else QueryValue(Form(ps[1..], safe), name)
  {
    var p := ps[0];
    var rest := if |ps| == 1 then "" else "&" + Form(ps[1..], safe);
    assert Form(ps, safe) == p.key + "=" + Written(p.text, safe) + rest;
    assert rest != "" ==> rest[1..] == Form(ps[1..], safe);
    U.RoundTrip(p.text, safe);
    NoAmpersand(p.text, safe);
    hide U.Decoded, U.Flatten, U.Encode, Form, QueryValue, Written;
    ReadFirst(p.key, Written(p.text, safe), rest, name);
    QueryEnds(name);
  }

  // ---- Any query string ---------------------------------------------------

  /** A field as it stands between two '&': a key alone, or key, '=' and a raw value. */
  datatype Part = Bare(key: string) | Valued(key: string, raw: string)

  predicate PartOk(p: Part) {
    '&' !in p.key && '=' !in p.key && (p.Valued? ==> '&' !in p.raw)
  }

  predicate AllParts(ps: seq<Part>) { forall k :: 0 <= k < |ps| ==> PartOk(ps[k]) }

  function PartText(p: Part): string { match p case Bare(key) => key case Valued(key, raw) => key + "=" + raw }

  function Joined(ps: seq<Part>): string {
    if ps == [] then "" else if |ps| == 1 then PartText(ps[0]) else PartText(ps[0]) + "&" + Joined(ps[1..])
  }

  /** Every query string is such a list of fields. */
  lemma {:induction false} PartsOf(qs: string) returns (ps: seq<Part>)
    ensures ps != [] && AllParts(ps) && Joined(ps) == qs
    decreases |qs|
  {
    hide *;
    var amp := IndexOf(qs, '&', 0);
    var pair := qs[..amp];
    var eq := IndexOf(pair, '=', 0);
    var p := if eq == |pair| then Bare(pair) else Valued(pair[..eq], pair[eq + 1..]);
    OnePart(qs, p);
    if amp == |qs| {
      assert pair == qs;
      ps := [p];
      JoinedOne(p);
    } else {
      var rest := PartsOf(qs[amp + 1..]);
      ps := [p] + rest;
      JoinedMore(p, rest);
      AmpParts(qs, amp);
    }
  }

  lemma AmpParts(qs: string, amp: nat)
    requires amp < |qs| && qs[amp] == '&'
    ensures qs == qs[..amp] + "&" + qs[amp + 1..]
  {
  }

  lemma JoinedOne(p: Part)
    requires PartOk(p)
    ensures AllParts([p]) && Joined([p]) == PartText(p)
  {
  }

  lemma JoinedMore(p: Part, rest: seq<Part>)
    requires PartOk(p) && AllParts(rest) && rest != []
    ensures AllParts([p] + rest) && Joined([p] + rest) == PartText(p) + "&" + Joined(rest)
  {
    hide PartOk, PartText;
    assert ([p] + rest)[1..] == rest;
  }

  lemma OnePart(qs: string, p: Part)
    requires var pair := qs[..IndexOf(qs, '&', 0)];
      var eq := IndexOf(pair, '=', 0);
      p == if eq == |pair| then Bare(pair) else Valued(pair[..eq], pair[eq + 1..])
    ensures PartOk(p) && PartText(p) == qs[..IndexOf(qs, '&', 0)]
  {
    var pair := qs[..IndexOf(qs, '&', 0)];
    assert forall k :: 0 <= k < |pair| ==> pair[k] == qs[k] != '&';
    hide IndexOf;
  }

  function PartValue(p: Part): string {
    match p
    case Bare(_) => ""
    case Valued(_, raw) => match U.Decoded(raw) case None => "" case Some(v) => v
  }

  /** The first field decides, or is passed over. */
  lemma PartStep(p: Part, rest: string, name: string)
    requires PartOk(p) && (rest != "" ==> rest[0] == '&')
    ensures QueryValue(PartText(p) + rest, name) ==
      if p.key == name then PartValue(p) else QueryValue(if rest == "" then "" else rest[1..], name)
  {
    hide U.Decoded, QueryValue;
    match p
    case Valued(key, raw) => ReadFirst(key, raw, rest, name);
    case Bare(key) =>
      QueryEnds(name);
      if key + rest == "" { assert key == "" && rest == ""; } else { BareStep(key, rest, name); }
  }

  lemma BareStep(key: string, rest: string, name: string)
    requires '&' !in key && '=' !in key && (rest != "" ==> rest[0] == '&') && key + rest != ""
    ensures QueryValue(key + rest, name) == if key == name then "" else QueryValue(if rest == "" then "" else rest[1..], name)
  {
    var qs := key + rest;
    var n := |key|;
    assert qs[..n] == key && qs[n..] == rest && forall k :: 0 <= k < n ==> qs[k] == key[k];
    assert rest != "" ==> qs[n] == '&' && qs[n + 1..] == rest[1..];
    hide *;
    NoneIn(qs, n);
    NoneOf(key);
    QueryStep(qs, name);
    assert key[..|key|] == key;
  }

  lemma NoneIn(qs: string, n: nat)
    requires n <= |qs| && (n < |qs| ==> qs[n] == '&') && forall k :: 0 <= k < n ==> qs[k] != '&'
    ensures IndexOf(qs, '&', 0) == n
  {
    hide *;
  }

  lemma NoneOf(key: string)
    requires '=' !in key
    ensures IndexOf(key, '=', 0) == |key|
  {
    hide *;
  }

  /** What query answers for any query string: nothing when no field has that key; otherwise the value of the first one
      that does, decoded, and empty when it has no '=' or cannot be decoded. */
  lemma {:induction false} QueryExactly(ps: seq<Part>, name: string)
    requires AllParts(ps)
    ensures (forall k :: 0 <= k < |ps| ==> ps[k].key != name) ==> QueryValue(Joined(ps), name) == ""
    ensures forall k :: 0 <= k < |ps| && ps[k].key == name && (forall j :: 0 <= j < k ==> ps[j].key != name) ==>
      QueryValue(Joined(ps), name) == PartValue(ps[k])
  {
    hide *;
    QueryEnds(name);
    if ps == [] {
      NothingJoined();
    } else {
      var rest := ps[1..];
      QueryExactly(rest, name) by { PartsTail(ps); }
      FirstPart(ps, name);
      forall k | 0 <= k < |ps| && ps[k].key == name && forall j :: 0 <= j < k ==> ps[j].key != name
        ensures QueryValue(Joined(ps), name) == PartValue(ps[k])
      {
        if k > 0 {
          assert ps[0].key != name && rest[k - 1] == ps[k];
          assert forall j :: 0 <= j < k - 1 ==> rest[j] == ps[j + 1];
        }
      }
      if forall k :: 0 <= k < |ps| ==> ps[k].key != name {
        assert ps[0].key != name && forall k :: 0 <= k < |rest| ==> rest[k] == ps[k + 1];
      }
    }
  }

  lemma NothingJoined()
    ensures Joined([]) == ""
  {
  }

  lemma PartsTail(ps: seq<Part>)
    requires AllParts(ps) && ps != []
    ensures AllParts(ps[1..])
  {
    hide PartOk;
  }

  /** The first of the fields decides, or the others do. */
  lemma FirstPart(ps: seq<Part>, name: string)
    requires AllParts(ps) && ps != []
    ensures QueryValue(Joined(ps), name) == if ps[0].key == name then PartValue(ps[0]) else QueryValue(Joined(ps[1..]), name)
  {
    hide QueryValue, PartValue, PartText, PartOk;
    if |ps| == 1 {
      PartStep(ps[0], "", name);
      assert PartText(ps[0]) + "" == PartText(ps[0]);
    } else {
      var tail := "&" + Joined(ps[1..]);
      PartStep(ps[0], tail, name);
      assert tail[1..] == Joined(ps[1..]);
      Assoc(PartText(ps[0]), "&", Joined(ps[1..]));
    }
  }
}
