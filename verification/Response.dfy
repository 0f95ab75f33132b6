/** Response bytes (src/event_loop.cpp, build_response and send_error_response): an exact size, a
    printer through a moving pointer, and a reference reader that undoes it. */
module Response {
  import opened Text
  import opened Decimal
  import opened Ctx
  import M = Memory

  const CRLF: string := "\r\n"

  function StatusText(code: int): string {
    match code
    case 200 => "OK"
    case 201 => "Created"
    case 204 => "No Content"
    case 301 => "Moved Permanently"
    case 302 => "Found"
    case 304 => "Not Modified"
    case 400 => "Bad Request"
    case 401 => "Unauthorized"
    case 403 => "Forbidden"
    case 404 => "Not Found"
    case 405 => "Method Not Allowed"
    case 413 => "Payload Too Large"
    case 431 => "Request Header Fields Too Large"
    case 500 => "Internal Server Error"
    case 501 => "Not Implemented"
    case _ => "OK"
  }

  /** What build_response prints: the finished context, the close decision and whether the body is left out. */
  datatype Reply = Reply(code: int, contentType: string, body: string, headers: seq<Field>, head: bool, close: bool)

  predicate ThreeDigit(code: int) { 100 <= code <= 999 }

  // ---- The printed form ---------------------------------------------------

  function FieldLine(f: Field): string { f.name + ": " + f.value + CRLF }

  function Lines(fs: seq<Field>): string { if fs == [] then "" else FieldLine(fs[0]) + Lines(fs[1..]) }

  /** The header lines build_response writes itself. */
  function OwnFields(r: Reply, date: string): seq<Field> {
    (if r.contentType != "" then [Field("Content-Type", r.contentType)] else []) +
    (if r.code != 204 then [Field("Content-Length", Digits(|r.body|))] else []) +
    [Field("Connection", if r.close then "close" else "keep-alive")] +
    [Field("Date", date)]
  }

  /** Every header line of the response, in order. */
  function Fields(r: Reply, date: string): seq<Field> { OwnFields(r, date) + r.headers }

  function StatusLine(code: int): string { "HTTP/1.1 " + IntDigits(code) + " " + StatusText(code) + CRLF }

  function PrintedBody(r: Reply): string { if r.head then "" else r.body }

  function Print(r: Reply, date: string): string {
    StatusLine(r.code) + Lines(Fields(r, date)) + CRLF + PrintedBody(r)
  }

  // ---- The precomputed size -----------------------------------------------

  function HeaderBytes(hs: seq<Field>): nat {
    if hs == [] then 0 else HeaderBytes(hs[..|hs| - 1]) + |hs[|hs| - 1].name| + 2 + |hs[|hs| - 1].value| + 2
  }

  /** The arithmetic of build_response, which counts three bytes for the status code. */
  function ExactSize(r: Reply, date: string): nat {
    9 + 3 + 1 + |StatusText(r.code)| + 2
    + (if r.contentType != "" then 14 + |r.contentType| + 2 else 0)
    + (if r.code != 204 then 16 + |Digits(|r.body|)| + 2 else 0)
    + (if r.close then 19 else 24)
    + (6 + |date| + 2)
    + HeaderBytes(r.headers)
    + 2
    + (if r.head then 0 else |r.body|)
  }

  lemma {:induction false} LinesConcat(a: seq<Field>, b: seq<Field>)
    ensures Lines(a + b) == Lines(a) + Lines(b)
  {
    if a == [] {
      assert a + b == b;
    } else {
      assert (a + b)[1..] == a[1..] + b;
      LinesConcat(a[1..], b);
      Assoc(FieldLine(a[0]), Lines(a[1..]), Lines(b));
    }
  }

  lemma LinesOne(f: Field)
    ensures Lines([f]) == FieldLine(f)
  {
    assert [f][1..] == [];
    assert FieldLine(f) + "" == FieldLine(f);
  }

  lemma {:induction false} HeaderBytesAre(hs: seq<Field>)
    ensures HeaderBytes(hs) == |Lines(hs)|
  {
    if hs != [] {
      var n := |hs| - 1;
      HeaderBytesAre(hs[..n]);
      assert hs == hs[..n] + [hs[n]];
      LinesConcat(hs[..n], [hs[n]]);
      LinesOne(hs[n]);
    }
  }

  /** The five groups of lines, one after the other: what the printer writes piece by piece. */
  lemma PrintPieces(r: Reply, date: string)
    ensures Lines(Fields(r, date)) ==
      (if r.contentType != "" then FieldLine(Field("Content-Type", r.contentType)) else "") +
      (if r.code != 204 then FieldLine(Field("Content-Length", Digits(|r.body|))) else "") +
      FieldLine(Field("Connection", if r.close then "close" else "keep-alive")) +
      FieldLine(Field("Date", date)) + Lines(r.headers)
  {
    var a := if r.contentType != "" then [Field("Content-Type", r.contentType)] else [];
    var b := if r.code != 204 then [Field("Content-Length", Digits(|r.body|))] else [];
    var c := [Field("Connection", if r.close then "close" else "keep-alive")];
    var d := [Field("Date", date)];
    LinesConcat(a + b + c + d, r.headers);
    LinesConcat(a + b + c, d);
    LinesConcat(a + b, c);
    LinesConcat(a, b);
    LinesOne(c[0]);
    LinesOne(d[0]);
    if a != [] { LinesOne(a[0]); }
    if b != [] { LinesOne(b[0]); }
  }

  /** The size is exact precisely for status codes that print in three bytes. */
  lemma SizeIsExact(r: Reply, date: string)
    ensures ExactSize(r, date) == |Print(r, date)| <==> |IntDigits(r.code)| == 3
    ensures ExactSize(r, date) - |Print(r, date)| == 3 - |IntDigits(r.code)|
  {
    PrintPieces(r, date);
    HeaderBytesAre(r.headers);
    hide IntDigits, Digits, StatusText, Lines, Fields, HeaderBytes;
  }

  lemma ThreeDigits(code: int)
    requires ThreeDigit(code)
    ensures IntDigits(code) == [DigitChar(code / 100), DigitChar(code / 10 % 10), DigitChar(code % 10)]
  {
    assert Digits(code / 10) == [DigitChar(code / 100)] + [DigitChar(code / 10 % 10)];
  }

  lemma ThreeBytesMeans(code: int)
    ensures |IntDigits(code)| == 3 <==> ThreeDigit(code) || -99 <= code <= -10
  {
    hide Digits;
    if code < 0 { TwoOf(-code); } else { ThreeOf(code); }
  }

  lemma DigitsStep(n: nat)
    ensures |Digits(n)| == if n < 10 then 1 else 1 + |Digits(n / 10)|
  {
  }

  lemma TwoOf(n: nat)
    ensures |Digits(n)| == 2 <==> 10 <= n < 100
  {
    hide Digits;
    DigitsStep(n);
    if n >= 10 { DigitsStep(n / 10); }
  }

  lemma ThreeOf(n: nat)
    ensures |Digits(n)| == 3 <==> 100 <= n < 1000
  {
    hide Digits;
    DigitsStep(n);
    if n >= 10 { TwoOf(n / 10); }
  }

  // ---- A reference reader (section 3 of RFC 7230) --------------------------

  /** Where the first line of `s` ends; the length when there is no CRLF. */
  function LineEnd(s: string): (k: nat)
    ensures k <= |s|
  {
    if |s| < 2 then |s| else if s[0] == '\r' && s[1] == '\n' then 0 else 1 + LineEnd(s[1..])
  }

  /** Splits a header line at its first ':'; one blank in front of the value is optional. */
  function ReadField(line: string): Option<Field> {
    var c := IndexOf(line, ':', 0);
    if c == 0 || c == |line| then None
    else
      var v := line[c + 1..];
      Some(Field(line[..c], if v != "" && v[0] == ' ' then v[1..] else v))
  }

  datatype Block = Block(fields: seq<Field>, rest: string)

  /** Header lines up to the empty line. */
  function ReadFields(s: string): Option<Block>
    decreases |s|
  {
    var k := LineEnd(s);
    if k + 2 > |s| then None
    else if k == 0 then Some(Block([], s[2..]))
    else match ReadField(s[..k])
      case None => None
      case Some(f) =>
        match ReadFields(s[k + 2..])
        case None => None
        case Some(b) => Some(Block([f] + b.fields, b.rest))
  }

  /** The status code of a status line. */
  function ReadStatus(line: string): Option<nat> {
    if |line| >= 13 && line[..9] == "HTTP/1.1 " && AllDigits(line[9..12]) && line[12] == ' '
    then Some(Value(line[9..12])) else None
  }

  /** What the Content-Length fields of a message say together. */
  datatype Lengths = NoLength | OneLength(n: nat) | BadLength

  predicate IsLength(f: Field) { Folded(f.name) == "content-length" }

  predicate IsCoding(f: Field) { Folded(f.name) == "transfer-encoding" }

  function LengthsIn(fs: seq<Field>): Lengths {
    if fs == [] then NoLength
    else
      var rest := LengthsIn(fs[1..]);
      if !IsLength(fs[0]) then rest
      else
        match ParsedLength(fs[0].value)
        case None => BadLength
        case Some(n) => if rest == NoLength || rest == OneLength(n) then OneLength(n) else BadLength
  }

  /** The message ends at its blank line, whatever its fields say: an answer to HEAD, 1xx, 204 and 304. */
  predicate Bodiless(code: int, asked: bool) { asked || 100 <= code < 200 || code == 204 || code == 304 }

  datatype Message = Message(code: nat, fields: seq<Field>, body: string, rest: string)

  /** The body of a message whose head has been read (section 3.3.3 of RFC 7230); `asked` says that the request
      was HEAD. A coding this reader does not know and lengths in conflict are refused. */
  function ReadBody(code: nat, b: Block, asked: bool): Option<Message> {
    if Bodiless(code, asked) then Some(Message(code, b.fields, "", b.rest))
    else if exists k :: 0 <= k < |b.fields| && IsCoding(b.fields[k]) then None
    else
      match LengthsIn(b.fields)
      case BadLength => None
      case NoLength => Some(Message(code, b.fields, b.rest, ""))
      case OneLength(n) => if n > |b.rest| then None else Some(Message(code, b.fields, b.rest[..n], b.rest[n..]))
  }

  /** Reads one response off a stream. */
  function ReadMessage(s: string, asked: bool): Option<Message> {
    var k := LineEnd(s);
    if k + 2 > |s| then None
    else match ReadStatus(s[..k])
      case None => None
      case Some(code) =>
        match ReadFields(s[k + 2..])
        case None => None
        case Some(b) => ReadBody(code, b, asked)
  }

  predicate LineText(s: string) { '\r' !in s && '\n' !in s }

  /** A field that survives being printed: a name the reader can cut off, a one-line value. */
  predicate Readable(f: Field) { f.name != "" && ':' !in f.name && LineText(f.name) && LineText(f.value) }

  lemma {:induction false} LineEndIs(a: string, more: string)
    requires LineText(a)
    ensures LineEnd(a + CRLF + more) == |a|
  {
    if a == "" {
      assert a + CRLF + more == CRLF + more;
    } else {
      var s := a + CRLF + more;
      assert s[1..] == a[1..] + CRLF + more;
      assert s[0] == a[0];
      LineEndIs(a[1..], more);
    }
  }

  lemma LineSplit(a: string, more: string)
    requires LineText(a)
    ensures var s := a + CRLF + more;
      LineEnd(s) == |a| && |a| + 2 <= |s| && s[..|a|] == a && s[|a| + 2..] == more
  {
    LineEndIs(a, more);
  }

  lemma FieldRead(f: Field)
    requires Readable(f)
    ensures ReadField(f.name + ": " + f.value) == Some(f)
  {
    ColonAt(f.name, " " + f.value);
    var line := f.name + ": " + f.value;
    assert line == f.name + ":" + (" " + f.value);
    assert line[|f.name| + 1..] == " " + f.value;
    assert (" " + f.value)[1..] == f.value;
  }

  lemma ColonAt(name: string, rest: string)
    requires ':' !in name
    ensures var line := name + ":" + rest; IndexOf(line, ':', 0) == |name| && line[..|name|] == name && line[|name| + 1..] == rest
  {
    var line := name + ":" + rest;
    assert line[|name|] == ':' && forall k :: 0 <= k < |name| ==> line[k] == name[k];
  }

  /** One printed line in front of a block is one field in front of what is read. */
  lemma FieldFirst(line: string, f: Field, more: string)
    requires line != "" && LineText(line) && ReadField(line) == Some(f)
    ensures ReadFields(line + CRLF + more) ==
      match ReadFields(more) case None => None case Some(b) => Some(Block([f] + b.fields, b.rest))
  {
    LineSplit(line, more);
  }

  predicate AllReadable(fs: seq<Field>) { forall k :: 0 <= k < |fs| ==> Readable(fs[k]) }

  lemma LinesFirst(fs: seq<Field>, more: string)
    requires fs != []
    ensures Lines(fs) + CRLF + more == (fs[0].name + ": " + fs[0].value) + CRLF + (Lines(fs[1..]) + CRLF + more)
  {
    var line := fs[0].name + ": " + fs[0].value;
    var rest := Lines(fs[1..]);
    assert Lines(fs) == line + CRLF + rest;
    Assoc(line + CRLF, rest, CRLF);
    Assoc(line + CRLF, rest + CRLF, more);
  }

  lemma {:induction false} FieldsRead(fs: seq<Field>, more: string)
    requires AllReadable(fs)
    ensures ReadFields(Lines(fs) + CRLF + more) == Some(Block(fs, more))
  {
    if fs == [] {
      assert Lines(fs) + CRLF + more == "" + CRLF + more;
      LineSplit("", more);
    } else {
      var f := fs[0];
      var line := f.name + ": " + f.value;
      assert Readable(f) && AllReadable(fs[1..]);
      LineOf(f);
      hide *;
      FieldsRead(fs[1..], more);
      FieldRead(f);
      FieldFirst(line, f, Lines(fs[1..]) + CRLF + more);
      LinesFirst(fs, more);
      HeadTail(fs);
    }
  }

  lemma LineOf(f: Field)
    requires Readable(f)
    ensures f.name + ": " + f.value != "" && LineText(f.name + ": " + f.value)
  {
  }

  lemma StatusLineRead(code: int, text: string)
    requires ThreeDigit(code) && LineText(text)
    ensures var line := "HTTP/1.1 " + IntDigits(code) + " " + text; LineText(line) && ReadStatus(line) == Some(code)
  {
    ThreeDigits(code);
    ValueOfDigits(code);
    var d := IntDigits(code);
    assert |d| == 3 && AllDigits(d) && Value(d) == code && LineText(d);
    hide IntDigits, Value;
    var line := "HTTP/1.1 " + d + " " + text;
    assert line[..9] == "HTTP/1.1 ";
    assert line[9..12] == d;
  }

  lemma StatusTextIsLine(code: int)
    ensures LineText(StatusText(code)) && LineText(ErrorText(code))
  {
    ShortTexts();
    MediumTexts();
    LongTexts();
    LongerTexts();
    LongestText();
    LongestText2();
    hide LineText;
  }

  lemma ShortTexts()
    ensures LineText("OK") && LineText("Created") && LineText("Found") && LineText("Error")
  {
  }

  lemma MediumTexts()
    ensures LineText("No Content") && LineText("Forbidden") && LineText("Not Found") && LineText("Bad Request")
  {
  }

  lemma LongTexts()
    ensures LineText("Not Modified") && LineText("Unauthorized") && LineText("Not Implemented")
  {
  }

  lemma LongerTexts()
    ensures LineText("Moved Permanently") && LineText("Payload Too Large")
  {
  }

  lemma LongestText()
    ensures LineText("Method Not Allowed") && LineText("Internal Server Error")
  {
  }

  lemma LongestText2()
    ensures LineText("Request Header Fields Too Large")
  {
    assert LineText("Request Header ") && LineText("Fields Too Large");
    assert "Request Header Fields Too Large" == "Request Header " + "Fields Too Large";
  }

  lemma DigitsReadable(n: nat)
    ensures LineText(Digits(n))
  {
    assert forall k :: 0 <= k < |Digits(n)| ==> IsDigit(Digits(n)[k]);
  }

  lemma ReadableConcat(a: seq<Field>, b: seq<Field>)
    requires AllReadable(a) && AllReadable(b)
    ensures AllReadable(a + b)
  {
  }

  lemma LiteralFields(contentType: string, n: nat, connection: string, date: string)
    requires LineText(contentType) && LineText(connection) && LineText(date)
    ensures Readable(Field("Content-Type", contentType)) && Readable(Field("Content-Length", Digits(n)))
    ensures Readable(Field("Connection", connection)) && Readable(Field("Date", date))
  {
    DigitsReadable(n);
    LongNames();
    ShortNames();
    hide LineText, Digits;
  }

  lemma LongNames()
    ensures LineText("Content-Type") && ':' !in "Content-Type" && LineText("Content-Length") && ':' !in "Content-Length"
  {
  }

  lemma ShortNames()
    ensures LineText("Connection") && ':' !in "Connection" && LineText("Date") && ':' !in "Date"
  {
  }

  /** The fields a reply prints can all be read back. */
  lemma FieldsReadable(r: Reply, date: string)
    requires LineText(r.contentType) && LineText(date) && TableOk(r.headers)
    ensures AllReadable(Fields(r, date))
  {
    var connection := if r.close then "close" else "keep-alive";
    assert LineText("close") && LineText("keep-alive");
    LiteralFields(r.contentType, |r.body|, connection, date);
    forall k | 0 <= k < |r.headers| ensures Readable(r.headers[k]) { ValidIsReadable(r.headers[k]); }
    hide Readable, Digits, LineText;
    var a := if r.contentType != "" then [Field("Content-Type", r.contentType)] else [];
    var b := if r.code != 204 then [Field("Content-Length", Digits(|r.body|))] else [];
    var c := [Field("Connection", connection)];
    var d := [Field("Date", date)];
    ReadableConcat(a, b);
    ReadableConcat(a + b, c);
    ReadableConcat(a + b + c, d);
    ReadableConcat(a + b + c + d, r.headers);
  }

  lemma ValidIsReadable(f: Field)
    requires ValidName(f.name) && ValidValue(f.value)
    ensures Readable(f)
  {
    assert forall k :: 0 <= k < |f.name| ==> TokenChar(f.name[k]);
    assert forall k :: 0 <= k < |f.value| ==> ValueChar(f.value[k]);
  }

  /** Every Content-Length field says `n`. */
  predicate AllSay(fs: seq<Field>, n: nat) {
    forall k :: 0 <= k < |fs| && IsLength(fs[k]) ==> ParsedLength(fs[k].value) == Some(n)
  }

  /** The fields give one length exactly when there is a Content-Length and all of them say it. */
  lemma {:induction false} LengthsAre(fs: seq<Field>, n: nat)
    ensures LengthsIn(fs) == OneLength(n) <==> AllSay(fs, n) && exists k :: 0 <= k < |fs| && IsLength(fs[k])
    ensures LengthsIn(fs) == NoLength <==> forall k :: 0 <= k < |fs| ==> !IsLength(fs[k])
  {
    if fs != [] {
      var rest := fs[1..];
      LengthsAre(rest, n);
      hide IsLength, ParsedLength;
      assert forall k :: 0 <= k < |rest| ==> rest[k] == fs[k + 1];
      assert forall k :: 0 < k < |fs| ==> fs[k] == rest[k - 1];
    }
  }

  /** A custom header that leaves the framing alone: no coding, and no length but `n`. */
  predicate Harmless(f: Field, n: nat) { !IsCoding(f) && (IsLength(f) ==> ParsedLength(f.value) == Some(n)) }

  predicate AllHarmless(fs: seq<Field>, n: nat) { forall k :: 0 <= k < |fs| ==> Harmless(fs[k], n) }

  /** The printed response ends where a reader takes it to end. */
  predicate Framed(r: Reply, asked: bool) {
    if Bodiless(r.code, asked) then PrintedBody(r) == ""
    else PrintedBody(r) == r.body && AllHarmless(r.headers, |r.body|)
  }

  lemma LiteralKinds(t: string, n: nat, c: string, d: string)
    requires n <= SIZE_MAX
    ensures !IsLength(Field("Content-Type", t)) && !IsCoding(Field("Content-Type", t))
    ensures IsLength(Field("Content-Length", Digits(n))) && !IsCoding(Field("Content-Length", Digits(n)))
    ensures ParsedLength(Digits(n)) == Some(n)
    ensures !IsLength(Field("Connection", c)) && !IsCoding(Field("Connection", c))
    ensures !IsLength(Field("Date", d)) && !IsCoding(Field("Date", d))
  {
    LengthRoundTrip(n);
    assert Folded("Content-Type")[8] == 't';
    assert |Folded("Content-Length")| == 14 && Folded("Content-Length") == "content-length";
    hide Digits, ParsedLength;
  }

  /** The printed fields give the body length exactly when no custom header speaks against it. */
  lemma FieldsFramed(r: Reply, date: string)
    requires r.code != 204 && |r.body| <= SIZE_MAX
    ensures var fs := Fields(r, date);
      var coded := exists k :: 0 <= k < |fs| && IsCoding(fs[k]);
      && (!coded && LengthsIn(fs) == OneLength(|r.body|) <==> AllHarmless(r.headers, |r.body|))
      && LengthsIn(fs) != NoLength
      && (LengthsIn(fs).OneLength? ==> LengthsIn(fs) == OneLength(|r.body|))
  {
    hide *;
    var n, fs := |r.body|, Fields(r, date);
    OwnHarmless(r, date);
    HarmlessConcat(OwnFields(r, date), r.headers, n);
    HarmlessMeans(fs, n);
    LengthsAre(fs, n);
    if LengthsIn(fs).OneLength? { OneSays(fs, LengthsIn(fs).n, n); }
  }

  /** The server's own fields speak for the body length. */
  lemma OwnHarmless(r: Reply, date: string)
    requires r.code != 204 && |r.body| <= SIZE_MAX
    ensures var fs := Fields(r, date);
      fs == OwnFields(r, date) + r.headers && AllHarmless(OwnFields(r, date), |r.body|)
      && exists k :: 0 <= k < |fs| && IsLength(fs[k]) && ParsedLength(fs[k].value) == Some(|r.body|)
  {
    var n, fs, own := |r.body|, Fields(r, date), OwnFields(r, date);
    hide IsLength, IsCoding, ParsedLength, Digits;
    LiteralKinds(r.contentType, n, if r.close then "close" else "keep-alive", date);
    var at := if r.contentType != "" then 1 else 0;
    assert own[at] == Field("Content-Length", Digits(n)) && fs == own + r.headers;
    assert fs[at] == own[at];
    assert forall k :: 0 <= k < |own| ==> Harmless(own[k], n);
  }

  lemma HarmlessConcat(a: seq<Field>, b: seq<Field>, n: nat)
    ensures AllHarmless(a + b, n) <==> AllHarmless(a, n) && AllHarmless(b, n)
  {
    hide Harmless;
    assert forall k :: 0 <= k < |b| ==> (a + b)[|a| + k] == b[k];
    assert forall k :: 0 <= k < |a| ==> (a + b)[k] == a[k];
  }

  lemma HarmlessMeans(fs: seq<Field>, n: nat)
    ensures AllHarmless(fs, n) <==> AllSay(fs, n) && !exists k :: 0 <= k < |fs| && IsCoding(fs[k])
  {
    hide IsLength, IsCoding, ParsedLength;
    assert AllHarmless(fs, n) ==> forall k :: 0 <= k < |fs| ==> Harmless(fs[k], n);
    assert AllSay(fs, n) && (forall k :: 0 <= k < |fs| ==> !IsCoding(fs[k])) ==> forall k :: 0 <= k < |fs| ==> Harmless(fs[k], n);
  }

  /** All lengths agree with the one that is there. */
  lemma OneSays(fs: seq<Field>, n: nat, m: nat)
    requires LengthsIn(fs) == OneLength(n)
    requires exists k :: 0 <= k < |fs| && IsLength(fs[k]) && ParsedLength(fs[k].value) == Some(m)
    ensures n == m
  {
    LengthsAre(fs, n);
    hide IsLength, ParsedLength, LengthsIn;
  }

  /** A printed response, followed by anything, is read exactly to its end if and only if it is framed: no body
      with a HEAD request, 1xx, 204 or 304, and otherwise a whole body and no custom header that contradicts its
      length or names a coding. Then code, ordered headers and body come back as they were. */
  lemma PrintReadBack(r: Reply, date: string, more: string, asked: bool)
    requires ThreeDigit(r.code) && |r.body| <= SIZE_MAX && TableOk(r.headers)
    requires LineText(r.contentType) && LineText(date)
    ensures var m := ReadMessage(Print(r, date) + more, asked);
      && (m.Some? && m.value.rest == more <==> Framed(r, asked))
      && (Framed(r, asked) ==> m == Some(Message(r.code, Fields(r, date), PrintedBody(r), more)))
  {
    PrintHead(r, date, more, asked);
    BodyReadBack(r, date, more, asked);
  }

  /** The head of a printed response is read as its code and fields. */
  lemma PrintHead(r: Reply, date: string, more: string, asked: bool)
    requires ThreeDigit(r.code) && TableOk(r.headers) && LineText(r.contentType) && LineText(date)
    ensures ReadMessage(Print(r, date) + more, asked) == ReadBody(r.code, Block(Fields(r, date), PrintedBody(r) + more), asked)
  {
    var line := "HTTP/1.1 " + IntDigits(r.code) + " " + StatusText(r.code);
    assert Print(r, date) == line + CRLF + Lines(Fields(r, date)) + CRLF + PrintedBody(r);
    hide *;
    FieldsReadable(r, date);
    StatusTextIsLine(r.code);
    StatusLineRead(r.code, StatusText(r.code));
    FieldsRead(Fields(r, date), PrintedBody(r) + more);
    HeadReadBack(r.code, line, Lines(Fields(r, date)), Fields(r, date), PrintedBody(r), more, asked);
  }

  /** The body behind the printed fields. */
  lemma BodyReadBack(r: Reply, date: string, more: string, asked: bool)
    requires ThreeDigit(r.code) && |r.body| <= SIZE_MAX
    ensures var m := ReadBody(r.code, Block(Fields(r, date), PrintedBody(r) + more), asked);
      && (m.Some? && m.value.rest == more <==> Framed(r, asked))
      && (Framed(r, asked) ==> m == Some(Message(r.code, Fields(r, date), PrintedBody(r), more)))
  {
    if r.code != 204 { FieldsFramed(r, date); }
    hide Fields, LengthsIn, IsCoding, AllHarmless;
    var body := PrintedBody(r);
    assert (body + more)[..|body|] == body && (body + more)[|body|..] == more;
  }

  /** Once status line and fields are read, the body decides. */
  lemma HeadReadBack(code: nat, line: string, block: string, fs: seq<Field>, body: string, more: string, asked: bool)
    requires LineText(line) && ReadStatus(line) == Some(code)
    requires ReadFields(block + CRLF + (body + more)) == Some(Block(fs, body + more))
    ensures ReadMessage(line + CRLF + block + CRLF + body + more, asked) == ReadBody(code, Block(fs, body + more), asked)
  {
    var tail := block + CRLF + (body + more);
    LineSplit(line, tail);
    hide LineEnd, ReadFields, ReadStatus, ReadBody, LineText;
    assert line + CRLF + block + CRLF + body + more == line + CRLF + tail by {
      Assoc(line + CRLF, block + CRLF, body + more);
      Assoc(line + CRLF, block, CRLF);
      Assoc(line + CRLF + block + CRLF, body, more);
    }
  }

  /** The answer to HEAD is the answer to GET without its body. */
  lemma HeadIsPrefix(r: Reply, date: string)
    requires !r.head
    ensures Print(r, date) == Print(r.(head := true), date) + r.body
  {
    assert Fields(r, date) == Fields(r.(head := true), date);
    assert StatusLine(r.code) + Lines(Fields(r, date)) + CRLF + "" == StatusLine(r.code) + Lines(Fields(r, date)) + CRLF;
  }

  // ---- Error pages (send_error_response) ----------------------------------

  function ErrorText(status: int): string {
    match status
    case 400 => "Bad Request"
    case 404 => "Not Found"
    case 413 => "Payload Too Large"
    case 431 => "Request Header Fields Too Large"
    case 500 => "Internal Server Error"
    case 501 => "Not Implemented"
    case _ => "Error"
  }

  const ERROR_TYPE: string := "text/plain; charset=utf-8"

  /** The literal is 59 bytes long and 58 of them are copied: the blank after the colon is lost. */
  const ERROR_HEADERS: string := CRLF + "Content-Type" + ": " + ERROR_TYPE + CRLF + "Content-Length" + ":" + " "

  const ERROR_COPIED: nat := 58

  function ErrorPrint(status: int, body: string, date: string): string {
    "HTTP/1.1 " + IntDigits(status) + " " + ErrorText(status) + ERROR_HEADERS[..ERROR_COPIED] + Digits(|body|)
    + (CRLF + "Connection" + ": " + "close" + CRLF) + ("Date" + ": ") + date + (CRLF + CRLF) + body
  }

  /** The buffer send_error_response asks for. */
  function ErrorEstimate(status: int, body: string, date: string): nat {
    9 + 3 + 1 + |ErrorText(status)| + 2 + 26 + 2 + 16 + 20 + 2 + 19 + 2 + 6 + |date| + 2 + 2 + |body|
  }

  /** The estimate covers the page exactly as long as code and length together print in 13 bytes. */
  lemma ErrorFits(status: int, body: string, date: string)
    ensures |ErrorPrint(status, body, date)| <= ErrorEstimate(status, body, date) <==>
            |IntDigits(status)| + |Digits(|body|)| <= 13
  {
    hide IntDigits, Digits, ErrorText;
  }

  function ErrorFields(body: string, date: string): seq<Field> {
    [Field("Content-Type", ERROR_TYPE), Field("Content-Length", Digits(|body|)),
     Field("Connection", "close"), Field("Date", date)]
  }

  function ErrorTypeLine(): string { "Content-Type" + ": " + ERROR_TYPE }

  function ErrorLengthLine(body: string): string { "Content-Length" + ":" + Digits(|body|) }

  /** The lines of an error page after its first. */
  function ErrorBlock(body: string, date: string): string {
    ErrorTypeLine() + CRLF + ErrorLengthLine(body) + CRLF + Lines(ErrorFields(body, date)[2..])
  }

  /** An error page is read back like any response, in spite of the lost blank; with HEAD, and the codes that have
      no body, its body is left behind. */
  lemma ErrorReadBack(status: int, body: string, date: string, more: string, asked: bool)
    requires ThreeDigit(status) && |body| <= SIZE_MAX && LineText(date)
    ensures ReadMessage(ErrorPrint(status, body, date) + more, asked) ==
      if Bodiless(status, asked) then Some(Message(status, ErrorFields(body, date), "", body + more))
      else Some(Message(status, ErrorFields(body, date), body, more))
  {
    hide *;
    StatusTextIsLine(status);
    StatusLineRead(status, ErrorText(status));
    ErrorBlockRead(body, date, body + more);
    ErrorShape(status, body, date);
    ErrorBody(status, body, date, more, asked);
    HeadReadBack(status, "HTTP/1.1 " + IntDigits(status) + " " + ErrorText(status), ErrorBlock(body, date),
                 ErrorFields(body, date), body, more, asked);
  }

  /** The body behind the fields of an error page. */
  lemma ErrorBody(status: int, body: string, date: string, more: string, asked: bool)
    requires ThreeDigit(status) && |body| <= SIZE_MAX
    ensures ReadBody(status, Block(ErrorFields(body, date), body + more), asked) ==
      if Bodiless(status, asked) then Some(Message(status, ErrorFields(body, date), "", body + more))
      else Some(Message(status, ErrorFields(body, date), body, more))
  {
    hide ErrorFields, LengthsIn, IsCoding;
    ErrorLength(body, date);
    assert (body + more)[..|body|] == body && (body + more)[|body|..] == more;
  }

  lemma LengthName()
    ensures LineText("Content-Length") && ':' !in "Content-Length"
  {
  }

  lemma LengthLineOf(name: string, d: string)
    requires name != "" && LineText(name) && ':' !in name && LineText(d) && d != "" && d[0] != ' '
    ensures LineText(name + ":" + d) && ReadField(name + ":" + d) == Some(Field(name, d))
  {
    ColonAt(name, d);
  }

  lemma LengthLine(body: string)
    ensures var cl := "Content-Length" + ":" + Digits(|body|);
      cl != "" && LineText(cl) && ReadField(cl) == Some(Field("Content-Length", Digits(|body|)))
  {
    DigitsReadable(|body|);
    var d := Digits(|body|);
    assert d[0] != ' ' by { assert IsDigit(d[0]); }
    LengthName();
    hide Digits;
    LengthLineOf("Content-Length", d);
  }

  lemma ErrorFieldsReadable(body: string, date: string)
    requires LineText(date)
    ensures Readable(ErrorFields(body, date)[0]) && AllReadable(ErrorFields(body, date)[2..])
  {
    hide *;
    ErrorTexts();
    LiteralFields(ERROR_TYPE, |body|, "close", date);
    ErrorFieldsAre(body, date);
  }

  lemma ErrorTexts()
    ensures LineText("close") && LineText(ERROR_TYPE)
  {
  }

  lemma ErrorFieldsAre(body: string, date: string)
    requires Readable(Field("Connection", "close")) && Readable(Field("Date", date))
    ensures ErrorFields(body, date)[0] == Field("Content-Type", ERROR_TYPE) && AllReadable(ErrorFields(body, date)[2..])
  {
    hide Readable, Digits;
  }

  lemma ErrorBlockRead(body: string, date: string, more: string)
    requires LineText(date)
    ensures ReadFields(ErrorBlock(body, date) + CRLF + more) == Some(Block(ErrorFields(body, date), more))
  {
    var fs := ErrorFields(body, date);
    var rest := Lines(fs[2..]);
    var tail := rest + CRLF + more;
    ErrorLinesRead(body, date);
    BlockAssoc(ErrorTypeLine(), ErrorLengthLine(body), rest, more);
    assert ErrorBlock(body, date) + CRLF + more == ErrorTypeLine() + CRLF + (ErrorLengthLine(body) + CRLF + tail);
    hide *;
    FieldsRead(fs[2..], more);
    TwoFirst(ErrorTypeLine(), fs[0], ErrorLengthLine(body), fs[1], tail);
    HeadTwo(fs);
  }

  lemma TwoFirst(a: string, f: Field, b: string, g: Field, more: string)
    requires a != "" && LineText(a) && ReadField(a) == Some(f) && b != "" && LineText(b) && ReadField(b) == Some(g)
    ensures ReadFields(a + CRLF + (b + CRLF + more)) ==
      match ReadFields(more) case None => None case Some(r) => Some(Block([f] + ([g] + r.fields), r.rest))
  {
    hide *;
    FieldFirst(b, g, more);
    FieldFirst(a, f, b + CRLF + more);
  }

  lemma HeadTwo<T>(s: seq<T>)
    requires |s| >= 2
    ensures [s[0]] + ([s[1]] + s[2..]) == s
  {
  }

  lemma ErrorLinesRead(body: string, date: string)
    requires LineText(date)
    ensures |ErrorFields(body, date)| == 4
    ensures AllReadable(ErrorFields(body, date)[2..])
    ensures LineText(ErrorLengthLine(body)) && ErrorLengthLine(body) != ""
    ensures ReadField(ErrorLengthLine(body)) == Some(ErrorFields(body, date)[1])
    ensures LineText(ErrorTypeLine()) && ErrorTypeLine() != "" && ReadField(ErrorTypeLine()) == Some(ErrorFields(body, date)[0])
  {
    ErrorFieldsReadable(body, date);
    LengthLine(body);
    LineOf(Field("Content-Type", ERROR_TYPE));
    FieldRead(Field("Content-Type", ERROR_TYPE));
    hide Readable, LineText, Digits, ReadField;
  }

  lemma BlockAssoc(ct: string, cl: string, rest: string, more: string)
    ensures ct + CRLF + cl + CRLF + rest + CRLF + more == ct + CRLF + (cl + CRLF + (rest + CRLF + more))
  {
    Assoc(ct + CRLF, cl + CRLF, rest + CRLF + more);
    Assoc(ct + CRLF, cl, CRLF);
    Assoc(ct + CRLF + cl + CRLF, rest + CRLF, more);
    Assoc(ct + CRLF + cl + CRLF, rest, CRLF);
  }

  lemma ErrorLength(body: string, date: string)
    requires |body| <= SIZE_MAX
    ensures var fs := ErrorFields(body, date);
      LengthsIn(fs) == OneLength(|body|) && forall k :: 0 <= k < |fs| ==> !IsCoding(fs[k])
  {
    var fs := ErrorFields(body, date);
    LiteralKinds(ERROR_TYPE, |body|, "close", date);
    hide IsLength, IsCoding, ParsedLength, Digits;
    assert IsLength(fs[1]);
    LengthsAre(fs, |body|);
  }

  lemma ErrorShape(status: int, body: string, date: string)
    ensures ErrorPrint(status, body, date) ==
      "HTTP/1.1 " + IntDigits(status) + " " + ErrorText(status) + CRLF + ErrorBlock(body, date) + CRLF + body
  {
    var fs := ErrorFields(body, date);
    assert fs[2..] == [fs[2]] + [fs[3]];
    LinesConcat([fs[2]], [fs[3]]);
    LinesOne(fs[2]);
    LinesOne(fs[3]);
    assert ERROR_HEADERS[..ERROR_COPIED] == CRLF + "Content-Type" + ": " + ERROR_TYPE + CRLF + "Content-Length" + ":";
    hide IntDigits, Digits, ErrorText, Lines;
    var line := "HTTP/1.1 " + IntDigits(status) + " " + ErrorText(status);
    HeadAssoc(line, "Content-Type", ": ", ERROR_TYPE, "Content-Length", ":", Digits(|body|));
    TailAssoc(line + CRLF, FieldLine(fs[0]) + ("Content-Length" + ":" + Digits(|body|)), "Connection", ": ", "close", "Date", date, body);
  }

  lemma HeadAssoc(line: string, a: string, b: string, c: string, d: string, e: string, n: string)
    ensures line + (CRLF + a + b + c + CRLF + d + e) + n == line + CRLF + (a + b + c + CRLF + (d + e + n))
  {
    var f := a + b + c + CRLF;
    assert CRLF + a + b + c + CRLF == CRLF + f by {
      Assoc(CRLF, a, b);
      Assoc(CRLF, a + b, c);
      Assoc(CRLF, a + b + c, CRLF);
    }
    assert CRLF + f + d + e == CRLF + (f + (d + e)) by {
      Assoc(CRLF + f, d, e);
      Assoc(CRLF, f, d + e);
    }
    Assoc(line, CRLF, f + (d + e));
    Assoc(line + CRLF, f + (d + e), n);
    Assoc(f, d + e, n);
  }

  lemma TailAssoc(line: string, q: string, a: string, b: string, c: string, d: string, date: string, body: string)
    ensures line + q + (CRLF + a + b + c + CRLF) + (d + b) + date + (CRLF + CRLF) + body ==
            line + (q + CRLF + ((a + b + c + CRLF) + (d + b + date + CRLF))) + CRLF + body
  {
    var f, g := a + b + c + CRLF, d + b + date + CRLF;
    assert CRLF + a + b + c + CRLF == CRLF + f by {
      Assoc(CRLF, a, b);
      Assoc(CRLF, a + b, c);
      Assoc(CRLF, a + b + c, CRLF);
    }
    var l := line + q + (CRLF + f);
    assert l + (d + b) + date + (CRLF + CRLF) == l + g + CRLF by {
      Assoc(l, d + b, date);
      Assoc(l + (d + b + date), CRLF, CRLF);
      Assoc(l, d + b + date, CRLF);
    }
    assert l + g == line + (q + CRLF + (f + g)) by {
      Assoc(line + q, CRLF + f, g);
      Assoc(CRLF, f, g);
      Assoc(line, q, CRLF + (f + g));
      Assoc(q, CRLF, f + g);
    }
  }

  // ---- The printers -------------------------------------------------------

  /** Copies `s` behind the text printed so far in `a[lo..p]`. */
  method Emit(a: array<char>, lo: nat, p: nat, s: string) returns (q: nat)
    requires lo <= p && p + |s| <= a.Length
    modifies a
    ensures q == p + |s| && a[lo..q] == old(a[lo..p]) + s
    ensures forall k :: 0 <= k < a.Length && !(p <= k < q) ==> a[k] == old(a[k])
  {
    q := M.Put(a, p, s);
    M.Joined(a, lo, p, q);
  }

  /** One header line: name and separator, value, line end. */
  method EmitField(a: array<char>, lo: nat, p: nat, f: Field) returns (q: nat)
    requires lo <= p && p + |FieldLine(f)| <= a.Length
    modifies a
    ensures q == p + |FieldLine(f)| && a[lo..q] == old(a[lo..p]) + FieldLine(f)
    ensures forall k :: 0 <= k < a.Length && !(p <= k < q) ==> a[k] == old(a[k])
  {
    ghost var t := a[lo..p];
    q := Emit(a, lo, p, f.name);
    q := Emit(a, lo, q, ": ");
    q := Emit(a, lo, q, f.value);
    q := Emit(a, lo, q, CRLF);
    Assoc(t, f.name, ": ");
    Assoc(t, f.name + ": ", f.value);
    Assoc(t, f.name + ": " + f.value, CRLF);
  }

  method EmitStatus(a: array<char>, lo: nat, code: int, text: string) returns (q: nat)
    requires -code <= SIZE_MAX && code <= SIZE_MAX
    requires lo + |"HTTP/1.1 " + IntDigits(code) + " " + text| <= a.Length
    modifies a
    ensures q == lo + |"HTTP/1.1 " + IntDigits(code) + " " + text|
    ensures a[lo..q] == "HTTP/1.1 " + IntDigits(code) + " " + text
    ensures forall k :: 0 <= k < a.Length && !(lo <= k < q) ==> a[k] == old(a[k])
  {
    q := Emit(a, lo, lo, "HTTP/1.1 ");
    assert a[lo..lo] + "HTTP/1.1 " == "HTTP/1.1 ";
    q := EmitInt(a, lo, q, code);
    q := Emit(a, lo, q, " ");
    q := Emit(a, lo, q, text);
  }

  method EmitInt(a: array<char>, lo: nat, p: nat, v: int) returns (q: nat)
    requires -v <= SIZE_MAX && v <= SIZE_MAX && lo <= p && p + |IntDigits(v)| <= a.Length
    modifies a
    ensures q == p + |IntDigits(v)| && a[lo..q] == old(a[lo..p]) + IntDigits(v)
    ensures forall k :: 0 <= k < a.Length && !(p <= k < q) ==> a[k] == old(a[k])
  {
    hide IntDigits;
    q := IntToStr(a, p, v);
    M.Joined(a, lo, p, q);
  }

  /** The custom headers, one line each. */
  method EmitHeaders(a: array<char>, lo: nat, p: nat, hs: seq<Field>) returns (q: nat)
    requires lo <= p && p + |Lines(hs)| <= a.Length
    modifies a
    ensures q == p + |Lines(hs)| && a[lo..q] == old(a[lo..p]) + Lines(hs)
    ensures forall k :: 0 <= k < a.Length && !(p <= k < q) ==> a[k] == old(a[k])
  {
    ghost var t := a[lo..p];
    q := p;
    assert t + Lines(hs[..0]) == t;
    for i := 0 to |hs|
      invariant q == p + |Lines(hs[..i])| && q + |Lines(hs[i..])| <= a.Length
      invariant a[lo..q] == t + Lines(hs[..i])
      invariant forall k :: 0 <= k < a.Length && !(p <= k < q) ==> a[k] == old(a[k])
    {
      assert hs[i..] == [hs[i]] + hs[i + 1..];
      assert hs[..i + 1] == hs[..i] + [hs[i]];
      LinesConcat(hs[..i], [hs[i]]);
      LinesConcat([hs[i]], hs[i + 1..]);
      LinesOne(hs[i]);
      q := EmitField(a, lo, q, hs[i]);
      Assoc(t, Lines(hs[..i]), FieldLine(hs[i]));
    }
    assert hs[..|hs|] == hs;
  }

  /** The digits of the body length, printed into a scratch buffer first. */
  method LengthText(n: nat) returns (s: string)
    requires n <= SIZE_MAX
    ensures s == Digits(n)
  {
    SizeFits20(n);
    var buf := new char[20];
    var q := UintToStr(buf, 0, n);
    return buf[..q];
  }

  /** The size arithmetic of build_response, headers counted by its loop. */
  method ComputeSize(r: Reply, date: string, length: string) returns (exact: nat)
    requires length == Digits(|r.body|)
    ensures exact == ExactSize(r, date)
  {
    exact := 9 + 3 + 1 + |StatusText(r.code)| + 2;
    if r.contentType != "" { exact := exact + 14 + |r.contentType| + 2; }
    if r.code != 204 { exact := exact + 16 + |length| + 2; }
    if r.close { exact := exact + 19; } else { exact := exact + 24; }
    exact := exact + 6 + |date| + 2;
    ghost var base := exact;
    for i := 0 to |r.headers|
      invariant exact == base + HeaderBytes(r.headers[..i])
    {
      assert r.headers[..i + 1][..i] == r.headers[..i];
      exact := exact + |r.headers[i].name| + 2 + |r.headers[i].value| + 2;
    }
    assert r.headers[..|r.headers|] == r.headers;
    exact := exact + 2;
    if !r.head { exact := exact + |r.body|; }
  }

  /** The lines build_response adds itself. */
  function OwnLines(r: Reply, date: string): string {
    (if r.contentType != "" then FieldLine(Field("Content-Type", r.contentType)) else "") +
    (if r.code != 204 then FieldLine(Field("Content-Length", Digits(|r.body|))) else "") +
    FieldLine(Field("Connection", if r.close then "close" else "keep-alive")) +
    FieldLine(Field("Date", date))
  }

  function Optional(wanted: bool, f: Field): string { if wanted then FieldLine(f) else "" }

  /** Prints a header line when it is wanted. */
  method EmitIf(a: array<char>, lo: nat, p: nat, wanted: bool, f: Field) returns (q: nat)
    requires lo <= p && p + |Optional(wanted, f)| <= a.Length
    modifies a
    ensures q == p + |Optional(wanted, f)| && a[lo..q] == old(a[lo..p]) + Optional(wanted, f)
    ensures forall k :: 0 <= k < a.Length && !(p <= k < q) ==> a[k] == old(a[k])
  {
    q := p;
    if wanted { q := EmitField(a, lo, p, f); }
  }

  method EmitOwnFields(a: array<char>, lo: nat, p: nat, r: Reply, date: string, length: string) returns (q: nat)
    requires length == Digits(|r.body|) && lo <= p && p + |OwnLines(r, date)| <= a.Length
    modifies a
    ensures q == p + |OwnLines(r, date)| && a[lo..q] == old(a[lo..p]) + OwnLines(r, date)
    ensures forall k :: 0 <= k < a.Length && !(p <= k < q) ==> a[k] == old(a[k])
  {
    ghost var t := a[lo..p];
    var media, size := Field("Content-Type", r.contentType), Field("Content-Length", length);
    var connection := Field("Connection", if r.close then "close" else "keep-alive");
    ghost var ct, cl := Optional(r.contentType != "", media), Optional(r.code != 204, size);
    ghost var cn, dt := FieldLine(connection), FieldLine(Field("Date", date));
    assert OwnLines(r, date) == ct + cl + cn + dt;
    hide *;
    Assoc(t, ct, cl);
    Assoc(t, ct + cl, cn);
    Assoc(t, ct + cl + cn, dt);
    q := EmitIf(a, lo, p, r.contentType != "", media);
    q := EmitIf(a, lo, q, r.code != 204, size);
    q := EmitField(a, lo, q, connection);
    q := EmitField(a, lo, q, Field("Date", date));
  }

  /** The text and the size of a reply, by the pieces the printer writes. */
  lemma PrintSum(r: Reply, date: string)
    requires ThreeDigit(r.code)
    ensures var line := "HTTP/1.1 " + IntDigits(r.code) + " " + StatusText(r.code);
      && Print(r, date) == line + CRLF + OwnLines(r, date) + Lines(r.headers) + CRLF + PrintedBody(r)
      && ExactSize(r, date) == |line| + 2 + |OwnLines(r, date)| + |Lines(r.headers)| + 2 + |PrintedBody(r)|
  {
    SizeIsExact(r, date);
    ThreeDigits(r.code);
    PrintPieces(r, date);
    hide Lines, Fields, Digits, IntDigits, StatusText, HeaderBytes, OwnLines;
    assert Lines(Fields(r, date)) == OwnLines(r, date) + Lines(r.headers) by { OwnLinesAre(r, date); }
    var line := "HTTP/1.1 " + IntDigits(r.code) + " " + StatusText(r.code);
    Assoc(line + CRLF, OwnLines(r, date), Lines(r.headers));
  }

  lemma OwnLinesAre(r: Reply, date: string)
    ensures Lines(Fields(r, date)) == OwnLines(r, date) + Lines(r.headers)
  {
    PrintPieces(r, date);
  }

  /** Prints a reply at `a[lo..]` through a moving offset: it ends exactly at the precomputed size. */
  method PrintReply(a: array<char>, lo: nat, r: Reply, date: string, length: string) returns (q: nat)
    requires ThreeDigit(r.code) && length == Digits(|r.body|)
    requires lo + ExactSize(r, date) <= a.Length
    modifies a
    ensures q == lo + ExactSize(r, date)
    ensures a[lo..q] == Print(r, date)
    ensures forall k :: 0 <= k < a.Length && !(lo <= k < q) ==> a[k] == old(a[k])
  {
    PrintSum(r, date);
    hide Lines, Digits, IntDigits, StatusText, OwnLines, Print, ExactSize;
    q := EmitStatus(a, lo, r.code, StatusText(r.code));
    q := Emit(a, lo, q, CRLF);
    q := EmitOwnFields(a, lo, q, r, date, length);
    q := EmitHeaders(a, lo, q, r.headers);
    q := Emit(a, lo, q, CRLF);
    if !r.head && r.body != "" {
      q := Emit(a, lo, q, r.body);
    } else {
      assert a[lo..q] == a[lo..q] + PrintedBody(r);
    }
  }

  /** Prints an error page; the caller's estimate has to cover it. */
  method PrintError(a: array<char>, lo: nat, status: int, body: string, date: string) returns (q: nat)
    requires -status <= SIZE_MAX && status <= SIZE_MAX && |body| <= SIZE_MAX
    requires lo + |ErrorPrint(status, body, date)| <= a.Length
    modifies a
    ensures q == lo + |ErrorPrint(status, body, date)| && a[lo..q] == ErrorPrint(status, body, date)
    ensures forall k :: 0 <= k < a.Length && !(lo <= k < q) ==> a[k] == old(a[k])
  {
    hide Digits, IntDigits, ErrorText;
    q := EmitStatus(a, lo, status, ErrorText(status));
    q := Emit(a, lo, q, ERROR_HEADERS[..ERROR_COPIED]);
    q := EmitNat(a, lo, q, |body|);
    q := Emit(a, lo, q, CRLF + "Connection" + ": " + "close" + CRLF);
    q := Emit(a, lo, q, "Date" + ": ");
    q := Emit(a, lo, q, date);
    q := Emit(a, lo, q, CRLF + CRLF);
    q := Emit(a, lo, q, body);
  }

  method EmitNat(a: array<char>, lo: nat, p: nat, n: nat) returns (q: nat)
    requires n <= SIZE_MAX && lo <= p && p + |Digits(n)| <= a.Length
    modifies a
    ensures q == p + |Digits(n)| && a[lo..q] == old(a[lo..p]) + Digits(n)
    ensures forall k :: 0 <= k < a.Length && !(p <= k < q) ==> a[k] == old(a[k])
  {
    hide Digits;
    q := UintToStr(a, p, n);
    M.Joined(a, lo, p, q);
  }

  // ---- What the response says of itself -----------------------------------

  /** The value of the first field of that name, up to case. */
  function FirstValue(fs: seq<Field>, key: string): Option<string> {
    if fs == [] then None else if Folded(fs[0].name) == key then Some(fs[0].value) else FirstValue(fs[1..], key)
  }

  /** The reader finds the server's own words first: whether the connection stays open, the date, the type if there is
      one, and but for 204 the length of the body, whatever the handler's headers say. */
  lemma SaysOfItself(r: Reply, date: string)
    requires |r.body| <= SIZE_MAX
    ensures var fs := Fields(r, date);
      && FirstValue(fs, "connection") == Some(if r.close then "close" else "keep-alive") && FirstValue(fs, "date") == Some(date)
      && (r.contentType != "" ==> FirstValue(fs, "content-type") == Some(r.contentType))
      && (r.code != 204 ==> var n := FirstValue(fs, "content-length"); n.Some? && ParsedLength(n.value) == Some(|r.body|))
  {
    var fs := Fields(r, date);
    LengthRoundTrip(|r.body|);
    FoldedNames();
    hide Folded, Digits, ParsedLength;
    var a := if r.contentType != "" then [Field("Content-Type", r.contentType)] else [];
    var b := if r.code != 204 then [Field("Content-Length", Digits(|r.body|))] else [];
    var c := Field("Connection", if r.close then "close" else "keep-alive");
    var d := Field("Date", date);
    var tail := [d] + r.headers;
    assert fs == a + (b + ([c] + tail)) by { FourParts(a, b, c, d, r.headers); }
    hide FirstValue;
    Skip(a, b + ([c] + tail));
    Skip(b, [c] + tail);
    Skip([c], tail);
    Skip([d], r.headers);
  }

  lemma FourParts(a: seq<Field>, b: seq<Field>, c: Field, d: Field, e: seq<Field>)
    ensures a + b + [c] + [d] + e == a + (b + ([c] + ([d] + e)))
  {
  }

  /** At most one field in front. */
  lemma Skip(a: seq<Field>, more: seq<Field>)
    requires |a| <= 1
    ensures forall key :: FirstValue(a + more, key) ==
              if a != [] && Folded(a[0].name) == key then Some(a[0].value) else FirstValue(more, key)
  {
    if a != [] { assert (a + more)[1..] == more; } else { assert a + more == more; }
  }

  lemma FoldedNames()
    ensures Folded("Content-Type") == "content-type" && Folded("Content-Length") == "content-length"
    ensures Folded("Connection") == "connection" && Folded("Date") == "date"
    ensures |"content-type"| == 12 && |"content-length"| == 14 && |"connection"| == 10 && |"date"| == 4
  {
  }

  /** The reason phrases (section 6.1 of RFC 7231, and section 5 of RFC 6585 for 431). */
  const PHRASES: seq<(int, string)> :=
    [(200, "OK"), (201, "Created"), (204, "No Content"), (301, "Moved Permanently"), (302, "Found"), (304, "Not Modified"),
     (400, "Bad Request"), (401, "Unauthorized"), (403, "Forbidden"), (404, "Not Found"), (405, "Method Not Allowed"),
     (413, "Payload Too Large"), (431, "Request Header Fields Too Large"), (500, "Internal Server Error"), (501, "Not Implemented")]

  /** The two tables of reason phrases follow the standard and agree where both know a code; unknown codes read OK in
      one and Error in the other. */
  lemma PhrasesAgree(code: int, k: nat)
    requires k < |PHRASES|
    ensures StatusText(PHRASES[k].0) == PHRASES[k].1
    ensures ErrorText(code) != "Error" ==> ErrorText(code) == StatusText(code)
    ensures (forall j :: 0 <= j < |PHRASES| ==> PHRASES[j].0 != code) ==> StatusText(code) == "OK" && ErrorText(code) == "Error"
  {
    CodesAre();
    PhrasesAre(k);
    hide PHRASES;
  }

  lemma PhrasesAre(k: nat)
    requires k < |PHRASES|
    ensures StatusText(PHRASES[k].0) == PHRASES[k].1
  {
  }

  lemma CodesAre()
    ensures |PHRASES| == 15
    ensures PHRASES[0].0 == 200 && PHRASES[1].0 == 201 && PHRASES[2].0 == 204 && PHRASES[3].0 == 301 && PHRASES[4].0 == 302
    ensures PHRASES[5].0 == 304 && PHRASES[6].0 == 400 && PHRASES[7].0 == 401 && PHRASES[8].0 == 403 && PHRASES[9].0 == 404
    ensures PHRASES[10].0 == 405 && PHRASES[11].0 == 413 && PHRASES[12].0 == 431 && PHRASES[13].0 == 500 && PHRASES[14].0 == 501
  {
  }
}
