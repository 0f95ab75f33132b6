/** Request framing (src/http_parser.cpp, parse_request) over an unseen head parser. */
module HttpParser {
  import opened Text
  import opened Decimal

  /** A string_view into the receive buffer. */
  datatype Slice = Slice(start: nat, len: nat) {
    function End(): nat { start + len }
  }

  function TextOf(b: string, s: Slice): string
    requires s.End() <= |b|
  {
    b[s.start..s.End()]
  }

  datatype Header = Header(name: Slice, value: Slice)

  /** What the head parser reports: sizes and offsets only. */
  datatype Head = Head(size: nat, verb: Slice, target: Slice, minor: nat, headers: seq<Header>)

  datatype HeadResult = HeadIncomplete | HeadBad | HeadComplete(head: Head)

  /** picohttpparser, seen as a function of the bytes received so far. */
  type HeadParser = string -> HeadResult

  /** The views of a head lie inside it: method, then target, then headers. */
  predicate HeadInside(h: Head) {
    && h.verb.End() <= h.target.start && h.target.End() <= h.size
    && forall k :: 0 <= k < |h.headers| ==>
         && h.target.End() <= h.headers[k].name.start && h.headers[k].name.End() <= h.size
         && h.target.End() <= h.headers[k].value.start && h.headers[k].value.End() <= h.size
  }

  /** What is assumed of the head parser. */
  ghost predicate ValidHeadParser(phr: HeadParser) {
    && phr("").HeadIncomplete?
    && (forall b :: phr(b).HeadComplete? ==> 0 < phr(b).head.size <= |b| && HeadInside(phr(b).head))
    && (forall b, more :: !phr(b).HeadIncomplete? ==> phr(b + more) == phr(b))
  }

  /** A head parser that knows one head only. */
  function OneHead(text: string, h: Head): HeadParser {
    b => if text <= b then HeadComplete(h) else if b <= text then HeadIncomplete else HeadBad
  }

  /** The assumptions can be met. */
  lemma OneHeadIsValid(text: string, h: Head)
    requires 0 < h.size == |text| && HeadInside(h)
    ensures ValidHeadParser(OneHead(text, h)) && OneHead(text, h)(text) == HeadComplete(h)
  {
    var phr := OneHead(text, h);
    forall b: string, more: string | !phr(b).HeadIncomplete? ensures phr(b + more) == phr(b) {
      if text <= b {
        assert (b + more)[..|text|] == b[..|text|];
      } else {
        Differs(b, text, more);
      }
    }
  }

  /** Text that parts from `s` keeps parting from it. */
  lemma Differs(b: string, s: string, more: string)
    requires !(s <= b) && !(b <= s)
    ensures !(s <= b + more) && !(b + more <= s)
  {
    var k :| 0 <= k < |b| && k < |s| && b[k] != s[k];
    assert (b + more)[k] == b[k];
  }

  /** Case-insensitive equality with a lower-case target. */
  predicate CiEq(a: string, target: string) {
    |a| == |target| && forall k :: 0 <= k < |a| ==> Lower(a[k]) == target[k]
  }

  /** That is equality up to letters in upper case. */
  lemma CiEqMeans(a: string, target: string)
    requires forall k :: 0 <= k < |target| ==> !('A' <= target[k] <= 'Z')
    ensures CiEq(a, target) <==> SameUpToCase(a, target)
  {
    hide Lower, Cased;
    if |a| == |target| {
      forall k | 0 <= k < |a| ensures Lower(a[k]) == target[k] <==> a[k] == target[k] || Cased(a[k], target[k]) {
        LowerIs(a[k], target[k]);
      }
    }
  }

  // ---- Content-Length and Transfer-Encoding -------------------------------

  datatype Framing = BadFraming | Framing(length: Option<nat>, transferEncoding: bool)

  predicate Named(b: string, h: Header, target: string)
    requires h.name.End() <= |b|
  {
    CiEq(TextOf(b, h.name), target)
  }

  predicate InText(b: string, hs: seq<Header>) {
    forall k :: 0 <= k < |hs| ==> hs[k].name.End() <= |b| && hs[k].value.End() <= |b|
  }

  /** One header's effect on what is known of the framing. */
  function Account(b: string, f: Framing, h: Header): Framing
    requires h.name.End() <= |b| && h.value.End() <= |b|
  {
    match f
    case BadFraming => BadFraming
    case Framing(length, te) =>
      var te' := te || Named(b, h, "transfer-encoding");
      if !Named(b, h, "content-length") then Framing(length, te')
      else match ParsedLength(TextOf(b, h.value))
        case None => BadFraming
        case Some(v) => if length.Some? && length.value != v then BadFraming else Framing(Some(v), te')
  }

  function FramingOf(b: string, hs: seq<Header>): Framing
    requires InText(b, hs)
  {
    if hs == [] then Framing(None, false) else Account(b, FramingOf(b, hs[..|hs| - 1]), hs[|hs| - 1])
  }

  predicate HasLength(b: string, hs: seq<Header>, k: nat)
    requires InText(b, hs)
  {
    k < |hs| && Named(b, hs[k], "content-length")
  }

  /** The length header `k` announces; None when it is unreadable. */
  function Announced(b: string, hs: seq<Header>, k: nat): Option<nat>
    requires InText(b, hs) && k < |hs|
  {
    ParsedLength(TextOf(b, hs[k].value))
  }

  /** Two Content-Length headers that differ, or (with `i == j`) one that is unreadable. */
  predicate Conflict(b: string, hs: seq<Header>, i: nat, j: nat)
    requires InText(b, hs)
  {
    HasLength(b, hs, i) && HasLength(b, hs, j) &&
    (Announced(b, hs, i).None? || Announced(b, hs, i) != Announced(b, hs, j))
  }

  lemma {:induction false} FramingRefused(b: string, hs: seq<Header>) returns (i: nat, j: nat)
    requires InText(b, hs) && FramingOf(b, hs) == BadFraming
    ensures Conflict(b, hs, i, j)
  {
    i, j := 0, 0;
    if hs != [] {
      var n := |hs| - 1;
      var init := hs[..n];
      if FramingOf(b, init) == BadFraming {
        i, j := FramingRefused(b, init);
      } else if Announced(b, hs, n).None? {
        i, j := n, n;
      } else {
        FramingAccepted(b, init);
        i :| 0 <= i < n && HasLength(b, init, i);
        j := n;
      }
    }
  }

  /** An accepted scan has seen only readable, equal lengths and knows whether Transfer-Encoding occurs. */
  lemma {:induction false} FramingAccepted(b: string, hs: seq<Header>)
    requires InText(b, hs) && FramingOf(b, hs).Framing?
    ensures var f := FramingOf(b, hs);
      && (f.transferEncoding <==> exists i :: 0 <= i < |hs| && Named(b, hs[i], "transfer-encoding"))
      && (forall i :: 0 <= i < |hs| && HasLength(b, hs, i) ==> f.length.Some? && Announced(b, hs, i) == f.length)
      && (f.length.Some? ==> exists i :: 0 <= i < |hs| && HasLength(b, hs, i))
  {
    hide CiEq, ParsedLength;
    if hs != [] {
      var n := |hs| - 1;
      var init := hs[..n];
      FramingAccepted(b, init);
      assert forall i :: 0 <= i < n ==> init[i] == hs[i] && HasLength(b, init, i) == HasLength(b, hs, i);
      if FramingOf(b, init).length.Some? {
        var i :| 0 <= i < n && HasLength(b, init, i);
        assert HasLength(b, hs, i);
      }
      assert Named(b, hs[n], "content-length") ==> HasLength(b, hs, n);
    }
  }

  /** The scan accepts exactly when all Content-Length headers are readable and agree; it then reports
      their value, and whether a Transfer-Encoding header is present. */
  lemma FramingMeaning(b: string, hs: seq<Header>)
    requires InText(b, hs)
    ensures var f := FramingOf(b, hs);
      && (f == BadFraming <==> exists i, j :: 0 <= i < |hs| && 0 <= j < |hs| && Conflict(b, hs, i, j))
      && (f.Framing? ==>
            && (f.transferEncoding <==> exists i :: 0 <= i < |hs| && Named(b, hs[i], "transfer-encoding"))
            && (f.length.None? <==> forall i :: 0 <= i < |hs| ==> !HasLength(b, hs, i))
            && (forall i :: 0 <= i < |hs| && HasLength(b, hs, i) ==> Announced(b, hs, i) == f.length))
  {
    if FramingOf(b, hs) == BadFraming {
      var i, j := FramingRefused(b, hs);
    } else {
      FramingAccepted(b, hs);
    }
  }

  // ---- parse_request ------------------------------------------------------

  datatype Request = Request(verb: Slice, path: Slice, query: Slice, minor: nat, headers: seq<Header>,
                             body: Slice, headerLen: nat, consumed: nat)

  datatype ParseError = Incomplete | BadRequest | TooLarge

  datatype ParseResult = Parsed(req: Request) | Failed(error: ParseError)

  /** Splits the target at its first '?'. */
  function SplitTarget(b: string, target: Slice): (r: (Slice, Slice))
    requires target.End() <= |b|
    ensures r.0.start == target.start && r.0.End() <= target.End() && r.1.End() <= target.End()
    ensures target.start <= r.1.start
  {
    var t := TextOf(b, target);
    var q := IndexOf(t, '?', 0);
    (Slice(target.start, q),
     if q < |t| then Slice(target.start + q + 1, target.len - q - 1) else Slice(target.End(), 0))
  }

  function Frame(b: string, h: Head, maxBody: nat): ParseResult
    requires h.size <= |b| && HeadInside(h)
  {
    match FramingOf(b, h.headers)
    case BadFraming => Failed(BadRequest)
    case Framing(length, te) =>
      if te then Failed(BadRequest)
      else if maxBody > 0 && length.Some? && length.value > maxBody then Failed(TooLarge)
      else if length.Some? && |b| - h.size < length.value then Failed(Incomplete)
      else
        var (path, query) := SplitTarget(b, h.target);
        var body := Slice(h.size, if length.Some? then length.value else 0);
        Parsed(Request(h.verb, path, query, h.minor, h.headers, body, h.size, h.size + body.len))
  }

  function Parse(phr: HeadParser, b: string, maxBody: nat): ParseResult
    requires phr(b).HeadComplete? ==> phr(b).head.size <= |b| && HeadInside(phr(b).head)
  {
    match phr(b)
    case HeadBad => Failed(BadRequest)
    case HeadIncomplete => Failed(Incomplete)
    case HeadComplete(h) => Frame(b, h, maxBody)
  }

  /** The target is the path, which holds no '?', and behind the first '?' the query. */
  lemma TargetSplit(b: string, target: Slice)
    requires target.End() <= |b|
    ensures var t := TextOf(b, target);
      var path, query := TextOf(b, SplitTarget(b, target).0), TextOf(b, SplitTarget(b, target).1);
      && '?' !in path
      && (if '?' in t then t == path + "?" + query else t == path && query == "")
  {
    hide *;
    SplitTexts(b, target);
    FirstMark(TextOf(b, target));
  }

  lemma SplitTexts(b: string, target: Slice)
    requires target.End() <= |b|
    ensures var t := TextOf(b, target);
      var q := IndexOf(t, '?', 0);
      && TextOf(b, SplitTarget(b, target).0) == t[..q]
      && TextOf(b, SplitTarget(b, target).1) == if q < |t| then t[q + 1..] else ""
  {
    var t := TextOf(b, target);
    var q := IndexOf(t, '?', 0);
    TextPart(b, target, 0, q);
    TextPart(b, target, |t|, 0);
    if q < |t| { TextPart(b, target, q + 1, |t| - q - 1); }
    hide TextOf, IndexOf;
  }

  lemma FirstMark(t: string)
    ensures var q := IndexOf(t, '?', 0);
      && '?' !in t[..q] && ('?' in t <==> q < |t|)
      && (if q < |t| then t == t[..q] + "?" + t[q + 1..] else t == t[..q])
  {
    hide *;
    var q := IndexOf(t, '?', 0);
    NoneBefore(t, '?', q);
    if q < |t| { PartedAt(t, q); } else { assert t[..q] == t; }
  }

  lemma NoneBefore(t: string, c: char, q: nat)
    requires q <= |t| && forall j :: 0 <= j < q ==> t[j] != c
    ensures c !in t[..q]
  {
  }

  lemma PartedAt(t: string, q: nat)
    requires q < |t|
    ensures t == t[..q] + [t[q]] + t[q + 1..] && t[q] in t
  {
  }

  lemma TextPart(b: string, s: Slice, k: nat, n: nat)
    requires s.End() <= |b| && k + n <= s.len
    ensures |TextOf(b, s)| == s.len && TextOf(b, Slice(s.start + k, n)) == TextOf(b, s)[k..k + n]
  {
  }

  /** The framing of the head cannot be trusted: lengths unreadable or in conflict, or a Transfer-Encoding. */
  ghost predicate Untrusted(b: string, hs: seq<Header>)
    requires InText(b, hs)
  {
    || (exists i, j :: 0 <= i < |hs| && 0 <= j < |hs| && Conflict(b, hs, i, j))
    || (exists i :: 0 <= i < |hs| && Named(b, hs[i], "transfer-encoding"))
  }

  /** Some header announces more than `n` bytes of body. */
  ghost predicate AnnouncesMore(b: string, hs: seq<Header>, n: nat)
    requires InText(b, hs)
  {
    exists i :: 0 <= i < |hs| && HasLength(b, hs, i) && Announced(b, hs, i).Some? && Announced(b, hs, i).value > n
  }

  /** What becomes of a complete head: refused exactly when its framing cannot be trusted, too large exactly when
      it announces more than the limit, incomplete exactly when it announces more than has arrived. */
  lemma FrameExactly(b: string, h: Head, maxBody: nat)
    requires h.size <= |b| && HeadInside(h) && InText(b, h.headers)
    ensures var r := Frame(b, h, maxBody);
      && (r == Failed(BadRequest) <==> Untrusted(b, h.headers))
      && (r == Failed(TooLarge) <==> !Untrusted(b, h.headers) && maxBody > 0 && AnnouncesMore(b, h.headers, maxBody))
      && (r == Failed(Incomplete) <==>
            !Untrusted(b, h.headers) && !(maxBody > 0 && AnnouncesMore(b, h.headers, maxBody)) && AnnouncesMore(b, h.headers, |b| - h.size))
  {
    FramingMeaning(b, h.headers);
    hide FramingOf, Named, Announced, InText, SplitTarget;
    if FramingOf(b, h.headers).Framing? { LengthKnown(b, h.headers); }
  }

  /** With a trusted framing, all announcements are the reported length. */
  lemma LengthKnown(b: string, hs: seq<Header>)
    requires InText(b, hs) && FramingOf(b, hs).Framing?
    ensures var length := FramingOf(b, hs).length;
      forall n: nat :: AnnouncesMore(b, hs, n) <==> length.Some? && length.value > n
  {
    FramingAccepted(b, hs);
    hide FramingOf, Named, Announced, InText;
  }

  /** The views of an accepted request: inside what it consumed, the path apart from everything a handler reads. */
  ghost predicate RequestInside(r: Request, size: nat) {
    && r.consumed == r.headerLen + r.body.len <= size && 0 < r.headerLen && r.body.start == r.headerLen
    && r.verb.End() <= r.path.start && r.path.End() <= r.query.start && r.query.End() <= r.headerLen
    && forall k :: 0 <= k < |r.headers| ==>
         && r.path.End() <= r.headers[k].name.start && r.headers[k].name.End() <= r.headerLen
         && r.path.End() <= r.headers[k].value.start && r.headers[k].value.End() <= r.headerLen
  }

  /** An accepted request consumes its head and announced body, all of them received. */
  lemma ParsedInside(phr: HeadParser, b: string, maxBody: nat)
    requires ValidHeadParser(phr) && Parse(phr, b, maxBody).Parsed?
    ensures RequestInside(Parse(phr, b, maxBody).req, |b|)
    ensures var r := Parse(phr, b, maxBody).req;
      var f := FramingOf(b, r.headers);
      f.Framing? && r.body.len == if f.length.Some? then f.length.value else 0
  {
  }

  lemma {:induction false} FramingStable(b: string, more: string, hs: seq<Header>)
    requires InText(b, hs)
    ensures InText(b + more, hs) && FramingOf(b + more, hs) == FramingOf(b, hs)
  {
    if hs != [] {
      var n := |hs| - 1;
      FramingStable(b, more, hs[..n]);
      TextStable(b, more, hs[n].name);
      TextStable(b, more, hs[n].value);
    }
  }

  lemma TextStable(b: string, more: string, s: Slice)
    requires s.End() <= |b|
    ensures TextOf(b + more, s) == TextOf(b, s)
  {
  }

  /** Which outcome an input has: refused exactly for a malformed head or one whose framing cannot be trusted, too large
      exactly when it announces more than the limit, incomplete exactly when head or announced body is. */
  lemma ParseExactly(phr: HeadParser, b: string, maxBody: nat)
    requires ValidHeadParser(phr)
    ensures var r, head := Parse(phr, b, maxBody), phr(b);
      && (head.HeadBad? ==> r == Failed(BadRequest))
      && (head.HeadIncomplete? ==> r == Failed(Incomplete))
      && (head.HeadComplete? ==>
            var hs, arrived := head.head.headers, |b| - head.head.size;
            var big := maxBody > 0 && AnnouncesMore(b, hs, maxBody);
            && (r == Failed(BadRequest) <==> Untrusted(b, hs))
            && (r == Failed(TooLarge) <==> !Untrusted(b, hs) && big)
            && (r == Failed(Incomplete) <==> !Untrusted(b, hs) && !big && AnnouncesMore(b, hs, arrived))
            && (r.Parsed? <==> !Untrusted(b, hs) && !big && !AnnouncesMore(b, hs, arrived)))
  {
    hide Frame, Untrusted, AnnouncesMore;
    if phr(b).HeadComplete? {
      FrameExactly(b, phr(b).head, maxBody);
      var r := Frame(b, phr(b).head, maxBody);
      assert r.Failed? ==> r.error == BadRequest || r.error == TooLarge || r.error == Incomplete;
    }
  }

  /** The body length a head announces: that of every Content-Length header, and 0 without one. */
  ghost predicate BodyLength(b: string, hs: seq<Header>, n: nat)
    requires InText(b, hs)
  {
    && (forall i :: 0 <= i < |hs| && HasLength(b, hs, i) ==> Announced(b, hs, i) == Some(n))
    && ((forall i :: 0 <= i < |hs| ==> !HasLength(b, hs, i)) ==> n == 0)
  }

  /** What an accepted request is made of: method, version and headers as the head parser reports them, the target up
      to its first '?' as the path, what is behind that as the query, and the announced bytes behind the head as the body. */
  lemma ParsedReads(phr: HeadParser, b: string, maxBody: nat)
    requires ValidHeadParser(phr) && Parse(phr, b, maxBody).Parsed?
    ensures phr(b).HeadComplete? && RequestInside(Parse(phr, b, maxBody).req, |b|)
    ensures var h, r := phr(b).head, Parse(phr, b, maxBody).req;
      var target, path, query := TextOf(b, h.target), TextOf(b, r.path), TextOf(b, r.query);
      && '?' !in path && target == path + (if '?' in target then "?" + query else "") && ('?' !in target ==> query == "")
      && r.verb == h.verb && r.minor == h.minor && r.headers == h.headers && r.path.start == h.target.start
      && r.headerLen == h.size && r.body.start == h.size && r.consumed == h.size + r.body.len
      && BodyLength(b, h.headers, r.body.len)
  {
    ParsedInside(phr, b, maxBody);
    ParsedHead(phr, b, maxBody);
    hide *;
    SplitReads(b, phr(b).head.target);
    LengthReads(b, phr(b).head.headers, Parse(phr, b, maxBody).req.body.len);
  }

  lemma ParsedHead(phr: HeadParser, b: string, maxBody: nat)
    requires ValidHeadParser(phr) && Parse(phr, b, maxBody).Parsed?
    ensures phr(b).HeadComplete?
    ensures var h, r := phr(b).head, Parse(phr, b, maxBody).req;
      && h.target.End() <= |b| && InText(b, h.headers) && FramingOf(b, h.headers).Framing?
      && (r.path, r.query) == SplitTarget(b, h.target)
      && r.verb == h.verb && r.minor == h.minor && r.headers == h.headers && r.path.start == h.target.start
      && r.headerLen == h.size && r.body.start == h.size && r.consumed == h.size + r.body.len
      && r.body.len == var f := FramingOf(b, h.headers); if f.length.Some? then f.length.value else 0
  {
    hide FramingOf;
  }

  lemma SplitReads(b: string, s: Slice)
    requires s.End() <= |b|
    ensures var target, path, query := TextOf(b, s), TextOf(b, SplitTarget(b, s).0), TextOf(b, SplitTarget(b, s).1);
      '?' !in path && target == path + (if '?' in target then "?" + query else "") && ('?' !in target ==> query == "")
  {
    TargetSplit(b, s);
    hide *;
    var path := TextOf(b, SplitTarget(b, s).0);
    Assoc(path, "?", TextOf(b, SplitTarget(b, s).1));
    assert path + "" == path;
  }

  lemma LengthReads(b: string, hs: seq<Header>, n: nat)
    requires InText(b, hs) && FramingOf(b, hs).Framing?
    requires n == var f := FramingOf(b, hs); if f.length.Some? then f.length.value else 0
    ensures BodyLength(b, hs, n)
  {
    FramingMeaning(b, hs);
    hide FramingOf, HasLength, Announced, Conflict, Named, InText;
  }

  /** Once some prefix of the input is a request or an error, every extension of it is the same request or error. */
  lemma PrefixStable(phr: HeadParser, b: string, more: string, maxBody: nat)
    requires ValidHeadParser(phr) && Parse(phr, b, maxBody) != Failed(Incomplete)
    ensures Parse(phr, b + more, maxBody) == Parse(phr, b, maxBody)
  {
    assert phr(b + more) == phr(b);
    if phr(b).HeadComplete? { FrameStable(b, more, phr(b).head, maxBody); }
  }

  lemma FrameStable(b: string, more: string, h: Head, maxBody: nat)
    requires h.size <= |b| && HeadInside(h) && Frame(b, h, maxBody) != Failed(Incomplete)
    ensures Frame(b + more, h, maxBody) == Frame(b, h, maxBody)
  {
    FramingStable(b, more, h.headers);
    TextStable(b, more, h.target);
    hide FramingOf, IndexOf, TextOf;
  }

  // ---- The imperative parser ----------------------------------------------

  /** The comparison loop of ci_eq. */
  method CiEqual(buf: array<char>, s: Slice, target: string) returns (same: bool)
    requires s.End() <= buf.Length
    ensures same == CiEq(TextOf(buf[..], s), target)
  {
    if s.len != |target| { return false; }
    for j := 0 to |target|
      invariant forall k :: 0 <= k < j ==> Lower(TextOf(buf[..], s)[k]) == target[k]
    {
      if Lower(buf[s.start + j]) != target[j] { return false; }
    }
    return true;
  }

  /** The header loop of parse_request. */
  method ScanHeaders(buf: array<char>, hs: seq<Header>) returns (f: Framing)
    requires InText(buf[..], hs)
    ensures f == FramingOf(buf[..], hs)
  {
    ghost var b := buf[..];
    var contentLength: nat, hasLength, hasTransferEncoding := 0, false, false;
    for i := 0 to |hs|
      invariant FramingOf(b, hs[..i]) ==
                Framing(if hasLength then Some(contentLength) else None, hasTransferEncoding)
    {
      assert hs[..i + 1][..i] == hs[..i];
      var te := CiEqual(buf, hs[i].name, "transfer-encoding");
      if te { hasTransferEncoding := true; }
      var cl := CiEqual(buf, hs[i].name, "content-length");
      if cl {
        var v := ParseLength(buf[hs[i].value.start..hs[i].value.End()]);
        assert buf[hs[i].value.start..hs[i].value.End()] == TextOf(b, hs[i].value);
        if v.None? || (hasLength && contentLength != v.value) {
          BadStays(b, hs, i + 1);
          return BadFraming;
        }
        hasLength, contentLength := true, v.value;
      }
    }
    assert hs[..|hs|] == hs;
    return Framing(if hasLength then Some(contentLength) else None, hasTransferEncoding);
  }

  lemma {:induction false} BadStays(b: string, hs: seq<Header>, k: nat)
    requires InText(b, hs) && k <= |hs| && FramingOf(b, hs[..k]) == BadFraming
    ensures FramingOf(b, hs) == BadFraming
  {
    if k < |hs| {
      assert hs[..|hs| - 1][..k] == hs[..k];
      BadStays(b, hs[..|hs| - 1], k);
    } else {
      assert hs[..k] == hs;
    }
  }
}
