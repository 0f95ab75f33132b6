/** Percent-decoding (src/http_parser.cpp, hex_digit and url_decode_inplace). */
module UrlDecode {
  import opened Text

  function HexDigit(c: char): (d: int)
    ensures -1 <= d < 16
  {
    if '0' <= c <= '9' then c as int - '0' as int
    else if 'A' <= c <= 'F' then c as int - 'A' as int + 10
    else if 'a' <= c <= 'f' then c as int - 'a' as int + 10
    else -1
  }

  /** A complete escape stands at the head of `s`. */
  predicate Escape(s: string) { |s| >= 3 && s[0] == '%' && HexDigit(s[1]) >= 0 && HexDigit(s[2]) >= 0 }

  function EscapeValue(s: string): char
    requires Escape(s)
  {
    (16 * HexDigit(s[1]) + HexDigit(s[2])) as char
  }

  function Plus(c: char): char { if c == '+' then ' ' else c }

  /** The decoded text; None when a NUL would be produced. */
  function Decoded(s: string): Option<string> {
    if s == "" then Some("")
    else if Escape(s) then
      if EscapeValue(s) == NUL then None
      else match Decoded(s[3..]) case None => None case Some(r) => Some([EscapeValue(s)] + r)
    else match Decoded(s[1..]) case None => None case Some(r) => Some([Plus(s[0])] + r)
  }

  /** Decoding never lengthens. */
  lemma {:induction false} DecodedShorter(s: string)
    ensures Decoded(s).Some? ==> |Decoded(s).value| <= |s|
  {
    if s != "" { DecodedShorter(if Escape(s) then s[3..] else s[1..]); }
  }

  /** At every decode position the text written so far is no longer than the bytes read so far, and what is still
      to be written depends on the bytes not yet read alone: decoding can overwrite its own input. */
  lemma {:induction false} WriteBehindRead(s: string, k: nat)
    requires Reaches(s, k) && Decoded(s).Some?
    ensures k <= |s| && Decoded(s[k..]).Some?
    ensures var d, r := Decoded(s).value, Decoded(s[k..]).value; |r| <= |d| <= k + |r| && d[|d| - |r|..] == r
    decreases k
  {
    if k > 0 {
      var n := if Escape(s) then 3 else 1;
      WriteBehindRead(s[n..], k - n);
      assert s[n..][k - n..] == s[k..];
    } else {
      assert s[0..] == s;
    }
  }

  // ---- NUL is reported exactly when a %00 is reached ----------------------

  /** The decoder, started at the front of `s`, comes to offset `k`. */
  predicate Reaches(s: string, k: nat)
    decreases |s|
  {
    k == 0 || (s != "" && var n := if Escape(s) then 3 else 1; n <= k <= |s| && Reaches(s[n..], k - n))
  }

  /** The decoder comes to offset `k` and finds "%00" there. */
  predicate NulAt(s: string, k: nat) { k <= |s| && Reaches(s, k) && Escape(s[k..]) && EscapeValue(s[k..]) == NUL }

  /** The decode positions behind the first step are those of the rest. */
  lemma NulStep(s: string, n: nat, k: nat)
    requires s != "" && n == if Escape(s) then 3 else 1
    ensures n <= |s| && (NulAt(s, n + k) <==> NulAt(s[n..], k))
    ensures NulAt(s, k) ==> k == 0 || k >= n
    ensures NulAt(s, 0) <==> Escape(s) && EscapeValue(s) == NUL
  {
    if k <= |s[n..]| { assert s[n..][k..] == s[n + k..]; }
    assert s[0..] == s;
  }

  lemma DecodedStep(s: string)
    requires s != ""
    ensures var n := if Escape(s) then 3 else 1; n <= |s| && (Decoded(s).None? <==> NulAt(s, 0) || Decoded(s[n..]).None?)
  {
    assert s[0..] == s;
  }

  /** Decoding is refused exactly when some decode position holds "%00". */
  lemma {:induction false} NulExactly(s: string)
    ensures Decoded(s).None? <==> exists k :: NulAt(s, k)
    decreases |s|
  {
    if s != "" {
      hide *;
      var n := if Escape(s) then 3 else 1;
      DecodedStep(s);
      NulExactly(s[n..]);
      if k: nat :| NulAt(s, k) {
        NulStep(s, n, k);
        if k > 0 { NulStep(s, n, k - n); }
      }
      if k: nat :| NulAt(s[n..], k) { NulStep(s, n, k); }
    } else {
      NulNowhere();
    }
  }

  lemma NulNowhere()
    ensures forall k :: !NulAt("", k)
  {
    assert forall k: nat :: k <= 0 ==> ""[k..] == "";
  }

  // ---- Decoding undoes every sensible encoding ----------------------------

  /** `e` stands for the byte `c`: the byte itself unless it is special, '+' for a space, or an escape. */
  predicate Encodes1(c: char, e: string) {
    || (e == [c] && c != '%' && c != '+')
    || (e == "+" && c == ' ')
    || (|e| == 3 && Escape(e) && EscapeValue(e) == c)
  }

  /** `es` encodes `text` byte by byte. */
  predicate Encodes(text: string, es: seq<string>) {
    |text| == |es| && forall k :: 0 <= k < |es| ==> Encodes1(text[k], es[k])
  }

  function Flatten(es: seq<string>): string { if es == [] then "" else es[0] + Flatten(es[1..]) }

  /** Any encoding of NUL-free text that escapes at least '%' and '+' decodes to that text. */
  lemma {:induction false} DecodeInvertsEncode(text: string, es: seq<string>)
    requires Encodes(text, es) && NUL !in text
    ensures Decoded(Flatten(es)) == Some(text)
  {
    if es != [] {
      var rest := es[1..];
      assert Encodes(text[1..], rest) by {
        assert forall k :: 0 <= k < |rest| ==> rest[k] == es[k + 1] && text[1..][k] == text[k + 1];
      }
      DecodeInvertsEncode(text[1..], rest);
      var e, f := es[0], Flatten(es);
      assert Encodes1(text[0], e);
      assert f[|e|..] == Flatten(rest) && f[..|e|] == e;
      assert forall k :: 0 <= k < |e| ==> f[k] == e[k];
      assert text == [text[0]] + text[1..];
    }
  }

  // ---- Decoding, exactly --------------------------------------------------

  const HEX_UPPER: string := "0123456789ABCDEF"
  const HEX_LOWER: string := "0123456789abcdef"

  /** The digits are the sixteen of either case, with their places as values. */
  lemma HexDigits(c: char, d: nat)
    requires d < 16
    ensures HexDigit(HEX_UPPER[d]) == d && HexDigit(HEX_LOWER[d]) == d
    ensures HexDigit(c) == d <==> c == HEX_UPPER[d] || c == HEX_LOWER[d]
  {
    assert forall k :: 0 <= k < 10 ==> HEX_UPPER[k] == HEX_LOWER[k] == ('0' as int + k) as char;
    assert forall k :: 10 <= k < 16 ==> HEX_UPPER[k] == ('A' as int + k - 10) as char;
    assert forall k :: 10 <= k < 16 ==> HEX_LOWER[k] == ('a' as int + k - 10) as char;
  }

  predicate TwoHex(s: string) { |s| >= 2 && HexDigit(s[0]) >= 0 && HexDigit(s[1]) >= 0 }

  /** `e`, with `rest` behind it, stands for the byte `c`: itself unless it is '%' or '+', a '+' for a space, an escape
      for the byte it names unless that is NUL, and a '%' that no two hex digits follow for itself. */
  predicate Stands(c: char, e: string, rest: string) {
    || (e == [c] && c != '%' && c != '+')
    || (e == "+" && c == ' ')
    || (|e| == 3 && e[0] == '%' && TwoHex(e[1..]) && c as int == 16 * HexDigit(e[1]) + HexDigit(e[2]) && c != NUL)
    || (e == "%" && c == '%' && !TwoHex(rest))
  }

  predicate Spells(text: string, es: seq<string>) {
    |text| == |es| && forall k :: 0 <= k < |es| ==> Stands(text[k], es[k], Flatten(es[k + 1..]))
  }

  lemma SpellsTail(text: string, es: seq<string>)
    requires es != [] && |text| == |es|
    ensures Spells(text, es) <==> Stands(text[0], es[0], Flatten(es[1..])) && Spells(text[1..], es[1..])
  {
    hide Stands, Flatten;
    assert es[0 + 1..] == es[1..];
    forall k | 1 <= k < |es|
      ensures es[1..][k - 1] == es[k] && text[1..][k - 1] == text[k] && es[1..][k - 1 + 1..] == es[k + 1..]
    {
      assert es[1..][k - 1 + 1..] == es[k + 1..];
    }
    if Stands(text[0], es[0], Flatten(es[1..])) && Spells(text[1..], es[1..]) {
      forall k | 0 <= k < |es| ensures Stands(text[k], es[k], Flatten(es[k + 1..])) {
        if k > 0 { assert Stands(text[1..][k - 1], es[1..][k - 1], Flatten(es[1..][k - 1 + 1..])); }
      }
    }
    if Spells(text, es) {
      forall k | 0 <= k < |es[1..]| ensures Stands(text[1..][k], es[1..][k], Flatten(es[1..][k + 1..])) {
        assert Stands(text[k + 1], es[k + 1], Flatten(es[k + 1 + 1..]));
      }
    }
  }

  /** One piece in front. */
  lemma StandsDecoded(c: char, e: string, rest: string)
    requires Stands(c, e, rest)
    ensures e != "" && Decoded(e + rest) == match Decoded(rest) { case None => None case Some(t) => Some([c] + t) }
  {
    var s := e + rest;
    assert s[|e|..] == rest && (forall k :: 0 <= k < |e| ==> s[k] == e[k]) && forall k :: 0 <= k < |rest| ==> s[|e| + k] == rest[k];
  }

  lemma {:induction false} SpellsDecoded(text: string, es: seq<string>)
    requires Spells(text, es)
    ensures Decoded(Flatten(es)) == Some(text)
  {
    if es != [] {
      SpellsTail(text, es);
      hide Stands, Spells, Decoded;
      SpellsDecoded(text[1..], es[1..]);
      StandsDecoded(text[0], es[0], Flatten(es[1..]));
      HeadTail(text);
    }
  }

  /** The first piece of a text that can be decoded. */
  lemma FirstPiece(s: string) returns (c: char, e: string)
    requires s != "" && Decoded(s).Some?
    ensures e != "" && e <= s && Stands(c, e, s[|e|..])
    ensures Decoded(s[|e|..]).Some? && Decoded(s).value == [c] + Decoded(s[|e|..]).value
  {
    if Escape(s) {
      c, e := EscapeValue(s), s[..3];
    } else {
      c, e := Plus(s[0]), s[..1];
      assert |s| >= 3 ==> s[1..][0] == s[1] && s[1..][1] == s[2];
    }
  }

  lemma {:induction false} DecodedSpells(s: string) returns (es: seq<string>)
    requires Decoded(s).Some?
    ensures Flatten(es) == s && Spells(Decoded(s).value, es)
    decreases |s|
  {
    if s == "" {
      es := [];
    } else {
      var c, e := FirstPiece(s);
      hide Stands, Spells, Decoded;
      var tail := DecodedSpells(s[|e|..]);
      es := [e] + tail;
      assert es[1..] == tail && s == e + s[|e|..];
      SameLength(Decoded(s[|e|..]).value, tail);
      assert ([c] + Decoded(s[|e|..]).value)[1..] == Decoded(s[|e|..]).value;
      SpellsTail(Decoded(s).value, es);
    }
  }

  lemma SameLength(text: string, es: seq<string>)
    requires Spells(text, es)
    ensures |text| == |es|
  {
    hide Stands, Flatten;
  }

  /** What any input decodes to: exactly the text its pieces spell, stray percent signs included. */
  lemma DecodedExactly(s: string, text: string)
    ensures Decoded(s) == Some(text) <==> exists es :: Flatten(es) == s && Spells(text, es)
  {
    hide *;
    if Decoded(s) == Some(text) { var es := DecodedSpells(s); }
    if es :| Flatten(es) == s && Spells(text, es) { SpellsDecoded(text, es); }
  }

  /** A text without '+' and without an escape at any decode position decodes to itself. */
  lemma {:induction false} PlainStays(s: string)
    requires '+' !in s && forall k :: 0 <= k <= |s| && Reaches(s, k) ==> !Escape(s[k..])
    ensures Decoded(s) == Some(s)
  {
    if s != "" {
      assert s[0..] == s && Reaches(s, 0);
      forall k | 0 <= k <= |s[1..]| && Reaches(s[1..], k) ensures !Escape(s[1..][k..]) {
        assert Reaches(s, k + 1) && s[1..][k..] == s[k + 1..];
      }
      PlainStays(s[1..]);
      HeadTail(s);
      assert s[0] != '+';
    }
  }

  /** The upper-case escape of one byte. */
  function HexChar(d: int): (c: char)
    requires 0 <= d < 16
    ensures HexDigit(c) == d
  {
    if d < 10 then ('0' as int + d) as char else ('A' as int + d - 10) as char
  }

  function EscapeOf(c: char): string
    requires c as int < 256
  {
    ['%', HexChar(c as int / 16), HexChar(c as int % 16)]
  }

  /** Escapes every byte outside `safe`. */
  function Encode(text: string, safe: set<char>): seq<string>
    requires forall k :: 0 <= k < |text| ==> text[k] as int < 256
  {
    seq(|text|, i requires 0 <= i < |text| => if text[i] in safe then [text[i]] else EscapeOf(text[i]))
  }

  /** Percent-encoding with any safe set that leaves out '%' and '+' is undone by decoding. */
  lemma RoundTrip(text: string, safe: set<char>)
    requires forall k :: 0 <= k < |text| ==> text[k] as int < 256
    requires NUL !in text && '%' !in safe && '+' !in safe
    ensures Decoded(Flatten(Encode(text, safe))) == Some(text)
  {
    DecodeInvertsEncode(text, Encode(text, safe));
  }

  // ---- The in-place loop --------------------------------------------------

  /** What the slice holds afterwards: the decoded text, then the bytes the loop did not overwrite. */
  function Overwritten(s: string): string
    requires Decoded(s).Some?
  {
    DecodedShorter(s);
    Decoded(s).value + s[|Decoded(s).value|..]
  }

  /** `done` in front of what is still to be decoded. */
  function Ahead(done: string, rest: Option<string>): Option<string> {
    match rest case None => None case Some(r) => Some(done + r)
  }

  lemma AheadMore(done: string, c: char, rest: Option<string>)
    ensures Ahead(done, Ahead([c], rest)) == Ahead(done + [c], rest)
  {
    if rest.Some? { Assoc(done, [c], rest.value); }
  }

  /** Reads one byte or one escape at `i`; `s` is what `a[..hi]` held before decoding. */
  method ReadOne(a: array<char>, hi: nat, i: nat, ghost s: string) returns (c: char, step: nat, nul: bool)
    requires i < hi == |s| <= a.Length && forall k :: i <= k < hi ==> a[k] == s[k]
    ensures 1 <= step <= 3 && i + step <= hi
    ensures Decoded(s[i..]) == if nul then None else Ahead([c], Decoded(s[i + step..]))
  {
    ghost var t := s[i..];
    assert t[1..] == s[i + 1..] && (|t| >= 3 ==> t[3..] == s[i + 3..]);
    c, step, nul := Plus(a[i]), 1, false;
    if a[i] == '%' && i + 2 < hi {
      var h, l := HexDigit(a[i + 1]), HexDigit(a[i + 2]);
      assert a[i + 1] == t[1] && a[i + 2] == t[2];
      if h >= 0 && l >= 0 {
        c, step := (16 * h + l) as char, 3;
        nul := c == NUL;
      }
    }
  }

  /** The decoding loop on `a[lo..hi]`: the write index never overtakes the read index. */
  method DecodeLoop(a: array<char>, lo: nat, hi: nat, ghost s: string) returns (write: nat, nul: bool, ghost done: string)
    requires lo <= hi <= a.Length && s == a[..hi]
    modifies a
    ensures nul == Decoded(s[lo..]).None?
    ensures !nul ==> Decoded(s[lo..]) == Some(done) && write == lo + |done| <= hi
    ensures !nul ==> (forall k :: lo <= k < write ==> a[k] == done[k - lo])
    ensures forall k :: 0 <= k < a.Length && !(lo <= k < if nul then hi else write) ==> a[k] == old(a[k])
  {
    hide *;
    var i := lo;
    write, nul, done := lo, false, "";
    StartOf(s[lo..]);
    while i < hi
      invariant lo <= write <= i <= hi && write == lo + |done|
      invariant forall k :: lo <= k < write ==> a[k] == done[k - lo]
      invariant forall k :: 0 <= k < a.Length && !(lo <= k < write) ==> a[k] == old(a[k])
      invariant Decoded(s[lo..]) == Ahead(done, Decoded(s[i..]))
    {
      var c, step, found := ReadOne(a, hi, i, s);
      if found {
        NoneAhead(done);
        return 0, true, "";
      }
      AheadMore(done, c, Decoded(s[i + step..]));
      a[write] := c;
      done := done + [c];
      write := write + 1;
      i := i + step;
    }
    NothingAhead(done);
    assert s[hi..] == "";
  }

  /** Decodes `a[off..off + len]` where it stands. */
  method DecodeInPlace(a: array<char>, off: nat, len: nat) returns (n: nat, nulFound: bool)
    requires off + len <= a.Length
    modifies a
    ensures forall k :: 0 <= k < a.Length && !(off <= k < off + len) ==> a[k] == old(a[k])
    ensures nulFound == Decoded(old(a[off..off + len])).None?
    ensures nulFound ==> n == 0
    ensures !nulFound ==> n == |Decoded(old(a[off..off + len])).value| <= len
                          && a[off..off + n] == Decoded(old(a[off..off + len])).value
                          && a[off..off + len] == Overwritten(old(a[off..off + len]))
  {
    ghost var s := a[..off + len];
    assert s[off..] == a[off..off + len];
    var write;
    ghost var done;
    write, nulFound, done := DecodeLoop(a, off, off + len, s);
    if nulFound { return 0, true; }
    assert a[off..write] == done;
    assert a[off..off + len] == done + s[off..][|done|..];
    return write - off, false;
  }

  lemma StartOf(s: string)
    ensures Decoded(s) == Ahead("", Decoded(s))
  {
    assert Decoded(s).Some? ==> "" + Decoded(s).value == Decoded(s).value;
  }

  lemma NothingAhead(done: string)
    ensures Ahead(done, Decoded("")) == Some(done)
  {
    assert done + "" == done;
  }

  lemma NoneAhead(done: string)
    ensures Ahead(done, None).None?
  {
  }
}
