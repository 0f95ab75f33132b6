/** Decimal numbers: the digit printers (src/event_loop.cpp, uint_to_str and int_to_str) and the
    overflow-checked Content-Length reader (src/http_parser.cpp, parse_request). */
module Decimal {
  import opened Text

  /** The largest size_t of a 64-bit build. */
  const SIZE_MAX: nat := 0xFFFF_FFFF_FFFF_FFFF

  predicate IsDigit(c: char) { '0' <= c <= '9' }

  predicate AllDigits(s: string) { forall k :: 0 <= k < |s| ==> IsDigit(s[k]) }

  function DigitValue(c: char): (d: nat)
    requires IsDigit(c)
    ensures d < 10
  {
    c as int - '0' as int
  }

  function DigitChar(d: nat): (c: char)
    requires d < 10
    ensures IsDigit(c) && DigitValue(c) == d
  {
    ('0' as int + d) as char
  }

  /** The number a digit string stands for; the empty string stands for 0. */
  function Value(s: string): nat
    requires AllDigits(s)
  {
    if s == "" then 0 else 10 * Value(s[..|s| - 1]) + DigitValue(s[|s| - 1])
  }

  /** The decimal digits of a number, no leading zero. */
  function Digits(n: nat): (s: string)
    ensures s != "" && AllDigits(s)
  {
    if n < 10 then [DigitChar(n)] else Digits(n / 10) + [DigitChar(n % 10)]
  }

  function IntDigits(v: int): string { if v < 0 then "-" + Digits(-v) else Digits(v) }

  /** Reading the printed digits gives the number back. */
  lemma {:induction false} ValueOfDigits(n: nat)
    ensures Value(Digits(n)) == n
  {
    if n < 10 {
      assert Digits(n)[..0] == "";
    } else {
      ValueOfDigits(n / 10);
      assert Digits(n)[..|Digits(n)| - 1] == Digits(n / 10);
    }
  }

  function Pow10(k: nat): nat { if k == 0 then 1 else 10 * Pow10(k - 1) }

  lemma {:induction false} DigitsLength(n: nat, k: nat)
    requires 0 < k && n < Pow10(k)
    ensures |Digits(n)| <= k
  {
    if n >= 10 {
      assert Pow10(k) == 10 * Pow10(k - 1);
      if k > 1 { DigitsLength(n / 10, k - 1); }
    }
  }

  /** Every size_t prints in at most 20 bytes: the size of the scratch buffer. */
  lemma SizeFits20(n: nat)
    requires n <= SIZE_MAX
    ensures |Digits(n)| <= 20
  {
    assert Pow10(5) == 100000;
    assert Pow10(10) == 100000 * Pow10(5);
    assert Pow10(15) == 100000 * Pow10(10);
    assert Pow10(20) == 100000 * Pow10(15);
    DigitsLength(n, 20);
  }

  // ---- Content-Length -----------------------------------------------------

  /** The length a Content-Length value stands for, when it is acceptable. */
  function ParsedLength(s: string): Option<nat> {
    if AllDigits(s) && Value(s) <= SIZE_MAX then Some(Value(s)) else None
  }

  lemma {:induction false} ValueGrows(s: string, k: nat)
    requires AllDigits(s) && k <= |s|
    ensures Value(s[..k]) <= Value(s)
  {
    if k < |s| {
      ValueGrows(s[..|s| - 1], k);
      assert s[..|s| - 1][..k] == s[..k];
    } else {
      assert s[..k] == s;
    }
  }

  /** The digit loop with its two overflow checks accepts exactly the digit strings that fit in a size_t. */
  method ParseLength(s: string) returns (r: Option<nat>)
    ensures r == ParsedLength(s)
  {
    var val := 0;
    for i := 0 to |s|
      invariant AllDigits(s[..i]) && val == Value(s[..i]) <= SIZE_MAX
    {
      if !IsDigit(s[i]) { return None; }
      ghost var next := s[..i + 1];
      assert next[..i] == s[..i] && next[i] == s[i];
      assert AllDigits(s) ==> AllDigits(next);
      if AllDigits(s) { ValueGrows(s, i + 1); }
      if val > SIZE_MAX / 10 { return None; }
      val := val * 10;
      var digit := DigitValue(s[i]);
      if val > SIZE_MAX - digit { return None; }
      val := val + digit;
    }
    assert s[..|s|] == s;
    return Some(val);
  }

  /** Every printed size_t is read back as itself. */
  lemma LengthRoundTrip(n: nat)
    requires n <= SIZE_MAX
    ensures ParsedLength(Digits(n)) == Some(n) && |Digits(n)| <= 20
  {
    ValueOfDigits(n);
    SizeFits20(n);
  }

  // ---- The printers -------------------------------------------------------

  function Reverse(s: string): (r: string)
    ensures |r| == |s|
  {
    if s == "" then "" else Reverse(s[1..]) + [s[0]]
  }

  lemma {:induction false} ReverseSnoc(s: string, c: char)
    ensures Reverse(s + [c]) == [c] + Reverse(s)
  {
    if s == "" {
      assert s + [c] == [c] && [c][1..] == "";
    } else {
      assert (s + [c])[1..] == s[1..] + [c];
      ReverseSnoc(s[1..], c);
    }
  }

  lemma {:induction false} ReverseAt(s: string, k: nat)
    requires k < |s|
    ensures Reverse(s)[k] == s[|s| - 1 - k]
  {
    if k < |s| - 1 { ReverseAt(s[1..], k); }
  }

  /** The digits still to come, in front of those already in the scratch buffer in reverse. */
  function Pending(n: nat, low: string): string { (if n == 0 then "" else Digits(n)) + Reverse(low) }

  lemma PendingStep(n: nat, low: string)
    requires n > 0
    ensures Pending(n, low) == Pending(n / 10, low + [DigitChar(n % 10)])
  {
    ReverseSnoc(low, DigitChar(n % 10));
    if n >= 10 {
      Assoc(Digits(n / 10), [DigitChar(n % 10)], Reverse(low));
    }
  }

  /** Fills `tmp` with the digits of `val`, lowest first. */
  method FillDigits(tmp: array<char>, val: nat) returns (len: nat)
    requires tmp.Length == 20 && 0 < val <= SIZE_MAX
    modifies tmp
    ensures 0 < len <= 20 && Reverse(tmp[..len]) == Digits(val)
  {
    SizeFits20(val);
    var n := val;
    len := 0;
    assert Pending(val, tmp[..0]) == Digits(val) + "" == Digits(val);
    while n > 0
      invariant len <= 20 && Pending(n, tmp[..len]) == Digits(val)
      decreases n
    {
      PendingStep(n, tmp[..len]);
      assert |Pending(n, tmp[..len])| == |Digits(n)| + len;
      tmp[len] := DigitChar(n % 10);
      len := len + 1;
      assert tmp[..len] == tmp[..len - 1] + [tmp[len - 1]];
      n := n / 10;
    }
    assert Pending(0, tmp[..len]) == Reverse(tmp[..len]);
  }

  /** Writes the digits of `val` at `p` and returns the offset behind them. */
  method UintToStr(a: array<char>, p: nat, val: nat) returns (q: nat)
    requires val <= SIZE_MAX && p + |Digits(val)| <= a.Length
    modifies a
    ensures q == p + |Digits(val)| && a[p..q] == Digits(val)
    ensures forall k :: 0 <= k < a.Length && !(p <= k < q) ==> a[k] == old(a[k])
  {
    if val == 0 {
      a[p] := '0';
      return p + 1;
    }
    var tmp := new char[20];
    var len := FillDigits(tmp, val);
    ghost var low := tmp[..len];
    for i := 0 to len
      invariant tmp[..len] == low
      invariant forall k :: 0 <= k < i ==> a[p + k] == Digits(val)[k]
      invariant forall k :: 0 <= k < a.Length && !(p <= k < p + i) ==> a[k] == old(a[k])
    {
      ReverseAt(low, i);
      a[p + i] := tmp[len - 1 - i];
    }
    return p + len;
  }

  lemma SignFirst(s: string, c: char, t: string)
    requires |s| == 1 + |t| && s[0] == c && forall k :: 0 <= k < |t| ==> s[1 + k] == t[k]
    ensures s == [c] + t
  {
  }

  method IntToStr(a: array<char>, p: nat, val: int) returns (q: nat)
    requires -val <= SIZE_MAX && val <= SIZE_MAX && p + |IntDigits(val)| <= a.Length
    modifies a
    ensures q == p + |IntDigits(val)| && a[p..q] == IntDigits(val)
    ensures forall k :: 0 <= k < a.Length && !(p <= k < q) ==> a[k] == old(a[k])
  {
    if val < 0 {
      hide Digits;
      a[p] := '-';
      q := UintToStr(a, p + 1, -val);
      SignFirst(a[p..q], '-', a[p + 1..q]);
    } else {
      q := UintToStr(a, p, val);
    }
  }
}
