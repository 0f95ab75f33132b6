/** Byte-string helpers shared by every component. A byte is a `char`. */
module Text {

  datatype Option<+T> = None | Some(value: T)

  const NUL: char := '\0'

  /** ASCII case folding of one byte. */
  function Lower(c: char): char { if 'A' <= c <= 'Z' then (c as int + 32) as char else c }

  const UPPER: string := "ABCDEFGHIJKLMNOPQRSTUVWXYZ"
  const LOWER: string := "abcdefghijklmnopqrstuvwxyz"

  /** `a` is an upper-case letter and `b` the same letter in lower case. */
  predicate Cased(a: char, b: char) { exists n :: 0 <= n < 26 && UPPER[n] == a && LOWER[n] == b }

  /** Equal byte by byte, or where they differ a letter and its lower-case form. */
  predicate SameUpToCase(a: string, target: string) {
    |a| == |target| && forall k :: 0 <= k < |a| ==> a[k] == target[k] || Cased(a[k], target[k])
  }

  lemma Alphabet(n: nat)
    requires n < 26
    ensures UPPER[n] == ('A' as int + n) as char && LOWER[n] == ('a' as int + n) as char
  {
  }

  /** Folding gives a letter its lower-case form and leaves everything else alone. */
  lemma LowerIs(c: char, d: char)
    ensures Lower(c) == d <==> Cased(c, d) || (c == d && !('A' <= c <= 'Z'))
    ensures 'A' <= c <= 'Z' <==> exists n :: 0 <= n < 26 && UPPER[n] == c
  {
    assert |UPPER| == 26 && |LOWER| == 26;
    hide UPPER, LOWER;
    forall n | 0 <= n < 26 ensures UPPER[n] == ('A' as int + n) as char && LOWER[n] == ('a' as int + n) as char { Alphabet(n); }
    if 'A' <= c <= 'Z' { assert UPPER[c as int - 'A' as int] == c; }
  }

  /** The index of the first `c` at or after `from`; the length when there is none. */
  function IndexOf(s: string, c: char, from: nat): (k: nat)
    requires from <= |s|
    ensures from <= k <= |s|
    ensures k < |s| ==> s[k] == c
    ensures forall j :: from <= j < k ==> s[j] != c
    decreases |s| - from
  {
    if from == |s| || s[from] == c then from else IndexOf(s, c, from + 1)
  }

  /** Drops one leading '/' when there is one. */
  function SkipSlash(s: string): string {
    if s != "" && s[0] == '/' then s[1..] else s
  }

  /** `s` without its '/' characters: what "equal up to slashes" compares. */
  function DeSlash(s: string): string {
    if s == "" then "" else (if s[0] == '/' then "" else [s[0]]) + DeSlash(s[1..])
  }

  lemma Assoc<T>(a: seq<T>, b: seq<T>, c: seq<T>)
    ensures a + (b + c) == a + b + c
  {
  }

  /** What lies behind a piece of the path. */
  lemma Behind(path: string, i: nat, a: string, b: string)
    requires i <= |path| && path[i..] == a + b
    ensures a <= path[i..] && i + |a| <= |path| && path[i + |a|..] == b
    ensures b != "" ==> i + |a| < |path| && path[i + |a|] == b[0]
  {
    assert path[i + |a|..] == path[i..][|a|..];
    assert b != "" ==> path[i + |a|..][0] == path[i + |a|];
  }

  lemma HeadTail<T>(a: seq<T>)
    requires a != []
    ensures a == [a[0]] + a[1..]
  {
  }

  lemma {:induction false} DeSlashConcat(a: string, b: string)
    ensures DeSlash(a + b) == DeSlash(a) + DeSlash(b)
  {
    if a == "" {
      assert a + b == b;
    } else {
      assert (a + b)[1..] == a[1..] + b;
      DeSlashConcat(a[1..], b);
    }
  }

  lemma DeSlashSkip(a: string)
    ensures DeSlash(SkipSlash(a)) == DeSlash(a)
  {
  }
}
