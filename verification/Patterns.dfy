/** Route patterns read the way the trie reads them: as token strings without slashes. */
module Patterns {
  import opened Text

  /** A pattern is a sequence of literal bytes, `:name` parameters and at most one final `*name`. */
  datatype Token = Lit(c: char) | Par(name: string) | Any(name: string)

  type Position = seq<Token>

  predicate Special(c: char) { c == '/' || c == ':' || c == '*' }

  predicate Plain(s: string) { forall k :: 0 <= k < |s| ==> !Special(s[k]) }

  function Lits(s: string): (r: Position)
    ensures |r| == |s|
    ensures forall k :: 0 <= k < |s| ==> r[k] == Lit(s[k])
  {
    seq(|s|, i requires 0 <= i < |s| => Lit(s[i]))
  }

  /** What a `:name` at the head of `p` leaves behind. */
  function AfterParam(p: string): (r: string)
    requires p != "" && p[0] == ':'
    ensures |r| < |p|
  {
    var k := IndexOf(p, '/', 0);
    if k < |p| then p[k + 1..] else ""
  }

  /** An empty segment in front of `p` or inside it, before any catch-all: where `insert` makes a label without a byte. */
  predicate Gap(p: string)
    decreases |p|
  {
    p != "" && p[0] != '*' && (p[0] == '/' || if p[0] == ':' then Gap(AfterParam(p)) else Gap(SkipSlash(p[1..])))
  }

  predicate Clean(p: string) { !Gap(p) }

  function ParamName(p: string): string
    requires p != "" && p[0] == ':'
  {
    p[1..IndexOf(p, '/', 0)]
  }

  /** The token string of a pattern tail: every slash between tokens is forgotten. */
  function Tokens(p: string): Position
    decreases |p|
  {
    if p == "" then []
    else if p[0] == ':' then [Par(ParamName(p))] + Tokens(AfterParam(p))
    else if p[0] == '*' then [Any(p[1..])]
    else if p[0] == '/' then Tokens(p[1..])
    else [Lit(p[0])] + Tokens(p[1..])
  }

  /** Where a literal run must be cut: at the end, before a slash, a parameter or a catch-all. */
  predicate Cut(p: string) { p == "" || Special(p[0]) }

  /** The non-root positions at which a pattern by itself forces a trie node. */
  predicate InnerStop(p: string, pos: Position)
    requires pos != []
    decreases |p|
  {
    if p == "" then false
    else if p[0] == ':' then
      pos[0] == Par(ParamName(p)) && (|pos| == 1 || InnerStop(AfterParam(p), pos[1..]))
    else if p[0] == '*' then pos == [Any(p[1..])]
    else if p[0] == '/' then InnerStop(p[1..], pos)
    else pos[0] == Lit(p[0]) && if |pos| == 1 then Cut(p[1..]) else InnerStop(p[1..], pos[1..])
  }

  predicate Stop(p: string, pos: Position) { pos == [] || InnerStop(p, pos) }

  /** Longest common prefix of two positions. */
  function Meet(x: Position, y: Position): Position {
    if x == [] || y == [] || x[0] != y[0] then [] else [x[0]] + Meet(x[1..], y[1..])
  }

  /** What follows a literal run has a gap exactly when the whole has. */
  lemma {:induction false} GapRun(p: string, k: nat)
    requires k <= |p| && Plain(p[..k]) && (k == 0 ==> p != "" && p[0] != '/')
    ensures Gap(p) == Gap(SkipSlash(p[k..]))
  {
    if k == 0 {
      assert p[0..] == p;
    } else {
      assert !Special(p[..k][0]);
      if k > 1 {
        assert !Special(p[..k][1]);
        assert p[1..][..k - 1] == p[..k][1..] && p[1..][k - 1..] == p[k..];
        GapRun(p[1..], k - 1);
      }
    }
  }

  lemma TokensCons(c: char, q: string)
    requires !Special(c)
    ensures Tokens([c] + q) == [Lit(c)] + Tokens(q)
  {
    assert ([c] + q)[1..] == q;
  }

  lemma LitsCons(c: char, a: string)
    ensures Lits([c] + a) == [Lit(c)] + Lits(a)
  {
  }

  /** A literal run at the head of a pattern shows up as literal tokens. */
  lemma {:induction false} TokensRun(a: string, q: string)
    requires Plain(a)
    ensures Tokens(a + q) == Lits(a) + Tokens(SkipSlash(q))
  {
    if a == "" {
      assert a + q == q;
    } else {
      var c, b := a[0], a[1..];
      assert !Special(c) && Plain(b);
      hide *;
      HeadTail(a);
      TokensRun(b, q);
      TokensCons(c, b + q);
      LitsCons(c, b);
      Assoc([c], b, q);
      Assoc([Lit(c)], Lits(b), Tokens(SkipSlash(q)));
    }
  }

  lemma TokensLits(p: string, k: nat)
    requires k <= |p| && Plain(p[..k])
    ensures Tokens(p) == Lits(p[..k]) + Tokens(SkipSlash(p[k..]))
  {
    assert p == p[..k] + p[k..];
    TokensRun(p[..k], p[k..]);
  }

  /** Stops beyond a literal run are stops of what follows it; inside the run there are none. */
  lemma {:induction false} StopsRun(a: string, q: string, pos: Position)
    requires Plain(a) && pos != []
    ensures |pos| < |a| ==> !InnerStop(a + q, pos)
    ensures |pos| == |a| ==> (InnerStop(a + q, pos) <==> pos == Lits(a) && Cut(q))
    ensures |pos| > |a| ==> (InnerStop(a + q, pos) <==> pos[..|a|] == Lits(a) && InnerStop(SkipSlash(q), pos[|a|..]))
  {
    if a == "" {
      assert a + q == q && pos[0..] == pos;
      CutIs(q, pos);
    } else {
      var c, b := a[0], a[1..];
      assert !Special(c) && Plain(b);
      assert b != "" ==> !Cut(b + q) by { if b != "" { assert b[0] == a[1] && (b + q)[0] == b[0]; } }
      hide *;
      HeadTail(a);
      Assoc([c], b, q);
      LitsCons(c, b);
      StopCons(c, b + q, pos);
      ConsSplit(pos, Lit(c), Lits(b));
      if |pos| > 1 { StopsRun(b, q, pos[1..]); } else if b == "" { assert b + q == q; }
    }
  }

  lemma CutIs(q: string, pos: Position)
    requires pos != []
    ensures InnerStop(q, pos) <==> InnerStop(SkipSlash(q), pos)
  {
  }

  /** Stops behind a literal. */
  lemma StopCons(c: char, q: string, pos: Position)
    requires !Special(c) && pos != []
    ensures InnerStop([c] + q, pos) <==> pos[0] == Lit(c) && if |pos| == 1 then Cut(q) else InnerStop(q, pos[1..])
  {
    assert ([c] + q)[1..] == q;
  }

  lemma ConsSplit<T>(s: seq<T>, x: T, t: seq<T>)
    requires s != []
    ensures |s| > |t| ==> (s[..1 + |t|] == [x] + t <==> s[0] == x && s[1..][..|t|] == t) && s[1..][|t|..] == s[1 + |t|..]
    ensures |s| == 1 + |t| ==> (s == [x] + t <==> s[0] == x && s[1..] == t)
  {
    if |s| > |t| {
      assert s[..1 + |t|] == [s[0]] + s[1..][..|t|];
      assert |s| == 1 + |t| ==> s == [s[0]] + s[1..];
      assert ([x] + t)[0] == x && ([x] + t)[1..] == t;
    }
  }

  lemma StopsLits(p: string, k: nat, pos: Position)
    requires k <= |p| && Plain(p[..k]) && pos != []
    ensures |pos| < k ==> !InnerStop(p, pos)
    ensures |pos| == k ==> (InnerStop(p, pos) <==> pos == Lits(p[..k]) && Cut(p[k..]))
    ensures |pos| > k ==> (InnerStop(p, pos) <==> pos[..k] == Lits(p[..k]) && InnerStop(SkipSlash(p[k..]), pos[k..]))
  {
    assert p == p[..k] + p[k..];
    StopsRun(p[..k], p[k..], pos);
  }

  /** The end of a pattern is one of its stops. */
  lemma {:induction false} EndIsStop(p: string)
    ensures Stop(p, Tokens(p))
    decreases |p|
  {
    if p == "" {
    } else if p[0] == ':' {
      EndIsStop(AfterParam(p));
      assert Tokens(p)[1..] == Tokens(AfterParam(p));
    } else if p[0] == '*' {
    } else if p[0] == '/' {
      EndIsStop(p[1..]);
    } else {
      EndIsStop(p[1..]);
      assert Tokens(p)[1..] == Tokens(p[1..]);
      if Tokens(p[1..]) == [] { NoTokens(p[1..]); }
    }
  }

  lemma {:induction false} NoTokens(p: string)
    requires Tokens(p) == []
    ensures Cut(p)
  {
  }

  /** Every stop of a pattern is a prefix of its token string. */
  lemma {:induction false} StopIsPrefix(p: string, pos: Position)
    requires Stop(p, pos)
    ensures pos <= Tokens(p)
    decreases |p|
  {
    if pos == [] || p == "" {
    } else if p[0] == ':' {
      if |pos| > 1 { StopIsPrefix(AfterParam(p), pos[1..]); }
      assert pos == [pos[0]] + pos[1..];
    } else if p[0] == '*' {
    } else if p[0] == '/' {
      StopIsPrefix(p[1..], pos);
    } else {
      if |pos| > 1 { StopIsPrefix(p[1..], pos[1..]); }
      assert pos == [pos[0]] + pos[1..];
    }
  }

  lemma {:induction false} MeetPrefix(x: Position, y: Position)
    ensures Meet(x, y) <= x && Meet(x, y) <= y
    ensures var k := |Meet(x, y)|; k < |x| && k < |y| ==> x[k] != y[k]
  {
    if x != [] && y != [] && x[0] == y[0] { MeetPrefix(x[1..], y[1..]); }
  }

  /** The meet is the only common prefix that cannot be extended. */
  lemma {:induction false} MeetUnique(x: Position, y: Position, m: Position)
    requires m <= x && m <= y
    requires |m| < |x| && |m| < |y| ==> x[|m|] != y[|m|]
    ensures Meet(x, y) == m
  {
    if m != [] {
      assert m[0] == x[0] == y[0];
      assert m[1..] <= x[1..] && m[1..] <= y[1..];
      MeetUnique(x[1..], y[1..], m[1..]);
      assert m == [m[0]] + m[1..];
    }
  }

  lemma {:induction false} MeetShift(u: Position, x: Position, y: Position)
    ensures Meet(u + x, u + y) == u + Meet(x, y)
  {
    MeetPrefix(x, y);
    var m := u + Meet(x, y);
    assert m <= u + x && m <= u + y;
    MeetUnique(u + x, u + y, m);
  }

  /** Meeting a prefix of `x` with `y` either keeps the prefix or is the meet of `x` with `y`. */
  lemma {:induction false} MeetOfPrefix(q: Position, x: Position, y: Position)
    requires q <= x
    ensures Meet(q, y) == q || Meet(q, y) == Meet(x, y)
  {
    MeetPrefix(x, y);
    var m := Meet(x, y);
    if |q| <= |m| {
      assert q <= m;
      MeetUnique(q, y, q);
    } else {
      assert m <= q;
      MeetUnique(q, y, m);
    }
  }
}
