/** Path normalisation (src/http_parser.cpp, normalize_path_inplace): a stack machine on
    segments, and the two-index loop that runs it inside the receive buffer. */
module Normalize {
  import opened Text
  import M = Memory

  function DropSlashes(s: string): (r: string)
    ensures |r| <= |s| && (r != "" ==> r[0] != '/')
  {
    if s != "" && s[0] == '/' then DropSlashes(s[1..]) else s
  }

  /** The segments of a path: what follows each run of slashes, a final empty one for a trailing slash. */
  function Segments(s: string): seq<string>
    decreases |s|
  {
    if s == "" then []
    else
      var r := DropSlashes(s[1..]);
      var k := IndexOf(r, '/', 0);
      [r[..k]] + Segments(r[k..])
  }

  /** The stack machine: skip ".", pop on "..", refuse to pop an empty stack, push everything else. */
  function Resolve(stack: seq<string>, segs: seq<string>): Option<seq<string>>
    decreases |segs|
  {
    if segs == [] then Some(stack)
    else if segs[0] == "." then Resolve(stack, segs[1..])
    else if segs[0] == ".." then
      if stack == [] then None else Resolve(stack[..|stack| - 1], segs[1..])
    else Resolve(stack + [segs[0]], segs[1..])
  }

  /** What one segment does to the stack. */
  function Act(stack: seq<string>, seg: string): Option<seq<string>> {
    if seg == "." then Some(stack)
    else if seg == ".." then if stack == [] then None else Some(stack[..|stack| - 1])
    else Some(stack + [seg])
  }

  lemma ResolveStep(stack: seq<string>, segs: seq<string>)
    requires segs != []
    ensures Resolve(stack, segs) == match Act(stack, segs[0]) case None => None case Some(next) => Resolve(next, segs[1..])
  {
  }

  function Join(stack: seq<string>): string {
    if stack == [] then "" else Join(stack[..|stack| - 1]) + "/" + stack[|stack| - 1]
  }

  function Render(stack: seq<string>): string { if stack == [] then "/" else Join(stack) }

  /** The result of normalising `s`; None when the request is to be refused. */
  function Normalized(s: string): Option<string> {
    if s == "" || s[0] != '/' || NUL in s then None
    else match Resolve([], Segments(s))
      case None => None
      case Some(stack) => Some(Render(stack))
  }

  // ---- When a path is refused ---------------------------------------------

  function Names(segs: seq<string>): nat {
    if segs == [] then 0 else (if segs[0] == "." || segs[0] == ".." then 0 else 1) + Names(segs[1..])
  }

  function Ups(segs: seq<string>): nat {
    if segs == [] then 0 else (if segs[0] == ".." then 1 else 0) + Ups(segs[1..])
  }

  /** No prefix of the path climbs above where it started. */
  ghost predicate StaysInside(depth: nat, segs: seq<string>) {
    forall k :: 0 <= k <= |segs| ==> Ups(segs[..k]) <= depth + Names(segs[..k])
  }

  lemma CountStep(segs: seq<string>, k: nat)
    requires 0 < k <= |segs|
    ensures Ups(segs[..k]) == (if segs[0] == ".." then 1 else 0) + Ups(segs[1..][..k - 1])
    ensures Names(segs[..k]) == (if segs[0] == "." || segs[0] == ".." then 0 else 1) + Names(segs[1..][..k - 1])
  {
    assert segs[..k][1..] == segs[1..][..k - 1];
  }

  /** The machine refuses a path exactly when some prefix of it climbs above the root. */
  lemma {:induction false} ResolveAccepts(stack: seq<string>, segs: seq<string>)
    ensures Resolve(stack, segs).Some? <==> StaysInside(|stack|, segs)
    decreases |segs|
  {
    if segs == [] {
    } else {
      var d := |stack|;
      forall k | 0 < k <= |segs|
        ensures Ups(segs[..k]) <= d + Names(segs[..k]) <==>
          (if segs[0] == ".." then 1 else 0) + Ups(segs[1..][..k - 1])
            <= d + (if segs[0] == "." || segs[0] == ".." then 0 else 1) + Names(segs[1..][..k - 1])
      {
        CountStep(segs, k);
      }
      var d' := if segs[0] == "." then d else if segs[0] == ".." then d - 1 else d + 1;
      if d' >= 0 {
        StaysStep(d, d', segs);
        ResolveAccepts(if segs[0] == "." then stack else if segs[0] == ".." then stack[..d - 1] else stack + [segs[0]], segs[1..]);
      } else {
        CountStep(segs, 1);
        assert segs[..1] == [segs[0]];
      }
    }
  }

  lemma StaysStep(d: nat, d': nat, segs: seq<string>)
    requires segs != [] && d' == (if segs[0] == "." then d else if segs[0] == ".." then d - 1 else d + 1)
    ensures StaysInside(d, segs) <==> StaysInside(d', segs[1..])
  {
    if StaysInside(d, segs) {
      forall k | 0 <= k <= |segs[1..]| ensures Ups(segs[1..][..k]) <= d' + Names(segs[1..][..k]) {
        CountStep(segs, k + 1);
        assert Ups(segs[..k + 1]) <= d + Names(segs[..k + 1]);
      }
    }
    if StaysInside(d', segs[1..]) {
      forall k | 0 <= k <= |segs| ensures Ups(segs[..k]) <= d + Names(segs[..k]) {
        if k > 0 {
          CountStep(segs, k);
          assert Ups(segs[1..][..k - 1]) <= d' + Names(segs[1..][..k - 1]);
        }
      }
    }
  }

  /** Normalisation succeeds exactly on NUL-free absolute paths none of whose prefixes climbs above the root. */
  lemma NormalizedAccepts(s: string)
    ensures Normalized(s).Some? <==>
            s != "" && s[0] == '/' && NUL !in s && StaysInside(0, Segments(s))
  {
    ResolveAccepts([], Segments(s));
  }

  // ---- What a normalised path looks like ----------------------------------

  predicate Ordinary(seg: string) { seg != "" && seg != "." && seg != ".." && '/' !in seg && NUL !in seg }

  /** Ordinary segments, with a final empty one allowed for a trailing slash. */
  predicate Tidy(stack: seq<string>) {
    forall k :: 0 <= k < |stack| ==> Ordinary(stack[k]) || (stack[k] == "" && k == |stack| - 1)
  }

  /** A path in normal form. */
  ghost predicate Canonical(s: string) { exists stack :: stack != [] && Tidy(stack) && s == Join(stack) }

  lemma {:induction false} JoinFront(seg: string, stack: seq<string>)
    ensures Join([seg] + stack) == "/" + seg + Join(stack)
  {
    var all := [seg] + stack;
    if stack == [] {
      assert all[..0] == [];
    } else {
      assert all[..|all| - 1] == [seg] + stack[..|stack| - 1];
      JoinFront(seg, stack[..|stack| - 1]);
    }
  }

  lemma {:induction false} JoinStarts(stack: seq<string>)
    ensures stack != [] ==> Join(stack) != "" && Join(stack)[0] == '/'
    ensures Join(stack) == "" <==> stack == []
  {
    if stack != [] {
      assert stack == [stack[0]] + stack[1..];
      JoinFront(stack[0], stack[1..]);
    }
  }

  /** Reading a tidy path back gives its segments. */
  lemma {:induction false} SegmentsJoin(stack: seq<string>)
    requires Tidy(stack)
    ensures Segments(Join(stack)) == stack
  {
    if stack != [] {
      var seg, rest := stack[0], stack[1..];
      assert stack == [seg] + rest;
      JoinFront(seg, rest);
      JoinStarts(rest);
      SegmentsJoin(rest);
      var tail := seg + Join(rest);
      assert Join(stack)[1..] == tail;
      if seg == "" {
        assert rest == [];
        assert tail == "";
      } else {
        assert tail[0] == seg[0];
        IndexIs(tail, |seg|);
        assert tail[..|seg|] == seg && tail[|seg|..] == Join(rest);
      }
    }
  }

  lemma IndexIs(s: string, k: nat)
    requires k <= |s| && (k < |s| ==> s[k] == '/') && '/' !in s[..k]
    ensures IndexOf(s, '/', 0) == k
  {
    var j := IndexOf(s, '/', 0);
    assert forall x :: 0 <= x < k ==> s[..k][x] == s[x];
  }

  /** Ordinary segments pass through the machine untouched. */
  lemma {:induction false} ResolveTidy(stack: seq<string>, segs: seq<string>)
    requires Tidy(segs)
    ensures Resolve(stack, segs) == Some(stack + segs)
    decreases |segs|
  {
    if segs == [] {
      assert stack + segs == stack;
    } else {
      ResolveTidy(stack + [segs[0]], segs[1..]);
      assert stack + [segs[0]] + segs[1..] == stack + segs;
    }
  }

  lemma {:induction false} JoinNoNul(stack: seq<string>)
    requires Tidy(stack)
    ensures NUL !in Join(stack)
  {
    if stack != [] { JoinNoNul(stack[..|stack| - 1]); }
  }

  /** A canonical path is its own normal form. */
  lemma CanonicalFixed(stack: seq<string>)
    requires stack != [] && Tidy(stack)
    ensures Normalized(Join(stack)) == Some(Join(stack))
  {
    JoinStarts(stack);
    JoinNoNul(stack);
    SegmentsJoin(stack);
    ResolveTidy([], stack);
    assert [] + stack == stack;
  }

  /** Every segment but the last is non-empty; none holds a slash or a NUL. */
  predicate RawSegments(segs: seq<string>) {
    forall k :: 0 <= k < |segs| ==> '/' !in segs[k] && NUL !in segs[k] && (segs[k] == "" ==> k == |segs| - 1)
  }

  lemma {:induction false} SegmentsRaw(s: string)
    requires NUL !in s && (s != "" ==> s[0] == '/')
    ensures RawSegments(Segments(s)) && (Segments(s) == [] <==> s == "")
    decreases |s|
  {
    if s != "" {
      var r := DropSlashes(s[1..]);
      DropSuffix(s[1..]);
      var k := IndexOf(r, '/', 0);
      assert NUL !in r by { assert NUL in s[1..] ==> NUL in s; }
      SegmentsRaw(r[k..]);
      assert Segments(s) == [r[..k]] + Segments(r[k..]);
    }
  }

  lemma {:induction false} DropSuffix(s: string)
    ensures forall x :: x in DropSlashes(s) ==> x in s
  {
    if s != "" && s[0] == '/' { DropSuffix(s[1..]); }
  }

  lemma {:induction false} ResolveIsTidy(stack: seq<string>, segs: seq<string>)
    requires forall k :: 0 <= k < |stack| ==> Ordinary(stack[k])
    requires RawSegments(segs) && Resolve(stack, segs).Some?
    ensures Tidy(Resolve(stack, segs).value)
    decreases |segs|
  {
    if segs != [] {
      var seg, rest := segs[0], segs[1..];
      assert forall k :: 0 <= k < |rest| ==> rest[k] == segs[k + 1];
      if seg == "" {
        assert rest == [];
      } else {
        ResolveIsTidy(if seg == "." then stack else if seg == ".." then stack[..|stack| - 1] else stack + [seg], rest);
      }
    }
  }

  /** An accepted result is canonical: absolute, NUL-free, no empty, "." or ".." segment inside. */
  lemma NormalizedCanonical(s: string)
    requires Normalized(s).Some?
    ensures Canonical(Normalized(s).value)
  {
    SegmentsRaw(s);
    ResolveIsTidy([], Segments(s));
    var stack := Resolve([], Segments(s)).value;
    if stack == [] {
      assert Join([""]) == "/" by { JoinFront("", []); }
      assert Tidy([""]);
      assert Canonical("/");
    }
  }

  /** The canonical paths are exactly the ones normalisation leaves alone. */
  lemma NormalFormsAreFixedPoints(s: string)
    ensures Canonical(s) <==> Normalized(s) == Some(s)
  {
    if Canonical(s) {
      var stack :| stack != [] && Tidy(stack) && s == Join(stack);
      CanonicalFixed(stack);
    }
    if Normalized(s) == Some(s) { NormalizedCanonical(s); }
  }

  /** Normalising an accepted result again returns it unchanged. */
  lemma Idempotent(s: string)
    requires Normalized(s).Some?
    ensures Normalized(Normalized(s).value) == Normalized(s)
  {
    NormalizedCanonical(s);
    NormalFormsAreFixedPoints(Normalized(s).value);
  }

  /** A trailing slash survives exactly when the input ends in one. */
  lemma {:induction false} SegmentsTrailing(s: string)
    requires s != "" && s[0] == '/'
    ensures Segments(s) != []
    ensures Segments(s)[|Segments(s)| - 1] == "" <==> s[|s| - 1] == '/'
    decreases |s|
  {
    var r := DropSlashes(s[1..]);
    DropTail(s[1..]);
    var k := IndexOf(r, '/', 0);
    assert Segments(s) == [r[..k]] + Segments(r[k..]);
    if k < |r| {
      SegmentsTrailing(r[k..]);
    } else {
      assert Segments(r[k..]) == [];
    }
  }

  lemma {:induction false} DropTail(s: string)
    ensures var r := DropSlashes(s);
      (r == "" ==> forall k :: 0 <= k < |s| ==> s[k] == '/') && (r != "" ==> s != "" && r[|r| - 1] == s[|s| - 1])
  {
    if s != "" && s[0] == '/' { DropTail(s[1..]); }
  }

  lemma {:induction false} ResolveLast(stack: seq<string>, segs: seq<string>)
    requires forall k :: 0 <= k < |stack| ==> Ordinary(stack[k])
    requires RawSegments(segs) && Resolve(stack, segs).Some?
    ensures var out := Resolve(stack, segs).value;
      (out != [] && out[|out| - 1] == "") <==> (segs != [] && segs[|segs| - 1] == "")
    decreases |segs|
  {
    if segs != [] {
      var seg, rest := segs[0], segs[1..];
      assert forall k :: 0 <= k < |rest| ==> rest[k] == segs[k + 1];
      if seg == "" {
        assert rest == [];
      } else {
        ResolveLast(if seg == "." then stack else if seg == ".." then stack[..|stack| - 1] else stack + [seg], rest);
      }
    }
  }

  /** The result ends in a slash exactly when the input does, the root apart. */
  lemma TrailingSlash(s: string)
    requires Normalized(s).Some?
    ensures var t := Normalized(s).value;
      t[|t| - 1] == '/' <==> s[|s| - 1] == '/' || t == "/"
  {
    var t := Normalized(s).value;
    var stack := Resolve([], Segments(s)).value;
    SegmentsTrailing(s);
    SegmentsRaw(s);
    ResolveLast([], Segments(s));
    ResolveIsTidy([], Segments(s));
    if stack != [] {
      var last := stack[|stack| - 1];
      assert t == Join(stack[..|stack| - 1]) + "/" + last;
      if last == "" { assert t[|t| - 1] == '/'; } else { assert t[|t| - 1] == last[|last| - 1]; }
    }
  }

  // ---- The in-place loop --------------------------------------------------

  lemma {:induction false} DropIs(s: string, k: nat)
    requires k <= |s| && (forall j :: 0 <= j < k ==> s[j] == '/') && (k < |s| ==> s[k] != '/')
    ensures DropSlashes(s) == s[k..]
  {
    if k > 0 {
      DropIs(s[1..], k - 1);
      assert s[1..][k - 1..] == s[k..];
    }
  }

  /** The next segment, found by two scans from `read`. */
  lemma NextSegment(s: string, read: nat, start: nat, end: nat)
    requires read < start <= end <= |s|
    requires forall j :: read < j < start ==> s[j] == '/'
    requires start < |s| ==> s[start] != '/'
    requires forall j :: start <= j < end ==> s[j] != '/'
    requires end < |s| ==> s[end] == '/'
    ensures Segments(s[read..]) == [s[start..end]] + Segments(s[end..])
  {
    var u := s[read..][1..];
    assert u == s[read + 1..];
    DropIs(u, start - read - 1);
    var r := s[start..];
    assert u[start - read - 1..] == r;
    IndexIs(r, end - start);
    assert r[..end - start] == s[start..end] && r[end - start..] == s[end..];
  }

  lemma JoinPush(stack: seq<string>, seg: string)
    ensures Join(stack + [seg]) == Join(stack) + "/" + seg
  {
    assert (stack + [seg])[..|stack|] == stack;
  }

  predicate SlashFree(stack: seq<string>) { forall k :: 0 <= k < |stack| ==> '/' !in stack[k] }

  // The loops below work on `a[lo..hi]`; `s` is what `a[..hi]` held at the start, so that one
  // index serves both.

  /** The output so far is the joined stack, and the input not yet read is untouched. */
  ghost predicate Running(a: array<char>, lo: nat, hi: nat, write: nat, read: nat, stack: seq<string>, s: string)
    reads a
  {
    && lo <= write <= read <= hi == |s| <= a.Length
    && (forall k :: read <= k < hi ==> a[k] == s[k])
    && a[lo..write] == Join(stack) && SlashFree(stack)
    && (read < hi ==> s[read] == '/')
  }

  /** Scans back over the last segment of the output, the slash before it included. */
  method PopSegment(a: array<char>, lo: nat, write: nat, ghost stack: seq<string>) returns (ok: bool, w: nat)
    requires lo <= write <= a.Length && a[lo..write] == Join(stack) && SlashFree(stack)
    ensures ok <==> stack != []
    ensures ok ==> lo <= w <= write && a[lo..w] == Join(stack[..|stack| - 1])
  {
    w := write;
    ghost var text := a[lo..write];
    ghost var base := lo;
    if stack != [] {
      ghost var last := stack[|stack| - 1];
      base := lo + |Join(stack[..|stack| - 1])|;
      assert text == Join(stack[..|stack| - 1]) + "/" + last;
      assert text[..base - lo] == Join(stack[..|stack| - 1]);
      assert a[base] == text[base - lo] == '/';
      assert forall j :: base < j < write ==> a[j] == text[j - lo] == last[j - base - 1];
    }
    while w > lo && a[w - 1] != '/'
      invariant lo <= w <= write && (stack != [] ==> base < w)
    {
      w := w - 1;
    }
    if w > lo {
      w := w - 1;
      assert a[lo..w] == text[..w - lo];
      return true, w;
    }
    return false, 0;
  }

  /** From the slash at `read`: past the run of slashes, then to the end of the segment. */
  method Scan(a: array<char>, read: nat, hi: nat, ghost s: string) returns (start: nat, end: nat)
    requires read < hi == |s| <= a.Length && forall k :: read <= k < hi ==> a[k] == s[k]
    ensures read < start <= end <= hi
    ensures forall j :: read < j < start ==> s[j] == '/'
    ensures start < hi ==> s[start] != '/'
    ensures forall j :: start <= j < end ==> s[j] != '/'
    ensures end < hi ==> s[end] == '/'
  {
    start := read + 1;
    while start < hi && a[start] == '/'
      invariant read < start <= hi && forall j :: read < j < start ==> s[j] == '/'
    {
      start := start + 1;
    }
    end := start;
    while end < hi && a[end] != '/'
      invariant start <= end <= hi && forall j :: start <= j < end ==> s[j] != '/'
    {
      end := end + 1;
    }
  }

  /** Moves a segment up behind the slash that ends the output so far. */
  method PushSegment(a: array<char>, lo: nat, write: nat, start: nat, end: nat, ghost stack: seq<string>, ghost seg: string)
    returns (w: nat)
    requires lo <= write < start <= end <= a.Length
    requires a[lo..write] == Join(stack) && a[write] == '/' && seg == a[start..end]
    modifies a
    ensures forall k :: 0 <= k < a.Length && !(lo <= k < end) ==> a[k] == old(a[k])
    ensures lo <= w <= end && a[lo..w] == Join(stack + [seg])
  {
    hide *;
    ghost var was := a[..];
    ghost var out := a[..write + 1];
    w := write + 1 + (end - start);
    M.MemMove(a, write + 1, start, end - start);
    assert out[lo..write] == was[lo..write] && a[..][..write + 1] == a[..write + 1] == out && a[..][write + 1..w] == a[write + 1..w];
    PushedText(a[..], lo, write, w, stack, seg, out);
    assert a[..][lo..w] == a[lo..w];
    forall k | 0 <= k < a.Length && !(lo <= k < end) ensures a[k] == was[k] {
      if k < lo { assert a[..write + 1][k] == was[..write + 1][k]; } else { assert a[w..][k - w] == was[w..][k - w]; }
    }
  }

  /** Lets the segment `seg`, found at `start`, act on the output, whose last byte is the slash just written. */
  method ApplySegment(a: array<char>, lo: nat, write: nat, start: nat, end: nat, ghost stack: seq<string>, ghost seg: string)
    returns (ok: bool, w: nat)
    requires lo <= write < start <= end <= a.Length
    requires a[lo..write] == Join(stack) && a[write] == '/' && SlashFree(stack)
    requires seg == a[start..end] && '/' !in seg
    modifies a
    ensures forall k :: 0 <= k < a.Length && !(lo <= k < end) ==> a[k] == old(a[k])
    ensures var r := Act(stack, seg);
      ok == r.Some? && (ok ==> lo <= w <= end && a[lo..w] == Join(r.value) && SlashFree(r.value))
  {
    hide *;
    assert |seg| == end - start && forall k :: start <= k < end ==> seg[k - start] == a[k];
    ActCases(stack, seg);
    w := write + 1;
    if end - start == 1 && a[start] == '.' {
      assert seg == ".";
      return true, w - 1;
    } else if end - start == 2 && a[start] == '.' && a[start + 1] == '.' {
      assert seg == "..";
      ok, w := PopSegment(a, lo, w - 1, stack);
    } else {
      assert seg != "." && seg != "..";
      w := PushSegment(a, lo, write, start, end, stack, seg);
      return true, w;
    }
  }

  /** What each kind of segment does to the stack. */
  lemma ActCases(stack: seq<string>, seg: string)
    requires '/' !in seg && SlashFree(stack)
    ensures seg == "." ==> Act(stack, seg) == Some(stack)
    ensures seg == ".." && stack == [] ==> Act(stack, seg) == None
    ensures seg == ".." && stack != [] ==> Act(stack, seg) == Some(stack[..|stack| - 1]) && SlashFree(stack[..|stack| - 1])
    ensures seg != "." && seg != ".." ==> Act(stack, seg) == Some(stack + [seg]) && SlashFree(stack + [seg])
  {
  }

  lemma PushedText(now: string, lo: nat, write: nat, w: nat, stack: seq<string>, seg: string, out: string)
    requires lo <= write < w <= |now| && now[..write + 1] == out && now[write + 1..w] == seg
    requires out[lo..write] == Join(stack) && out[write] == '/'
    ensures now[lo..w] == Join(stack + [seg])
  {
    JoinPush(stack, seg);
    assert now[lo..w] == out[lo..write] + [out[write]] + now[write + 1..w];
  }

  /** One round of the loop: writes a slash, reads the next segment and lets it act on the output. */
  method OneSegment(a: array<char>, lo: nat, hi: nat, write: nat, read: nat, ghost stack: seq<string>, ghost s: string)
    returns (ok: bool, w: nat, end: nat)
    requires Running(a, lo, hi, write, read, stack, s) && read < hi
    modifies a
    ensures forall k :: 0 <= k < a.Length && !(lo <= k < hi) ==> a[k] == old(a[k])
    ensures Segments(s[read..]) != []
    ensures var next := Act(stack, Segments(s[read..])[0]);
      && ok == next.Some?
      && (ok ==> read < end && Running(a, lo, hi, w, end, next.value, s))
    ensures Resolve(stack, Segments(s[read..])) ==
      if ok then Resolve(Act(stack, Segments(s[read..])[0]).value, Segments(s[end..])) else None
  {
    hide Segments, Resolve, Join, IndexOf, SlashFree, Act;
    ghost var out := a[lo..write];
    a[write] := '/';
    assert a[lo..write] == out;
    var start;
    start, end := Scan(a, read, hi, s);
    NextSegment(s, read, start, end);
    ResolveStep(stack, Segments(s[read..]));
    assert s[start..end] == a[start..end];
    ok, w := ApplySegment(a, lo, write, start, end, stack, s[start..end]);
  }

  /** The main loop. */
  method RunSegments(a: array<char>, lo: nat, hi: nat, ghost s: string) returns (ok: bool, write: nat)
    requires lo < hi <= a.Length && s == a[..hi] && s[lo] == '/'
    modifies a
    ensures forall k :: 0 <= k < a.Length && !(lo <= k < hi) ==> a[k] == old(a[k])
    ensures var r := Resolve([], Segments(s[lo..]));
      ok == r.Some? && (ok ==> lo <= write <= hi && a[lo..write] == Join(r.value) && (write == lo <==> r.value == []))
  {
    write := lo;
    var read := lo;
    ghost var stack: seq<string> := [];
    while read < hi
      invariant Running(a, lo, hi, write, read, stack, s)
      invariant forall k :: 0 <= k < a.Length && !(lo <= k < hi) ==> a[k] == old(a[k])
      invariant Resolve([], Segments(s[lo..])) == Resolve(stack, Segments(s[read..]))
    {
      var w, end;
      ok, w, end := OneSegment(a, lo, hi, write, read, stack, s);
      if !ok { return false, 0; }
      stack := Act(stack, Segments(s[read..])[0]).value;
      write, read := w, end;
    }
    assert s[read..] == "";
    JoinStarts(stack);
    return true, write;
  }

  lemma NormalizedIs(s: string)
    ensures s == "" || s[0] != '/' || NUL in s ==> Normalized(s) == None
    ensures s != "" && s[0] == '/' && NUL !in s ==>
      var r := Resolve([], Segments(s));
      && (r.None? ==> Normalized(s) == None)
      && (r.Some? ==> Normalized(s) == Some(if r.value == [] then "/" else Join(r.value)))
  {
    hide Resolve, Segments, Join;
  }

  /** Normalises `a[off..off + len]` where it stands. Nothing outside the slice is touched. */
  method NormalizeInPlace(a: array<char>, off: nat, len: nat) returns (ok: bool, n: nat)
    requires off + len <= a.Length
    modifies a
    ensures n <= len
    ensures forall k :: 0 <= k < a.Length && !(off <= k < off + len) ==> a[k] == old(a[k])
    ensures var r := Normalized(old(a[off..off + len]));
      ok == r.Some? && (ok ==> a[off..off + n] == r.value)
  {
    hide *;
    var hi := off + len;
    ghost var s := a[..hi];
    ghost var text := a[off..hi];
    NormalizedIs(text);
    assert text == s[off..] && forall k :: off <= k < hi ==> text[k - off] == a[k];
    if len == 0 || a[off] != '/' { return false, 0; }
    for i := off to hi
      invariant forall k :: off <= k < i ==> a[k] != NUL
    {
      if a[i] == NUL {
        assert text[i - off] == NUL;
        return false, 0;
      }
    }
    assert forall k :: 0 <= k < |text| ==> text[k] == a[off + k];
    var write;
    ok, write := RunSegments(a, off, hi, s);
    if !ok { return false, 0; }
    if write == off {
      a[off] := '/';
      write := off + 1;
    }
    return true, write - off;
  }
}
