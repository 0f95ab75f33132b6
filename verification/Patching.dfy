/** The path after its captures have been decoded where they stand (src/event_loop.cpp). */
module Patching {
  import opened TrieSearch
  import TR = TrieRoutes
  import U = UrlDecode
  import opened Serve

  /** Patching one capture leaves every slice behind it alone. */
  lemma PatchSpares(path: string, c: Capture, d: Capture)
    requires c.start + c.len <= |path| && c.start + c.len <= d.start
    ensures TR.Slice(Patch(path, c), d) == TR.Slice(path, d)
  {
    if U.Decoded(TR.Slice(path, c)).Some? {
      PatchIs(path, c);
      hide U.Decoded, Patch, U.Overwritten;
      var now := Patch(path, c);
      assert forall k :: c.start + c.len <= k < |path| ==> now[k] == path[k];
    }
  }

  /** Patching replaces the capture by the overwritten slice, byte for byte of the same length. */
  lemma PatchIs(path: string, c: Capture)
    requires c.start + c.len <= |path| && U.Decoded(TR.Slice(path, c)).Some?
    ensures |U.Overwritten(TR.Slice(path, c))| == c.len
    ensures Patch(path, c) == path[..c.start] + U.Overwritten(TR.Slice(path, c)) + path[c.start + c.len..]
  {
    U.DecodedShorter(TR.Slice(path, c));
    hide U.Decoded;
  }

  /** Text that differs from `before` in one stretch only. */
  lemma Spliced(before: string, now: string, lo: nat, mid: string)
    requires |now| == |before| && lo + |mid| <= |now| && now[lo..lo + |mid|] == mid
    requires forall k :: 0 <= k < |now| && !(lo <= k < lo + |mid|) ==> now[k] == before[k]
    ensures now == before[..lo] + mid + before[lo + |mid|..]
  {
    assert now == now[..lo] + now[lo..lo + |mid|] + now[lo + |mid|..];
  }

  lemma {:induction false} PatchAllSpares(path: string, caps: seq<Capture>, d: Capture)
    requires InBounds(path, caps)
    requires forall k :: 0 <= k < |caps| ==> caps[k].start + caps[k].len <= d.start
    ensures TR.Slice(PatchAll(path, caps), d) == TR.Slice(path, d)
  {
    if caps != [] {
      var n := |caps| - 1;
      PatchAllSpares(path, caps[..n], d);
      hide PatchAll;
      assert PatchAll(path, caps) == Patch(PatchAll(path, caps[..n]), caps[n]) by { PatchLast(path, caps); }
      PatchSpares(PatchAll(path, caps[..n]), caps[n], d);
    }
  }

  /** Patching the captures before number `i` leaves that one alone. */
  lemma FirstSpare(path: string, caps: seq<Capture>, i: nat)
    requires i < |caps| && InBounds(path, caps)
    requires forall a, b :: 0 <= a < b < |caps| ==> caps[a].start + caps[a].len <= caps[b].start
    ensures TR.Slice(PatchAll(path, caps[..i]), caps[i]) == TR.Slice(path, caps[i])
  {
    hide PatchAll, TR.Slice;
    PatchAllSpares(path, caps[..i], caps[i]);
  }

  lemma PatchLast(path: string, caps: seq<Capture>)
    requires caps != [] && InBounds(path, caps)
    ensures PatchAll(path, caps) == Patch(PatchAll(path, caps[..|caps| - 1]), caps[|caps| - 1])
  {
  }

  lemma PatchedBy(path: string, now: string, c: Capture)
    requires |now| == |path| && c.start + c.len <= |path| && U.Decoded(TR.Slice(path, c)).Some?
    requires now[c.start..c.start + c.len] == U.Overwritten(TR.Slice(path, c))
    requires forall k :: 0 <= k < |now| && !(c.start <= k < c.start + c.len) ==> now[k] == path[k]
    ensures now == Patch(path, c)
  {
    PatchIs(path, c);
    Spliced(path, now, c.start, U.Overwritten(TR.Slice(path, c)));
    hide *;
  }

  /** The decoded value stands at the front of the patched slice. */
  lemma PatchShows(path: string, c: Capture)
    requires c.start + c.len <= |path| && U.Decoded(TR.Slice(path, c)).Some?
    ensures var v := U.Decoded(TR.Slice(path, c)).value;
      |v| <= c.len && Patch(path, c)[c.start..c.start + |v|] == v
  {
    var s := TR.Slice(path, c);
    U.DecodedShorter(s);
    hide U.Decoded;
    var v := U.Decoded(s).value;
    assert U.Overwritten(s)[..|v|] == v;
    assert Patch(path, c)[c.start..c.start + c.len] == U.Overwritten(s);
    assert Patch(path, c)[c.start..c.start + |v|] == Patch(path, c)[c.start..c.start + c.len][..|v|];
  }

  /** The decoded values themselves, by capture. */
  lemma {:induction false} ParamsAre(path: string, caps: seq<Capture>)
    ensures DecodedParams(path, caps).Some? <==> forall k :: 0 <= k < |caps| ==> U.Decoded(TR.Slice(path, caps[k])).Some?
    ensures DecodedParams(path, caps).Some? ==>
      && |DecodedParams(path, caps).value| == |caps|
      && forall k :: 0 <= k < |caps| ==>
           U.Decoded(TR.Slice(path, caps[k])).Some?
            && DecodedParams(path, caps).value[k] == (caps[k].key, U.Decoded(TR.Slice(path, caps[k])).value)
  {
    if caps != [] {
      ParamsAre(path, caps[1..]);
      assert forall k :: 0 < k < |caps| ==> caps[k] == caps[1..][k - 1];
    }
  }

  /** Captures in bounds and one behind the other. */
  predicate Apart(path: string, caps: seq<Capture>) {
    InBounds(path, caps) && forall a, b :: 0 <= a < b < |caps| ==> caps[a].start + caps[a].len <= caps[b].start
  }

  predicate Inside(caps: seq<Capture>, i: int) {
    exists k :: 0 <= k < |caps| && caps[k].start <= i < caps[k].start + caps[k].len
  }

  /** `now` is `path` with one capture overwritten. */
  lemma PatchAt(path: string, c: Capture)
    requires c.start + c.len <= |path| && U.Decoded(TR.Slice(path, c)).Some?
    ensures forall i :: 0 <= i < |path| && !(c.start <= i < c.start + c.len) ==> Patch(path, c)[i] == path[i]
    ensures TR.Slice(Patch(path, c), c) == U.Overwritten(TR.Slice(path, c))
  {
    PatchIs(path, c);
    hide U.Decoded, U.Overwritten, Patch;
  }

  /** All slices can be decoded. */
  predicate Decodable(path: string, caps: seq<Capture>) {
    forall k :: 0 <= k < |caps| ==> U.Decoded(TR.Slice(path, caps[k])).Some?
  }

  /** Each capture stands overwritten in its own slice, everything else is as it was. */
  predicate Patched(path: string, now: string, caps: seq<Capture>)
    requires Decodable(path, caps)
  {
    && |now| == |path|
    && (forall i :: 0 <= i < |path| && !Inside(caps, i) ==> now[i] == path[i])
    && (forall k :: 0 <= k < |caps| ==> TR.Slice(now, caps[k]) == U.Overwritten(TR.Slice(path, caps[k])))
  }

  lemma {:induction false} PatchedAll(path: string, caps: seq<Capture>)
    requires Apart(path, caps) && Decodable(path, caps)
    ensures Patched(path, PatchAll(path, caps), caps)
  {
    hide *;
    ApartIs(path, caps);
    if caps == [] {
      NothingPatched(path);
    } else {
      var n := |caps| - 1;
      var init := caps[..n];
      ApartInit(path, caps);
      PatchedAll(path, init);
      FirstSpare(path, caps, n);
      PatchLast(path, caps);
      PatchAt(PatchAll(path, init), caps[n]);
      PatchedMore(path, PatchAll(path, init), PatchAll(path, caps), caps);
    }
  }

  lemma NothingPatched(path: string)
    ensures InBounds(path, []) && Decodable(path, []) && Patched(path, PatchAll(path, []), [])
  {
  }

  lemma ApartIs(path: string, caps: seq<Capture>)
    requires Apart(path, caps)
    ensures InBounds(path, caps) && forall k :: 0 <= k < |caps| ==> caps[k].start + caps[k].len <= |path|
    ensures forall a, b :: 0 <= a < b < |caps| ==> caps[a].start + caps[a].len <= caps[b].start
  {
  }

  lemma ApartInit(path: string, caps: seq<Capture>)
    requires Apart(path, caps) && Decodable(path, caps) && caps != []
    ensures var n := |caps| - 1;
      Apart(path, caps[..n]) && InBounds(path, caps[..n]) && Decodable(path, caps[..n]) && U.Decoded(TR.Slice(path, caps[n])).Some?
  {
    hide TR.Slice, U.Decoded;
  }

  lemma PatchedMore(path: string, was: string, now: string, caps: seq<Capture>)
    requires caps != [] && Apart(path, caps) && Decodable(path, caps) && |now| == |was|
    requires (ApartInit(path, caps); Patched(path, was, caps[..|caps| - 1]))
    requires var c := caps[|caps| - 1];
      && (forall i :: 0 <= i < |was| && !(c.start <= i < c.start + c.len) ==> now[i] == was[i])
      && TR.Slice(now, c) == U.Overwritten(TR.Slice(path, c))
    ensures Patched(path, now, caps)
  {
    hide U.Decoded, U.Overwritten, TR.Slice, Inside;
    var n := |caps| - 1;
    var init := caps[..n];
    forall i | 0 <= i < |path| && !Inside(caps, i) ensures now[i] == path[i] {
      if Inside(init, i) { InsideMore(caps, i); }
      LastInside(caps, i);
    }
    forall k | 0 <= k < n ensures TR.Slice(now, caps[k]) == U.Overwritten(TR.Slice(path, caps[k])) {
      assert TR.Slice(was, init[k]) == U.Overwritten(TR.Slice(path, init[k]));
      SliceSame(was, now, caps[k]);
    }
  }

  lemma LastInside(caps: seq<Capture>, i: int)
    requires caps != []
    ensures var c := caps[|caps| - 1]; c.start <= i < c.start + c.len ==> Inside(caps, i)
  {
  }

  lemma InsideMore(caps: seq<Capture>, i: int)
    requires caps != [] && Inside(caps[..|caps| - 1], i)
    ensures Inside(caps, i)
  {
    var init := caps[..|caps| - 1];
    var k :| 0 <= k < |init| && init[k].start <= i < init[k].start + init[k].len;
    assert caps[k] == init[k];
  }

  lemma SliceSame(a: string, b: string, c: Capture)
    requires |a| == |b| && forall i :: 0 <= i < |a| && c.start <= i < c.start + c.len ==> a[i] == b[i]
    ensures TR.Slice(a, c) == TR.Slice(b, c)
  {
  }
}
