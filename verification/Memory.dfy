/** memcpy and memmove on byte arrays. */
module Memory {

  /** Copies `n` bytes inside one array; the ranges may overlap. */
  method MemMove(a: array<char>, dst: nat, src: nat, n: nat)
    requires dst + n <= a.Length && src + n <= a.Length
    modifies a
    ensures a[..dst] == old(a[..dst])
    ensures a[dst..dst + n] == old(a[src..src + n])
    ensures a[dst + n..] == old(a[dst + n..])
  {
    forall k | 0 <= k < n { a[dst + k] := a[src + k]; }
  }

  /** Copies the bytes of `s` to offset `p` and returns the offset behind them. */
  method Put(a: array<char>, p: nat, s: string) returns (q: nat)
    requires p + |s| <= a.Length
    modifies a
    ensures q == p + |s| && a[p..q] == s
    ensures forall k :: 0 <= k < a.Length && !(p <= k < q) ==> a[k] == old(a[k])
  {
    forall k | 0 <= k < |s| { a[p + k] := s[k]; }
    q := p + |s|;
  }

  /** Two slices that meet. */
  lemma Joined(a: array<char>, lo: nat, p: nat, q: nat)
    requires lo <= p <= q <= a.Length
    ensures a[lo..q] == a[lo..p] + a[p..q]
  {
  }

  /** A slice of a slice. */
  lemma SubSlice(a: array<char>, lo: nat, hi: nat, x: nat, y: nat)
    requires lo <= hi <= a.Length && x <= y <= hi - lo
    ensures a[lo..hi][x..y] == a[lo + x..lo + y]
  {
    var s, t := a[lo..hi][x..y], a[lo + x..lo + y];
    assert |s| == |t|;
    forall k | 0 <= k < |s| ensures s[k] == t[k] {
      assert s[k] == a[lo..hi][x + k] == a[lo + (x + k)];
    }
  }
}
