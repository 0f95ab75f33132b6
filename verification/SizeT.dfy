/** The 64-bit arithmetic of the arena (src/arena.h, alloc): alignment by masking, and when it wraps. */
module SizeT {
  function Pow2(k: nat): (p: nat)
    ensures p > 0
  {
    if k == 0 then 1 else 2 * Pow2(k - 1)
  }

  const WORD: nat := 0x1_0000_0000_0000_0000

  /** Bitwise and. */
  function And(x: nat, y: nat): nat {
    if x == 0 || y == 0 then 0 else 2 * And(x / 2, y / 2) + (x % 2) * (y % 2)
  }

  /** The next multiple of `align` at or above `x`. */
  function RoundUp(x: nat, align: nat): (r: nat)
    requires align > 0
    ensures r % align == 0 && x <= r < x + align
  {
    RoundUpFacts(x, align);
    (x + align - 1) / align * align
  }

  lemma RoundUpFacts(x: nat, align: nat)
    requires align > 0
    ensures var r := (x + align - 1) / align * align; r % align == 0 && x <= r < x + align
  {
    var y := x + align - 1;
    assert y == y / align * align + y % align;
    MultipleMod(y / align, align);
  }

  lemma {:induction false} MultipleMod(q: nat, m: nat)
    requires m > 0
    ensures (q * m) % m == 0
  {
    if q > 0 {
      MultipleMod(q - 1, m);
      assert q * m == (q - 1) * m + m;
      AddMod((q - 1) * m, m);
    }
  }

  lemma AddMod(x: nat, m: nat)
    requires m > 0
    ensures (x + m) % m == x % m
  {
    var q, r := x / m, x % m;
    assert x + m == (q + 1) * m + r by { assert x == q * m + r; }
    DivUnique(x + m, m, q + 1, r);
  }

  lemma DivUnique(x: nat, m: nat, q: nat, r: nat)
    requires m > 0 && r < m && x == q * m + r
    ensures x / m == q && x % m == r
  {
    var d: int := x / m - q;
    assert x == x / m * m + x % m;
    assert d * m == r - x % m by { assert (x / m - q) * m == x / m * m - q * m; }
    FarApart(d, m);
  }

  lemma FarApart(d: int, m: nat)
    ensures d > 0 ==> d * m >= m
    ensures d < 0 ==> d * m <= 0 - m
  {
  }

  lemma {:induction false} AndOnes(x: nat, m: nat)
    requires x < Pow2(m)
    ensures And(x, Pow2(m) - 1) == x
  {
    if m > 0 && x > 0 {
      AndOnes(x / 2, m - 1);
      assert (Pow2(m) - 1) / 2 == Pow2(m - 1) - 1 && (Pow2(m) - 1) % 2 == 1;
    }
  }

  lemma AndDouble(x: nat, y: nat)
    ensures And(x, 2 * y) == 2 * And(x / 2, y)
  {
    assert (2 * y) / 2 == y && (2 * y) % 2 == 0;
  }

  /** Clearing the low `k` bits rounds down to a multiple of `2^k`. */
  lemma {:induction false} AndHigh(x: nat, m: nat, k: nat)
    requires k <= m && x < Pow2(m)
    ensures Pow2(k) <= Pow2(m) && And(x, Pow2(m) - Pow2(k)) == x / Pow2(k) * Pow2(k)
  {
    if k == 0 {
      AndOnes(x, m);
    } else {
      var h, g := Pow2(k - 1), Pow2(m - 1);
      assert Pow2(k) == 2 * h && Pow2(m) == 2 * g;
      hide Pow2, And;
      AndHigh(x / 2, m - 1, k - 1);
      AndDouble(x, g - h);
      HalfDiv(x, h);
      Twice(x / (2 * h), h);
    }
  }

  lemma Twice(q: nat, h: nat)
    ensures 2 * (q * h) == q * (2 * h)
  {
  }

  lemma HalfDiv(x: nat, h: nat)
    requires h > 0
    ensures x / (2 * h) == (x / 2) / h
  {
    var q, r := (x / 2) / h, (x / 2) % h;
    assert x / 2 == q * h + r;
    assert q * (2 * h) == 2 * (q * h);
    assert x == q * (2 * h) + (2 * r + x % 2);
    DivUnique(x, 2 * h, q, 2 * r + x % 2);
  }

  lemma WordIsPow()
    ensures Pow2(64) == WORD
  {
    assert Pow2(8) == 256;
    assert Pow2(16) == 256 * Pow2(8);
    assert Pow2(24) == 256 * Pow2(16);
    assert Pow2(32) == 256 * Pow2(24);
    assert Pow2(40) == 256 * Pow2(32);
    assert Pow2(48) == 256 * Pow2(40);
    assert Pow2(56) == 256 * Pow2(48);
    assert Pow2(64) == 256 * Pow2(56);
  }

  /** `(x + align - 1) & ~(align - 1)` in 64 bits. */
  function Masked(x: nat, align: nat): nat
    requires 0 < align <= WORD
  {
    And((x + align - 1) % WORD, WORD - 1 - (align - 1))
  }

  /** For a power of two the mask form is the arithmetic round-up, as long as the sum does not wrap. */
  lemma MaskIsRoundUp(x: nat, k: nat)
    requires k < 64 && x + Pow2(k) - 1 < WORD
    ensures Pow2(k) <= WORD && Masked(x, Pow2(k)) == RoundUp(x, Pow2(k))
  {
    WordIsPow();
    hide And, Pow2;
    var y := x + Pow2(k) - 1;
    AndHigh(y, 64, k);
    assert y % WORD == y;
  }

  datatype Placement = Inside(offset: nat) | Overflow

  /** alloc as written, every operation modulo 2^64: where the allocation starts in the main block. */
  function PlaceWrapped(base: nat, offset: nat, cap: nat, n: nat, align: nat): Placement
    requires base < WORD && 0 < align <= WORD
  {
    var aligned := Masked(base + offset, align);
    var at := (aligned + WORD - base) % WORD;
    if (at + n) % WORD <= cap then Inside(at) else Overflow
  }

  /** The same decision in unbounded arithmetic. */
  function Place(base: nat, offset: nat, cap: nat, n: nat, align: nat): (p: Placement)
    requires align > 0
    ensures p.Inside? ==> offset <= p.offset && p.offset + n <= cap && (base + p.offset) % align == 0
    ensures p.Overflow? ==> cap < offset + align - 1 + n
  {
    var at := RoundUp(base + offset, align) - base;
    if at + n <= cap then Inside(at) else Overflow
  }

  lemma Unwrap(x: nat)
    requires x < WORD
    ensures x % WORD == x && (x + WORD) % WORD == x
  {
  }

  /** For any request that does not wrap size_t, the code places it as unbounded arithmetic would. */
  lemma PlaceAgrees(base: nat, offset: nat, cap: nat, n: nat, k: nat)
    requires k < 64 && base + offset + Pow2(k) - 1 < WORD && offset + Pow2(k) - 1 + n < WORD
    ensures Pow2(k) <= WORD && PlaceWrapped(base, offset, cap, n, Pow2(k)) == Place(base, offset, cap, n, Pow2(k))
  {
    hide And, Pow2, RoundUp, Masked, PlaceWrapped;
    MaskIsRoundUp(base + offset, k);
    var at := RoundUp(base + offset, Pow2(k)) - base;
    Unwrap(at);
    StartedAt(base, offset, cap, n, Pow2(k), at);
    Unwrap(at + n);
  }

  lemma {:induction false} PowSplit(m: nat, k: nat)
    requires k <= m
    ensures Pow2(m) == Pow2(m - k) * Pow2(k)
  {
    if k > 0 {
      PowSplit(m - 1, k - 1);
      Twice(Pow2(m - k), Pow2(k - 1));
    }
  }

  /** At most one multiple of `m` lies in any `m` consecutive numbers. */
  lemma OneMultiple(x: nat, m: nat, r: nat, t: nat)
    requires m > 0 && r % m == 0 && t % m == 0 && x <= r < x + m && x <= t < x + m
    ensures r == t
  {
    assert r == r / m * m && t == t / m * m;
    assert (r / m - t / m) * m == r - t by { assert (r / m - t / m) * m == r / m * m - t / m * m; }
    FarApart(r / m - t / m, m);
  }

  lemma RoundsToWord(x: nat, k: nat)
    requires k < 64 && x < WORD <= x + Pow2(k) - 1
    ensures Pow2(k) <= WORD && RoundUp(x, Pow2(k)) == WORD
  {
    hide Pow2, RoundUp;
    WordIsPow();
    PowSplit(64, k);
    MultipleMod(Pow2(64 - k), Pow2(k));
    AndHigh(0, 64, k);
    OneMultiple(x, Pow2(k), RoundUp(x, Pow2(k)), WORD);
  }

  /** When the sum does wrap, the mask gives 0 where the round-up is 2^64. */
  lemma MaskWraps(x: nat, k: nat)
    requires k < 64 && x < WORD <= x + Pow2(k) - 1
    ensures Pow2(k) <= WORD && Masked(x, Pow2(k)) == 0 && RoundUp(x, Pow2(k)) == WORD
  {
    hide And, Pow2, RoundUp;
    WordIsPow();
    RoundsToWord(x, k);
    var y := x + Pow2(k) - 1 - WORD;
    AndHigh(y, 64, k);
    DivUnique(y, Pow2(k), 0, y);
    DivUnique(y + WORD, WORD, 1, y);
  }

  ghost predicate IsAlignment(align: nat) { exists k: nat :: k < 64 && align == Pow2(k) }

  /** A block the machine can hold, and a request the code can be given. */
  ghost predicate Addressable(base: nat, offset: nat, cap: nat, n: nat, align: nat) {
    0 < base && base + cap < WORD && offset <= cap && n < WORD && IsAlignment(align)
  }

  /** The end of the request, computed modulo 2^64, is not mistaken for a place inside the block. */
  predicate NoWrap(base: nat, offset: nat, cap: nat, n: nat, align: nat)
    requires align > 0
  {
    var end := RoundUp(base + offset, align) - base + n;
    end < WORD || end - WORD > cap
  }

  /** Where an allocation is tried is the same in both arithmetics, wrapped sum or not. */
  lemma SameStart(base: nat, offset: nat, cap: nat, n: nat, k: nat)
    requires k < 64 && 0 < base && base + cap < WORD && offset <= cap
    ensures Pow2(k) <= WORD
    ensures (Masked(base + offset, Pow2(k)) + WORD - base) % WORD == RoundUp(base + offset, Pow2(k)) - base < WORD
  {
    var x := base + offset;
    if x + Pow2(k) - 1 < WORD {
      MaskIsRoundUp(x, k);
      Unwrap(RoundUp(x, Pow2(k)) - base);
    } else {
      MaskWraps(x, k);
      Unwrap(WORD - base);
    }
  }

  lemma StartedAt(base: nat, offset: nat, cap: nat, n: nat, align: nat, at: nat)
    requires base < WORD && 0 < align <= WORD && (Masked(base + offset, align) + WORD - base) % WORD == at
    ensures PlaceWrapped(base, offset, cap, n, align) == if (at + n) % WORD <= cap then Inside(at) else Overflow
  {
    hide Masked;
  }

  lemma WrappedEnd(end: nat)
    requires end < 2 * WORD
    ensures end % WORD == if end < WORD then end else end - WORD
  {
    if end < WORD { Unwrap(end); } else { Unwrap(end - WORD); }
  }

  /** The code places a request as unbounded arithmetic would exactly when the end of the request does not wrap
      round into the block. */
  lemma WrapsExactly(base: nat, offset: nat, cap: nat, n: nat, align: nat)
    requires Addressable(base, offset, cap, n, align)
    ensures 0 < align <= WORD
    ensures PlaceWrapped(base, offset, cap, n, align) == Place(base, offset, cap, n, align) <==> NoWrap(base, offset, cap, n, align)
  {
    var k: nat :| k < 64 && align == Pow2(k);
    hide And, Pow2, RoundUp, Masked, PlaceWrapped;
    SameStart(base, offset, cap, n, k);
    var at := RoundUp(base + offset, align) - base;
    StartedAt(base, offset, cap, n, align, at);
    WrappedEnd(at + n);
  }

  /** Inside a block the machine can hold, the mask form aligns as the arithmetic does. */
  lemma MaskInBlock(bottom: nat, align: nat)
    requires IsAlignment(align) && bottom + align < WORD
    ensures align > 0 && Masked(bottom, align) == RoundUp(bottom, align)
  {
    var k: nat :| k < 64 && align == Pow2(k);
    hide And, Pow2, RoundUp, Masked;
    MaskIsRoundUp(bottom, k);
  }

  /** A request that leaves room for the block and the alignment never wraps. */
  lemma SmallIsSafe(base: nat, offset: nat, cap: nat, n: nat, align: nat)
    requires align > 0 && offset <= cap && cap + align + n <= WORD
    ensures NoWrap(base, offset, cap, n, align)
  {
  }

  /** So the size test can be fooled: a request of nearly 2^64 bytes is placed inside. */
  lemma WrapIsPossible()
    ensures PlaceWrapped(4096, 8, 8192, WORD - 8, 1) == Inside(8) && Place(4096, 8, 8192, WORD - 8, 1) == Overflow
  {
    WordIsPow();
    AndHigh(4104, 64, 0);
    assert Pow2(0) == 1;
    AddMod(8, WORD);
  }
}
