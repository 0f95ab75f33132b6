/** The bump arena (src/arena.h). Addresses are natural numbers; SizeT.PlaceAgrees says when the
    64-bit code computes the same. */
module Arena {
  import opened SizeT

  /** The link word in front of an overflow block. */
  const HEADER: nat := 8

  /** An overflow block: `data[0]` lies at `addr + HEADER`. */
  datatype Block = Block(addr: nat, data: array<char>) {
    function Bottom(): nat { addr + HEADER }
    function Top(): nat { addr + HEADER + data.Length }
  }

  /** An allocation: `len` bytes of `mem` from `start`, at address `addr`. */
  datatype Region = Region(mem: array<char>, start: nat, addr: nat, len: nat) {
    function End(): nat { addr + len }
  }

  predicate Apart(a: Region, b: Region) { a.End() <= b.addr || b.End() <= a.addr }

  class Arena {
    const blockSize: nat
    const base: nat
    const main: array<char>
    var offset: nat
    var overflow: seq<Block>
    /** The allocations handed out since the last reset. */
    ghost var live: seq<Region>

    /** The arrays the arena owns. */
    ghost function Owned(): set<object>
      reads this
    {
      {main} + set b | b in overflow :: b.data
    }

    ghost predicate InMain(r: Region)
      reads this
    {
      r.mem == main && r.addr == base + r.start && r.start + r.len <= offset
    }

    ghost predicate InBlock(r: Region, b: Block) {
      r.mem == b.data && r.addr == b.Bottom() + r.start && r.start + r.len <= b.data.Length
    }

    ghost predicate Placed(r: Region)
      reads this
    {
      InMain(r) || exists b :: b in overflow && InBlock(r, b)
    }

    ghost predicate Valid()
      reads this
    {
      && offset <= main.Length
      && (forall b :: b in overflow ==> b.data != main && (b.Top() <= base || base + main.Length <= b.addr))
      && (forall i, j :: 0 <= i < j < |overflow| ==> overflow[i].Top() <= overflow[j].addr || overflow[j].Top() <= overflow[i].addr)
      && (forall r :: r in live ==> Placed(r))
      && (forall i, j :: 0 <= i < j < |live| ==> Apart(live[i], live[j]))
    }

    constructor (base: nat, blockSize: nat)
      ensures Valid() && live == [] && fresh(main) && this.base == base && main.Length == blockSize && overflow == []
      ensures this.blockSize == blockSize
    {
      this.base, this.blockSize := base, blockSize;
      main := new char[blockSize];
      offset, overflow, live := 0, [], [];
    }

    /** An address at which malloc may put `total` bytes: apart from every block in use. */
    predicate Free(addr: nat, total: nat)
      reads this
    {
      && (base + main.Length <= addr || addr + total <= base)
      && forall b :: b in overflow ==> b.Top() <= addr || addr + total <= b.addr
    }

    /** Above every block in use there is always room. */
    lemma RoomAbove(bs: seq<Block>) returns (top: nat)
      ensures base + main.Length <= top && forall b :: b in bs ==> b.Top() <= top
      decreases |bs|
    {
      if bs == [] {
        top := base + main.Length;
      } else {
        top := RoomAbove(bs[1..]);
        if top < bs[0].Top() { top := bs[0].Top(); }
      }
    }

    /** malloc: any address apart from the blocks in use. */
    method Malloc(total: nat) returns (at: nat)
      ensures Free(at, total)
    {
      ghost var top := RoomAbove(overflow);
      assert Free(top, total);
      at :| Free(at, total);
    }

    /** Allocates `n` bytes at a multiple of `align`. */
    method Alloc(n: nat, align: nat) returns (r: Region)
      requires Valid() && align > 0
      modifies this
      ensures Valid() && live == old(live) + [r]
      ensures r.len == n && r.addr % align == 0 && r.start + n <= r.mem.Length
      ensures forall k :: 0 <= k < |old(live)| ==> Apart(old(live)[k], r)
      ensures r.mem == main || fresh(r.mem)
      ensures Place(base, old(offset), main.Length, n, align).Inside? ==>
                r.mem == main && r.start == Place(base, old(offset), main.Length, n, align).offset
                && offset == r.start + n && overflow == old(overflow)
      ensures Place(base, old(offset), main.Length, n, align).Overflow? ==>
                fresh(r.mem) && offset == old(offset)
                && |overflow| == |old(overflow)| + 1 && overflow[1..] == old(overflow) && overflow[0].data == r.mem
      ensures Addressable(base, old(offset), main.Length, n, align) && NoWrap(base, old(offset), main.Length, n, align) ==>
                align <= WORD
                && PlaceWrapped(base, old(offset), main.Length, n, align) == if r.mem == main then Inside(r.start) else Overflow
    {
      hide NoWrap, Addressable, PlaceWrapped, Valid;
      InRange();
      if Addressable(base, offset, main.Length, n, align) && NoWrap(base, offset, main.Length, n, align) {
        WrapsExactly(base, offset, main.Length, n, align);
      }
      var p := Place(base, offset, main.Length, n, align);
      match p
      case Inside(start) =>
        r := Bump(start, n);
      case Overflow =>
        r := AllocOverflow(n, align);
    }

    /** Valid, as far as the bump offset goes. */
    lemma InRange()
      requires Valid()
      ensures offset <= main.Length
    {
    }

    /** Hands out `n` bytes of the main block from `start`. */
    method Bump(start: nat, n: nat) returns (r: Region)
      requires Valid() && offset <= start && start + n <= main.Length
      modifies this`offset, this`live
      ensures Valid() && live == old(live) + [r]
      ensures r == Region(main, start, base + start, n) && offset == start + n
      ensures forall k :: 0 <= k < |old(live)| ==> Apart(old(live)[k], r)
    {
      r := Region(main, start, base + start, n);
      ApartFromLive(r);
      offset := start + n;
      live := live + [r];
    }

    /** A place above the bump offset is apart from everything handed out. */
    lemma ApartFromLive(r: Region)
      requires Valid() && r.mem == main && r.addr == base + r.start && offset <= r.start && r.start + r.len <= main.Length
      ensures forall k :: 0 <= k < |live| ==> Apart(live[k], r)
    {
      forall k | 0 <= k < |live| ensures Apart(live[k], r) { assert Placed(live[k]); }
    }

    method AllocOverflow(n: nat, align: nat) returns (r: Region)
      requires Valid() && align > 0
      modifies this
      ensures Valid() && live == old(live) + [r]
      ensures r.len == n && r.addr % align == 0 && r.start + n <= r.mem.Length
      ensures forall k :: 0 <= k < |old(live)| ==> Apart(old(live)[k], r)
      ensures fresh(r.mem) && offset == old(offset)
      ensures |overflow| == |old(overflow)| + 1 && overflow[1..] == old(overflow) && overflow[0].data == r.mem
      ensures var b, total := overflow[0], HEADER + align + if n > blockSize then n else blockSize;
        IsAlignment(align) && b.Top() < WORD ==> align <= WORD && b.Top() - b.addr == total % WORD && r.addr == Masked(b.Bottom(), align)
    {
      hide *;
      var size := if n > blockSize then n else blockSize;
      var at := Malloc(HEADER + align + size);
      var data := new char[align + size];
      var b := Block(at, data);
      var aligned := RoundUp(b.Bottom(), align);
      r := Region(data, aligned - b.Bottom(), aligned, n);
      AlignedInside(b, r, align, size);
      Attach(b, r);
    }

    /** The aligned region lies inside its block, where the 64-bit code puts it when the block fits the address space. */
    lemma AlignedInside(b: Block, r: Region, align: nat, size: nat)
      requires align > 0 && b.data.Length == align + size && r.len <= size
      requires var aligned := RoundUp(b.Bottom(), align); r == Region(b.data, aligned - b.Bottom(), aligned, r.len)
      ensures b.Bottom() == b.addr + HEADER && b.Top() - b.addr == HEADER + align + size
      ensures InBlock(r, b) && r.addr % align == 0 && r.start + r.len <= r.mem.Length
      ensures IsAlignment(align) && b.Top() < WORD ==>
                align <= WORD && b.Top() - b.addr == (HEADER + align + size) % WORD && r.addr == Masked(b.Bottom(), align)
    {
      hide IsAlignment, Masked, RoundUp;
      if IsAlignment(align) && b.Top() < WORD {
        MaskInBlock(b.Bottom(), align);
        Unwrap(HEADER + align + size);
      }
    }

    /** Puts a new block at the head of the list and hands out `r` from it. */
    method Attach(b: Block, r: Region)
      requires Valid() && Free(b.addr, b.Top() - b.addr) && b.data != main && InBlock(r, b)
      modifies this`overflow, this`live
      ensures Valid() && live == old(live) + [r] && overflow == [b] + old(overflow)
      ensures forall k :: 0 <= k < |old(live)| ==> Apart(old(live)[k], r)
    {
      hide *;
      ApartFromBlocks(b, r);
      Push(b);
      InFirst(r, b);
      HandOut(r);
    }

    lemma InFirst(r: Region, b: Block)
      requires overflow != [] && overflow[0] == b && InBlock(r, b)
      ensures Placed(r)
    {
      hide InBlock, InMain;
    }

    method Push(b: Block)
      requires Valid() && Free(b.addr, b.Top() - b.addr) && b.data != main
      modifies this`overflow
      ensures Valid() && overflow == [b] + old(overflow)
    {
      hide Apart, InBlock;
      ghost var before := overflow;
      overflow := [b] + overflow;
      StillPlaced(before, b);
      assert forall c :: c in overflow <==> c == b || c in before;
    }

    /** Enters a region into the allocations handed out. */
    ghost method HandOut(r: Region)
      requires Valid() && Placed(r) && forall k :: 0 <= k < |live| ==> Apart(live[k], r)
      modifies this`live
      ensures Valid() && live == old(live) + [r]
    {
      hide Apart, InBlock;
      live := live + [r];
    }

    /** A region of a new block is apart from everything handed out. */
    lemma ApartFromBlocks(b: Block, r: Region)
      requires Valid() && Free(b.addr, b.Top() - b.addr) && InBlock(r, b)
      ensures forall k :: 0 <= k < |live| ==> Apart(live[k], r)
    {
      forall k | 0 <= k < |live| ensures Apart(live[k], r) {
        assert Placed(live[k]);
        if !InMain(live[k]) {
          var c :| c in overflow && InBlock(live[k], c);
        }
      }
    }

    lemma AllApart()
      requires Valid()
      ensures forall i, j :: 0 <= i < j < |live| ==> Apart(live[i], live[j])
    {
    }

    /** Adding a block in front moves nothing. */
    lemma StillPlaced(before: seq<Block>, b: Block)
      requires overflow == [b] + before
      ensures forall r :: InMain(r) || (exists c :: c in before && InBlock(r, c)) ==> Placed(r)
    {
    }

    /** Forgets every allocation; the main block is kept, overflow blocks are freed one by one. */
    method Reset()
      requires Valid()
      modifies this
      ensures Valid() && live == [] && offset == 0 && overflow == []
    {
      offset := 0;
      live := [];
      while overflow != []
        invariant Valid() && live == [] && offset == 0
        decreases |overflow|
      {
        overflow := overflow[1..];
      }
    }
  }

  /** Allocation number `k` serves its request: long enough, aligned, inside its block. */
  predicate Serves(r: Region, request: (nat, nat)) {
    request.1 > 0 && r.len == request.0 && r.addr % request.1 == 0 && r.start + r.len <= r.mem.Length
  }

  lemma ServesWhen(r: Region, request: (nat, nat))
    requires request.1 > 0 && r.len == request.0 && r.addr % request.1 == 0 && r.start + r.len <= r.mem.Length
    ensures Serves(r, request)
  {
  }

  /** The bump offset after `requests`, starting from `offset`, in unbounded arithmetic. */
  function Bumped(base: nat, offset: nat, cap: nat, requests: seq<(nat, nat)>): nat
    requires forall k :: 0 <= k < |requests| ==> requests[k].1 > 0
  {
    if requests == [] then offset
    else
      var so, last := Bumped(base, offset, cap, requests[..|requests| - 1]), requests[|requests| - 1];
      match Place(base, so, cap, last.0, last.1)
      case Inside(at) => at + last.0
      case Overflow => so
  }

  /** The same as the code computes it, modulo 2^64. */
  function BumpedWrapped(base: nat, offset: nat, cap: nat, requests: seq<(nat, nat)>): nat
    requires base < WORD && forall k :: 0 <= k < |requests| ==> 0 < requests[k].1 <= WORD
  {
    if requests == [] then offset
    else
      var so, last := BumpedWrapped(base, offset, cap, requests[..|requests| - 1]), requests[|requests| - 1];
      match PlaceWrapped(base, so, cap, last.0, last.1)
      case Inside(at) => (at + last.0) % WORD
      case Overflow => so
  }

  /** A request of an alignment the code is given, for a size that leaves room for the block and the alignment. */
  ghost predicate Small(cap: nat, request: (nat, nat)) {
    IsAlignment(request.1) && cap + request.1 + request.0 <= WORD
  }

  /** Over any run of such requests the offset never wraps. */
  lemma {:induction false} NeverWraps(base: nat, offset: nat, cap: nat, requests: seq<(nat, nat)>)
    requires 0 < base && base + cap < WORD && offset <= cap
    requires forall k :: 0 <= k < |requests| ==> 0 < requests[k].1 && Small(cap, requests[k])
    ensures forall k :: 0 <= k < |requests| ==> requests[k].1 <= WORD
    ensures Bumped(base, offset, cap, requests) == BumpedWrapped(base, offset, cap, requests) <= cap
  {
    hide PlaceWrapped, Place, IsAlignment;
    if requests != [] {
      var n := |requests| - 1;
      NeverWraps(base, offset, cap, requests[..n]);
      SamePlace(base, Bumped(base, offset, cap, requests[..n]), cap, requests[n]);
    }
  }

  /** One such request is placed as unbounded arithmetic would, inside the block or in a block of its own. */
  lemma SamePlace(base: nat, offset: nat, cap: nat, request: (nat, nat))
    requires 0 < base && base + cap < WORD && offset <= cap && 0 < request.1 && Small(cap, request)
    ensures request.1 <= WORD
    ensures var p := Place(base, offset, cap, request.0, request.1);
      && PlaceWrapped(base, offset, cap, request.0, request.1) == p
      && (p.Inside? ==> (p.offset + request.0) % WORD == p.offset + request.0 <= cap)
  {
    hide PlaceWrapped, IsAlignment, NoWrap, RoundUp;
    SmallIsSafe(base, offset, cap, request.0, request.1);
    WrapsExactly(base, offset, cap, request.0, request.1);
  }

  /** The k-th region is where the code, computing modulo 2^64 throughout, puts it. */
  ghost predicate AsWrapped(a: Arena, start: nat, r: Region, requests: seq<(nat, nat)>, k: nat)
    requires k < |requests| && a.base < WORD && forall i :: 0 <= i < |requests| ==> 0 < requests[i].1 <= WORD
  {
    var before := BumpedWrapped(a.base, start, a.main.Length, requests[..k]);
    PlaceWrapped(a.base, before, a.main.Length, requests[k].0, requests[k].1) == if r.mem == a.main then Inside(r.start) else Overflow
  }

  /** Every region a sequence of requests gets is in bounds, aligned, and apart from all the others; in a block the
      machine can hold, requests that leave room for it and their alignment are placed as the code places them. */
  method AllocateAll(a: Arena, requests: seq<(nat, nat)>) returns (got: seq<Region>)
    requires a.Valid() && a.live == []
    requires forall k :: 0 <= k < |requests| ==> requests[k].1 > 0
    modifies a
    ensures a.Valid() && a.live == got && |got| == |requests|
    ensures forall k :: 0 <= k < |got| ==> Serves(got[k], requests[k])
    ensures forall i, j :: 0 <= i < j < |got| ==> Apart(got[i], got[j])
    ensures a.offset == Bumped(a.base, old(a.offset), a.main.Length, requests)
    ensures 0 < a.base && a.base + a.main.Length < WORD && (forall k :: 0 <= k < |requests| ==> Small(a.main.Length, requests[k])) ==>
              (forall k :: 0 <= k < |requests| ==> requests[k].1 <= WORD)
              && forall k :: 0 <= k < |got| ==> AsWrapped(a, old(a.offset), got[k], requests, k)
  {
    hide *;
    got := [];
    a.InRange();
    ghost var fits := 0 < a.base && a.base + a.main.Length < WORD && forall k :: 0 <= k < |requests| ==> Small(a.main.Length, requests[k]);
    if fits { NeverWraps(a.base, a.offset, a.main.Length, requests); }
    Unbumped(a.base, a.offset, a.main.Length, requests);
    for k := 0 to |requests|
      invariant a.Valid() && a.live == got && |got| == k
      invariant forall i :: 0 <= i < |got| ==> Serves(got[i], requests[i])
      invariant a.offset == Bumped(a.base, old(a.offset), a.main.Length, requests[..k])
      invariant fits ==> forall i :: 0 <= i < |got| ==> AsWrapped(a, old(a.offset), got[i], requests, i)
    {
      var r := a.Alloc(requests[k].0, requests[k].1);
      BumpedMore(a.base, old(a.offset), a.main.Length, requests, k);
      if fits { PlacedAsWrapped(a, old(a.offset), r, requests, k); }
      assert Serves(r, requests[k]) by { ServesWhen(r, requests[k]); }
      got := got + [r];
    }
    assert requests[..|requests|] == requests;
    a.AllApart();
  }

  lemma Unbumped(base: nat, offset: nat, cap: nat, requests: seq<(nat, nat)>)
    requires forall k :: 0 <= k < |requests| ==> requests[k].1 > 0
    ensures Bumped(base, offset, cap, requests[..0]) == offset
  {
  }

  lemma BumpedMore(base: nat, offset: nat, cap: nat, requests: seq<(nat, nat)>, k: nat)
    requires k < |requests| && forall k :: 0 <= k < |requests| ==> requests[k].1 > 0
    ensures var so := Bumped(base, offset, cap, requests[..k]);
      Bumped(base, offset, cap, requests[..k + 1]) ==
      match Place(base, so, cap, requests[k].0, requests[k].1) { case Inside(at) => at + requests[k].0 case Overflow => so }
  {
    hide Place;
    assert requests[..k + 1][..k] == requests[..k];
  }

  /** The k-th region lies where Place puts it, so where PlaceWrapped does. */
  lemma PlacedAsWrapped(a: Arena, start: nat, r: Region, requests: seq<(nat, nat)>, k: nat)
    requires 0 < a.base && a.base + a.main.Length < WORD && start <= a.main.Length && k < |requests|
    requires forall i :: 0 <= i < |requests| ==> 0 < requests[i].1 <= WORD && Small(a.main.Length, requests[i])
    requires var so := Bumped(a.base, start, a.main.Length, requests[..k]);
      match Place(a.base, so, a.main.Length, requests[k].0, requests[k].1)
      case Inside(at) => r.mem == a.main && r.start == at
      case Overflow => r.mem != a.main
    ensures AsWrapped(a, start, r, requests, k)
  {
    hide Place, PlaceWrapped, Bumped, BumpedWrapped, Small;
    NeverWraps(a.base, start, a.main.Length, requests[..k]);
    SamePlace(a.base, Bumped(a.base, start, a.main.Length, requests[..k]), a.main.Length, requests[k]);
  }
}
