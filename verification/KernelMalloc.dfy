/** malloc, memalign and free of the kernel: chunks of the List Memory Manager with their
    size in front. */
module KernelMalloc {
  import opened DivMod
  import opened LmmNodes
  import opened LmmAlign
  import opened Lmm
  import opened LmmOps

  /** The bytes a chunk of the given size takes out of the free list. */
  ghost function Extent(chunk: nat, size: nat): iset<int> { Range(Down(chunk), ExtentEnd(chunk, size)) }

  ghost predicate InLive(live: map<nat, nat>, a: int) { exists c :: c in live && a in Extent(c, live[c]) }

  ghost function LiveBytes(live: map<nat, nat>): iset<int> { iset a | InLive(live, a) }

  /** The chunks in use are disjoint and lie in the regions; with what is free now they
      make up what was free at first. */
  ghost predicate Accounted(initial: seq<Region>, now: seq<Region>, live: map<nat, nat>) {
    && ValidRegions(initial) && ValidRegions(now) && SameRegions(initial, now)
    && FreeBytes(initial) == FreeBytes(now) + LiveBytes(live)
    && FreeBytes(now) !! LiveBytes(live)
    && (forall c :: c in live ==> live[c] > 0 && InOneRegion(now, Down(c), ExtentEnd(c, live[c])))
    && forall c, d :: c in live && d in live && c != d ==> Extent(c, live[c]) !! Extent(d, live[d])
  }

  /** Once every chunk has been freed the free lists are exactly what they were at first,
      whatever was allocated in between and in whatever order. */
  lemma AllFreed(initial: seq<Region>, now: seq<Region>)
    requires Accounted(initial, now, map[])
    ensures now == initial
  {
    assert LiveBytes(map[]) == iset{};
    RegionsUnique(initial, now);
  }

  lemma LiveAdd(live: map<nat, nat>, c: nat, size: nat)
    requires c !in live
    ensures LiveBytes(live[c := size]) == LiveBytes(live) + Extent(c, size)
  {
    var live' := live[c := size];
    forall a
      ensures InLive(live', a) <==> InLive(live, a) || a in Extent(c, size)
    {
      if d :| d in live && a in Extent(d, live[d]) { assert a in Extent(d, live'[d]); }
      if a in Extent(c, size) { assert a in Extent(c, live'[c]); }
    }
  }

  lemma LiveRemove(live: map<nat, nat>, c: nat)
    requires c in live
    requires forall d, e :: d in live && e in live && d != e ==> Extent(d, live[d]) !! Extent(e, live[e])
    ensures LiveBytes(live - {c}) == LiveBytes(live) - Extent(c, live[c])
  {
    var live' := live - {c};
    forall a
      ensures InLive(live', a) <==> InLive(live, a) && a !in Extent(c, live[c])
    {
      if d :| d in live && a in Extent(d, live[d]) && d != c { assert d in live' && a in Extent(d, live'[d]); }
      if d :| d in live' && a in Extent(d, live'[d]) { assert a in Extent(d, live[d]); }
    }
  }

  lemma LiveHead(live: map<nat, nat>, c: nat)
    requires c in live && live[c] > 0
    ensures Down(c) in LiveBytes(live)
  {
    ExtentIsUp(c, live[c]);
    assert Down(c) in Extent(c, live[c]);
    assert InLive(live, Down(c));
  }

  lemma OneRegionKept(rs: seq<Region>, rs': seq<Region>, lo: nat, hi: nat)
    requires SameRegions(rs, rs') && InOneRegion(rs, lo, hi)
    ensures InOneRegion(rs', lo, hi)
  {
    var k :| 0 <= k < |rs| && InRegion(rs[k], lo, hi);
    assert InRegion(rs'[k], lo, hi);
  }

  /** An allocation keeps the account. */
  lemma Allocated(initial: seq<Region>, now: seq<Region>, now': seq<Region>, live: map<nat, nat>, c: nat, size: nat)
    requires Accounted(initial, now, live) && size > 0
    requires Took(now, now', Down(c), ExtentEnd(c, size)) && InOneRegion(now, Down(c), ExtentEnd(c, size))
    ensures c !in live && Accounted(initial, now', live[c := size])
  {
    hide ValidRegions, FreeBytes, ExtentEnd, Down, InOneRegion;
    ExtentIsUp(c, size);
    assert Down(c) in Extent(c, size);
    if c in live { LiveHead(live, c); }
    LiveAdd(live, c, size);
    forall d | d in live
      ensures Extent(d, live[d]) !! Extent(c, size) && InOneRegion(now', Down(d), ExtentEnd(d, live[d]))
    {
      assert forall a :: a in Extent(d, live[d]) ==> InLive(live, a);
      OneRegionKept(now, now', Down(d), ExtentEnd(d, live[d]));
    }
    OneRegionKept(now, now', Down(c), ExtentEnd(c, size));
  }

  /** Freeing a chunk keeps the account. */
  lemma Freed(initial: seq<Region>, now: seq<Region>, now': seq<Region>, live: map<nat, nat>, c: nat)
    requires Accounted(initial, now, live) && c in live && Gave(now, now', Down(c), ExtentEnd(c, live[c]))
    ensures Accounted(initial, now', live - {c})
  {
    hide ValidRegions, FreeBytes, ExtentEnd, Down, InOneRegion;
    LiveRemove(live, c);
    assert forall a :: a in Extent(c, live[c]) ==> InLive(live, a);
    forall d | d in live
      ensures InOneRegion(now', Down(d), ExtentEnd(d, live[d]))
    {
      OneRegionKept(now, now', Down(d), ExtentEnd(d, live[d]));
    }
  }

  /** What can be freed. */
  lemma CanFree(initial: seq<Region>, now: seq<Region>, live: map<nat, nat>, c: nat)
    requires Accounted(initial, now, live) && c in live
    ensures live[c] > 0 && InOneRegion(now, Down(c), ExtentEnd(c, live[c])) && Extent(c, live[c]) !! FreeBytes(now)
  {
    assert forall a :: a in Extent(c, live[c]) ==> InLive(live, a);
  }

  /** A block that was found lies in one region. */
  lemma FoundInRegion(rs: seq<Region>, q: Request, k: nat, i: nat, a: nat)
    requires ValidRegions(rs) && FirstFit(rs, q, k, i, a) && q.size > 0
    ensures InOneRegion(rs, Down(a), ExtentEnd(a, q.size)) && a >= 8
  {
    hide Canonical, Agree;
    assert ValidRegion(rs[k]);
    NodeIsGood(rs[k].nodes, i);
    ExtentIsUp(a, q.size);
    GoodEnds(rs[k].nodes[i]);
    assert InRegion(rs[k], Down(a), ExtentEnd(a, q.size));
  }

  lemma GoodEnds(n: Node)
    requires GoodNode(n)
    ensures Aligned(n.addr) && Aligned(EndOf(n))
  {
  }

  // --------------------------------------------------------------- 32-bit sizes

  /** The size with its prefix, and that rounded up, in 32-bit arithmetic. */
  function WithPrefix(size: nat): nat { (size + 4) % ADDRESSES }

  function Rounded(size: nat): nat { (size + 7) % ADDRESSES / 8 * 8 }

  /** malloc asks for enough if and only if adding the prefix and rounding up do not wrap
      around. */
  lemma RequestIsEnough(size: nat)
    requires size < ADDRESSES
    ensures Rounded(WithPrefix(size)) >= size + 4 <==> size + 4 + 7 < ADDRESSES
  {
  }

  predicate NoWrap(size: nat) { size + 4 + 7 < ADDRESSES }

  // ---------------------------------------------------------------------- the heap

  class KernelHeap {
    const lmm: Allocator
    var words: map<nat, nat>
    ghost var live: map<nat, nat>
    ghost const initial: seq<Region>

    /** Every chunk in use still has its size in front of it. */
    ghost predicate Valid()
      reads this, lmm
    {
      && Accounted(initial, lmm.regions, live)
      && forall c :: c in live ==> c in words && words[c] == live[c]
    }

    constructor (l: Allocator)
      requires l.Valid()
      ensures Valid() && lmm == l && initial == l.regions && live == map[]
    {
      lmm := l;
      words := map[];
      live := map[];
      initial := l.regions;
      assert LiveBytes(map[]) == iset{};
    }

    /** _malloc */
    method Malloc(size: nat) returns (p: nat)
      requires Valid() && NoWrap(size)
      modifies this, lmm
      ensures Valid()
      ensures p == 0 ==> live == old(live) && lmm.regions == old(lmm.regions) && NoFit(lmm.regions, Plain(size + 4, 0))
      ensures p == 0 ==> forall n :: InList(lmm.regions, n) ==> n.size < size + 4
      ensures p != 0 ==> p >= 4 && p - 4 !in old(live) && live == old(live)[p - 4 := size + 4]
      ensures p != 0 ==> Took(old(lmm.regions), lmm.regions, Down(p - 4), ExtentEnd(p - 4, size + 4))
      ensures p != 0 ==> Range(p, p + size) <= Extent(p - 4, size + 4)
    {
      hide Accounted, Took, FirstFit, NoFit, Extent, ExtentEnd, Down, Up, Plain, InList;
      var total := WithPrefix(size);
      assert total == size + 4;
      AccountedValid(initial, lmm.regions, live);
      PlainNoFit(lmm.regions, size + 4);
      var chunk, k, i := lmm.Alloc(total, 0);
      if chunk == 0 {
        return 0;
      }
      PlainChunk(old(lmm.regions), total, k, i, chunk);
      Allocated(initial, old(lmm.regions), lmm.regions, live, chunk, total);
      PayloadInside(chunk, size);
      words := words[chunk := total];
      live := live[chunk := total];
      p := chunk + 4;
    }

    /** The extent lmm_free will compute for a chunk of lmm_alloc is the one that was
        taken. */
    lemma PlainChunk(rs: seq<Region>, total: nat, k: nat, i: nat, chunk: nat)
      requires ValidRegions(rs) && total > 0 && FirstFit(rs, Plain(total, 0), k, i, chunk) && Aligned(chunk)
      ensures Down(chunk) == chunk && ExtentEnd(chunk, total) == chunk + Up(total)
      ensures InOneRegion(rs, Down(chunk), ExtentEnd(chunk, total))
    {
      hide ValidRegions, FirstFit;
      FoundInRegion(rs, Plain(total, 0), k, i, chunk);
    }

    lemma PayloadInside(chunk: nat, size: nat)
      ensures Range(chunk + 4, chunk + 4 + size) <= Extent(chunk, size + 4)
    {
      ExtentIsUp(chunk, size + 4);
    }

    /** What _memalign asks lmm_alloc_gen for: a chunk four bytes short of alignment. */
    static function BehindAligned(total: nat, shift: nat): Request {
      Request(total, 0, shift, (Pow2(shift) - 4) % ADDRESSES, 0, ADDRESSES - 1)
    }

    /** _memalign: the result is a multiple of the least power of two that is not below
        the alignment asked for. */
    method Memalign(alignment: nat, size: nat) returns (p: nat, shift: nat)
      requires Valid() && NoWrap(size) && alignment <= Pow2(30)
      modifies this, lmm
      ensures Valid()
      ensures alignment <= Pow2(shift) && forall s: nat :: s < shift ==> Pow2(s) < alignment
      ensures p == 0 ==> live == old(live) && lmm.regions == old(lmm.regions) && NoFit(lmm.regions, BehindAligned(size + 4, shift))
      ensures p == 0 ==> forall n, a: nat :: InList(lmm.regions, n) && RoomAt(n, a, size) ==> (a + 4) % Pow2(shift) != 0
      ensures p != 0 ==> p >= 4 && p - 4 !in old(live) && live == old(live)[p - 4 := size + 4] && p % Pow2(shift) == 0
      ensures p != 0 ==> Took(old(lmm.regions), lmm.regions, Down(p - 4), ExtentEnd(p - 4, size + 4))
      ensures p != 0 ==> Range(p, p + size) <= Extent(p - 4, size + 4)
    {
      hide Accounted, Took, FirstFit, NoFit, Extent, ExtentEnd, Down, Up, Pow2, Agree, InList;
      shift := FindShift(alignment);
      var total := WithPrefix(size);
      assert total == size + 4;
      AccountedValid(initial, lmm.regions, live);
      var q := BehindAligned(total, shift);
      AlignedNoFit(lmm.regions, size, shift);
      var chunk, k, i := lmm.AllocGen(q);
      if chunk == 0 {
        return 0, shift;
      }
      FoundInRegion(old(lmm.regions), q, k, i, chunk);
      FoundAligned(old(lmm.regions), q, k, i, chunk);
      PrefixAlign(chunk, shift);
      Allocated(initial, old(lmm.regions), lmm.regions, live, chunk, total);
      PayloadInside(chunk, size);
      words := words[chunk := total];
      live := live[chunk := total];
      p := chunk + 4;
    }

    /** Without a fit no free node has an aligned place behind a prefix. */
    lemma AlignedNoFit(rs: seq<Region>, size: nat, shift: nat)
      requires ValidRegions(rs) && shift <= 30
      ensures NoFit(rs, BehindAligned(size + 4, shift)) ==> forall n, a: nat :: InList(rs, n) && RoomAt(n, a, size) ==> (a + 4) % Pow2(shift) != 0
    {
      hide Agree, Canonical, Sum;
      forall n, a: nat | NoFit(rs, BehindAligned(size + 4, shift)) && InList(rs, n) && RoomAt(n, a, size)
        ensures (a + 4) % Pow2(shift) != 0
      {
        var k, i :| 0 <= k < |rs| && 0 <= i < |rs[k].nodes| && rs[k].nodes[i] == n;
        assert ValidRegion(rs[k]) && NoFitIn(rs[k], BehindAligned(size + 4, shift));
        NoFlags(rs[k]);
        assert !FitsNode(n, BehindAligned(size + 4, shift), a);
        if (a + 4) % Pow2(shift) == 0 { AlignedPrefix(a, shift); }
      }
    }

    lemma FoundAligned(rs: seq<Region>, q: Request, k: nat, i: nat, a: nat)
      requires FirstFit(rs, q, k, i, a)
      ensures Agree(a, q.ofs, q.bits)
    {
    }

    /** The shift loop of _memalign. */
    method FindShift(alignment: nat) returns (shift: nat)
      requires alignment <= Pow2(30)
      ensures shift <= 30 && alignment <= Pow2(shift) && forall s: nat :: s < shift ==> Pow2(s) < alignment
    {
      hide Pow2;
      shift := 0;
      while Pow2(shift) < alignment
        invariant shift <= 30 && forall s: nat :: s < shift ==> Pow2(s) < alignment
        decreases 30 - shift
      {
        shift := shift + 1;
      }
    }

    /** _free */
    method Free(p: nat)
      requires Valid() && p >= 4 && p - 4 in live
      modifies this, lmm
      ensures Valid() && live == old(live) - {p - 4}
      ensures Gave(old(lmm.regions), lmm.regions, Down(p - 4), ExtentEnd(p - 4, old(live)[p - 4]))
    {
      hide Accounted, Gave, FreeBytes, ExtentEnd, Down, InOneRegion;
      var chunk := p - 4;
      CanFree(initial, lmm.regions, live, chunk);
      AccountedValid(initial, lmm.regions, live);
      lmm.Free(chunk, words[chunk]);
      Freed(initial, old(lmm.regions), lmm.regions, live, chunk);
      live := live - {chunk};
    }

    /** A block that is freed at once leaves the free lists as they were. */
    method MallocThenFree(size: nat)
      requires Valid() && NoWrap(size)
      modifies this, lmm
      ensures Valid() && lmm.regions == old(lmm.regions) && live == old(live)
    {
      hide Accounted, Took, Gave, NoFit, ExtentEnd, Down;
      ghost var before := lmm.regions;
      AccountedValid(initial, before, live);
      var p := Malloc(size);
      if p != 0 {
        ghost var between := lmm.regions;
        Free(p);
        TakeGive(before, between, lmm.regions, Down(p - 4), ExtentEnd(p - 4, size + 4));
      }
    }

    /** So does an aligned one. */
    method MemalignThenFree(alignment: nat, size: nat)
      requires Valid() && NoWrap(size) && alignment <= Pow2(30)
      modifies this, lmm
      ensures Valid() && lmm.regions == old(lmm.regions) && live == old(live)
    {
      hide Accounted, Took, Gave, NoFit, ExtentEnd, Down, Pow2;
      ghost var before := lmm.regions;
      AccountedValid(initial, before, live);
      var p, shift := Memalign(alignment, size);
      if p != 0 {
        ghost var between := lmm.regions;
        Free(p);
        TakeGive(before, between, lmm.regions, Down(p - 4), ExtentEnd(p - 4, size + 4));
      }
    }
  }

  lemma AccountedValid(initial: seq<Region>, now: seq<Region>, live: map<nat, nat>)
    requires Accounted(initial, now, live)
    ensures ValidRegions(now)
  {
  }

  /** Behind a prefix of four bytes, a chunk that agrees with the offset is aligned. */
  lemma PrefixAlign(chunk: nat, shift: nat)
    requires shift <= 30 && Agree(chunk, (Pow2(shift) - 4) % ADDRESSES, shift)
    ensures (chunk + 4) % Pow2(shift) == 0
  {
    if shift >= 2 {
      Pow2Values();
      Pow2Monotone(2, shift);
      Pow2Monotone(shift, 30);
      BehindPrefix(chunk, Pow2(shift));
    }
  }

  /** And only such chunks are. */
  lemma AlignedPrefix(chunk: nat, shift: nat)
    requires shift <= 30 && (chunk + 4) % Pow2(shift) == 0
    ensures Agree(chunk, (Pow2(shift) - 4) % ADDRESSES, shift)
  {
    if shift >= 2 {
      Pow2Values();
      Pow2Monotone(2, shift);
      Pow2Monotone(shift, 30);
      BeforeAligned(chunk, Pow2(shift));
    }
  }

  lemma BeforeAligned(chunk: nat, p: nat)
    requires 4 <= p < ADDRESSES && (chunk + 4) % p == 0
    ensures chunk % p == (p - 4) % ADDRESSES % p
  {
    var q := (chunk + 4) / p;
    OneMore(p, q - 1);
    ModUnique(chunk, p, q - 1, p - 4);
    ModUnique(p - 4, p, 0, p - 4);
  }

  /** A region of any kind serves a request without flags. */
  lemma NoFlags(r: Region)
    ensures Compatible(0, r)
  {
  }

  /** From `a` on the node has room for a prefix and `size` bytes. */
  predicate RoomAt(n: Node, a: nat, size: nat) { n.addr <= a && a + 4 + size <= EndOf(n) }

  ghost predicate InList(rs: seq<Region>, n: Node) { exists k, i :: 0 <= k < |rs| && 0 <= i < |rs[k].nodes| && rs[k].nodes[i] == n }

  /** Without a fit for a plain block every free node is too small. */
  lemma PlainNoFit(rs: seq<Region>, total: nat)
    requires ValidRegions(rs)
    ensures NoFit(rs, Plain(total, 0)) ==> forall n :: InList(rs, n) ==> n.size < total
  {
    hide Canonical, Sum;
    forall n | NoFit(rs, Plain(total, 0)) && InList(rs, n)
      ensures n.size < total
    {
      var k, i :| 0 <= k < |rs| && 0 <= i < |rs[k].nodes| && rs[k].nodes[i] == n;
      assert ValidRegion(rs[k]) && NoFitIn(rs[k], Plain(total, 0));
      NodeIsGood(rs[k].nodes, i);
      NoFlags(rs[k]);
      assert !FitsNode(n, Plain(total, 0), n.addr);
      WholeSize(n, total);
    }
  }

  lemma WholeSize(n: Node, total: nat)
    requires GoodNode(n)
    ensures n.size >= total ==> n.size >= Up(total)
    ensures Agree(n.addr, 0, 0)
  {
  }

  lemma BehindPrefix(chunk: nat, p: nat)
    requires 4 <= p < ADDRESSES && chunk % p == (p - 4) % ADDRESSES % p
    ensures (chunk + 4) % p == 0
  {
    ModUnique(p - 4, p, 0, p - 4);
    OneMore(p, chunk / p);
    ModUnique(chunk + 4, p, chunk / p + 1, 0);
  }

  lemma {:induction false} Pow2Monotone(i: nat, j: nat)
    requires i <= j
    ensures Pow2(i) <= Pow2(j)
  {
    if i < j { Pow2Monotone(i, j - 1); }
  }

  lemma {:induction false} Pow2Add(i: nat, j: nat)
    ensures Pow2(i + j) == Pow2(i) * Pow2(j)
  {
    if j > 0 { Pow2Add(i, j - 1); }
  }

  lemma Pow2Values()
    ensures Pow2(2) == 4 && Pow2(30) == 0x4000_0000
  {
    assert Pow2(3) == 8;
    Pow2Add(3, 2);
    Pow2Add(5, 5);
    Pow2Add(10, 5);
    Pow2Add(15, 15);
  }
}
