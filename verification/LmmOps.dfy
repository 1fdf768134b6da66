/** The operations of the List Memory Manager. */
module LmmOps {
  import opened LmmNodes
  import opened LmmAlign
  import opened Lmm

  const ADDRESSES: nat := 0x1_0000_0000

  /** What a caller of lmm_alloc_gen asks for. */
  datatype Request = Request(size: nat, flags: bv32, bits: nat, ofs: nat, inMin: nat, inMax: nat)

  predicate Compatible(flags: bv32, r: Region) { flags & !r.flags == 0 }

  /** The limits within which the arithmetic of lmm_alloc_gen is exact. */
  predicate GoodRequest(q: Request) {
    0 < q.size && q.bits <= 30 && q.inMin <= q.inMax < ADDRESSES
  }

  /** A block at `a` of node `n` that meets the request. */
  ghost predicate FitsNode(n: Node, q: Request, a: nat) {
    n.addr <= a && a + q.size <= EndOf(n) && q.inMin <= a && a + q.size <= q.inMax && Agree(a, q.ofs, q.bits)
  }

  ghost predicate NoFitBelow(nodes: seq<Node>, q: Request, i: nat) {
    forall j, a: nat :: 0 <= j < i && j < |nodes| ==> !FitsNode(nodes[j], q, a)
  }

  ghost predicate NoFitIn(r: Region, q: Request) { Compatible(q.flags, r) ==> NoFitBelow(r.nodes, q, |r.nodes|) }

  /** No region has a block that meets the request. */
  ghost predicate NoFit(rs: seq<Region>, q: Request) { forall k :: 0 <= k < |rs| ==> NoFitIn(rs[k], q) }

  /** The block at `a` is the lowest one that fits in the first region that has any. */
  ghost predicate FirstFit(rs: seq<Region>, q: Request, k: nat, i: nat, a: nat) {
    && k < |rs| && i < |rs[k].nodes| && Compatible(q.flags, rs[k])
    && (forall j :: 0 <= j < k ==> NoFitIn(rs[j], q))
    && NoFitBelow(rs[k].nodes, q, i)
    && FitsNode(rs[k].nodes[i], q, a)
    && forall b: nat :: FitsNode(rs[k].nodes[i], q, b) ==> a <= b
  }

  // ---------------------------------------------------------------- facts about fits

  /** A node whose least suitable address leaves no room holds no block that fits. */
  lemma TooSmall(n: Node, q: Request, start: nat, addr: nat)
    requires start == (if n.addr < q.inMin then q.inMin else n.addr) && LeastFrom(start, q.ofs, q.bits, addr)
    requires addr + q.size > EndOf(n)
    ensures forall a: nat :: !FitsNode(n, q, a)
  {
    forall a: nat
      ensures !FitsNode(n, q, a)
    {
      if start <= a && Agree(a, q.ofs, q.bits) { assert addr <= a; }
    }
  }

  /** A block that reaches past the range here does so in every later node too, so the
      early break loses no block. */
  lemma BreakIsSafe(nodes: seq<Node>, q: Request, i: nat, start: nat, addr: nat)
    requires Canonical(nodes) && i < |nodes| && NoFitBelow(nodes, q, i)
    requires start == (if nodes[i].addr < q.inMin then q.inMin else nodes[i].addr) && LeastFrom(start, q.ofs, q.bits, addr)
    requires addr + q.size > q.inMax
    ensures NoFitBelow(nodes, q, |nodes|)
  {
    forall j, a: nat | i <= j < |nodes|
      ensures !FitsNode(nodes[j], q, a)
    {
      if j > i { Order(nodes, i, j); }
      if start <= a && Agree(a, q.ofs, q.bits) { assert addr <= a; }
    }
  }

  lemma NoFitNext(nodes: seq<Node>, q: Request, i: nat)
    requires i < |nodes| && NoFitBelow(nodes, q, i) && forall a: nat :: !FitsNode(nodes[i], q, a)
    ensures NoFitBelow(nodes, q, i + 1)
  {
  }

  /** A region outside the range holds no block that fits. */
  lemma OutOfRange(r: Region, q: Request)
    requires ValidRegion(r) && 0 < q.size && (r.min >= q.inMax || r.max <= q.inMin)
    ensures NoFitBelow(r.nodes, q, |r.nodes|)
  {
    forall j, a: nat | 0 <= j < |r.nodes|
      ensures !FitsNode(r.nodes[j], q, a)
    {
      assert r.min <= r.nodes[j].addr && EndOf(r.nodes[j]) <= r.max;
    }
  }

  lemma LeastFits(n: Node, q: Request, start: nat, addr: nat)
    requires start == (if n.addr < q.inMin then q.inMin else n.addr) && LeastFrom(start, q.ofs, q.bits, addr)
    requires addr + q.size <= EndOf(n) && addr + q.size <= q.inMax
    ensures FitsNode(n, q, addr) && forall b: nat :: FitsNode(n, q, b) ==> addr <= b
  {
  }

  /** The extent that a block of `size` bytes at `addr` takes out of the free list. */
  function ExtentEnd(addr: nat, size: nat): nat { Down(addr) + Up(addr - Down(addr) + size) }

  lemma ExtentIsUp(addr: nat, size: nat)
    requires size > 0
    ensures ExtentEnd(addr, size) == Up(addr + size) && Aligned(ExtentEnd(addr, size)) && Down(addr) < ExtentEnd(addr, size)
    ensures forall e: nat :: Aligned(e) && addr + size <= e ==> ExtentEnd(addr, size) <= e
    ensures forall s: nat :: Aligned(s) && s <= addr ==> s <= Down(addr)
  {
  }

  class Allocator {
    var regions: seq<Region>

    ghost predicate Valid()
      reads this
    {
      ValidRegions(regions)
    }

    /** The node loop of lmm_alloc_gen on one region: the first node that holds a block
        and the lowest address for it, or none at all. */
    method ScanRegion(r: Region, q: Request) returns (found: bool, i: nat, addr: nat)
      requires ValidRegion(r) && GoodRequest(q) && r.min < q.inMax && q.inMin < r.max
      ensures found ==> i < |r.nodes| && NoFitBelow(r.nodes, q, i) && FitsNode(r.nodes[i], q, addr)
      ensures found ==> forall b: nat :: FitsNode(r.nodes[i], q, b) ==> addr <= b
      ensures !found ==> NoFitBelow(r.nodes, q, |r.nodes|)
    {
      hide LeastFrom, Agree, FitsNode, NoFitBelow, Canonical;
      i, addr, found := 0, 0, false;
      NothingBelow(r.nodes, q);
      while i < |r.nodes|
        invariant 0 <= i <= |r.nodes| && NoFitBelow(r.nodes, q, i)
      {
        var node := r.nodes[i];
        var start := if node.addr < q.inMin then q.inMin else node.addr;
        addr := AlignFrom(start, q.ofs, q.bits);
        if node.size < q.size || addr - node.addr + q.size > node.size {
          TooSmall(node, q, start, addr);
        } else if addr + q.size > q.inMax {
          BreakIsSafe(r.nodes, q, i, start, addr);
          return false, i, addr;
        } else {
          LeastFits(node, q, start, addr);
          return true, i, addr;
        }
        NoFitNext(r.nodes, q, i);
        i := i + 1;
      }
    }

    /** Cut bytes out of node `i` of region `k`, as lmm_alloc and lmm_alloc_gen do: split
        off what is before them, and what is after them. */
    method Carve(k: nat, i: nat, lo: nat, hi: nat)
      requires Valid() && k < |regions| && i < |regions[k].nodes|
      requires regions[k].nodes[i].addr <= lo < hi <= EndOf(regions[k].nodes[i]) && Aligned(lo) && Aligned(hi)
      modifies this
      ensures Valid() && Took(old(regions), regions, lo, hi)
    {
      hide Canonical, Bytes, Sum, Aligned, Took;
      var reg := regions[k];
      var node := reg.nodes[i];
      CarveFacts(reg, i, lo, hi);
      var before, after := reg.nodes[..i], reg.nodes[i + 1..];
      var anode := node;
      if lo > node.addr {
        before := before + [Node(node.addr, lo - node.addr)];
        anode := Node(lo, node.size - (lo - node.addr));
      }
      if anode.size > hi - lo {
        after := [Node(anode.addr + (hi - lo), anode.size - (hi - lo))] + after;
      }
      assert before + after == Taken(reg.nodes, i, lo, hi);
      TakeUpdate(regions, k, before + after, reg.free - (hi - lo), lo, hi);
      regions := regions[k := reg.(nodes := before + after, free := reg.free - (hi - lo))];
    }

    lemma CarveFacts(reg: Region, i: nat, lo: nat, hi: nat)
      requires ValidRegion(reg) && i < |reg.nodes|
      requires reg.nodes[i].addr <= lo < hi <= EndOf(reg.nodes[i]) && Aligned(lo) && Aligned(hi)
      ensures var t := Taken(reg.nodes, i, lo, hi);
              && Canonical(t) && Inside(t, reg.min, reg.max) && Sum(t) + (hi - lo) == reg.free
              && Bytes(t) == Bytes(reg.nodes) - Range(lo, hi) && Range(lo, hi) <= Bytes(reg.nodes)
    {
      TakenCanonical(reg.nodes, i, lo, hi);
      TakenInside(reg.nodes, i, lo, hi, reg.min, reg.max);
      Around(reg.nodes, i);
    }

    /** lmm_alloc_gen. The block is the lowest that fits in the first region where one
        does; 0 means that no region has a block to offer. */
    method AllocGen(q: Request) returns (addr: nat, ghost k: nat, ghost i: nat)
      requires Valid() && GoodRequest(q)
      modifies this
      ensures Valid()
      ensures addr == 0 ==> regions == old(regions) && NoFit(regions, q)
      ensures addr != 0 ==> FirstFit(old(regions), q, k, i, addr) && Took(old(regions), regions, Down(addr), ExtentEnd(addr, q.size))
    {
      hide Compatible, FitsNode, NoFitBelow, Took, Canonical, Inside, Bytes, Sum, Aligned, ExtentEnd, Down, Up, Apart;
      var r := 0;
      while r < |regions|
        invariant 0 <= r <= |regions| && regions == old(regions)
        invariant forall j :: 0 <= j < r ==> NoFitIn(regions[j], q)
      {
        var reg := regions[r];
        if Compatible(q.flags, reg) {
          if reg.min >= q.inMax || reg.max <= q.inMin {
            OutOfRange(reg, q);
          } else {
            var found, n, a := ScanRegion(reg, q);
            if found {
              addr, k, i := a, r, n;
              FitExtent(reg, q, n, addr);
              Carve(r, n, Down(addr), ExtentEnd(addr, q.size));
              return;
            }
          }
        }
        r := r + 1;
      }
      addr, k, i := 0, 0, 0;
    }

    lemma FitExtent(reg: Region, q: Request, i: nat, addr: nat)
      requires ValidRegion(reg) && i < |reg.nodes| && FitsNode(reg.nodes[i], q, addr) && q.size > 0
      ensures reg.nodes[i].addr <= Down(addr) < ExtentEnd(addr, q.size) <= EndOf(reg.nodes[i])
      ensures Aligned(ExtentEnd(addr, q.size)) && addr >= 8
    {
      hide Canonical, Agree, ExtentEnd, Down, Up;
      var n := reg.nodes[i];
      NodeIsGood(reg.nodes, i);
      NodeEnds(n);
      ExtentIsUp(addr, q.size);
    }

    lemma NodeEnds(n: Node)
      requires GoodNode(n)
      ensures Aligned(n.addr) && Aligned(EndOf(n))
    {
    }

    /** lmm_alloc: first fit on the rounded size, which is lmm_alloc_gen without any
        constraint. */
    method Alloc(size: nat, flags: bv32) returns (addr: nat, ghost k: nat, ghost i: nat)
      requires Valid() && 0 < size && size + 7 < ADDRESSES
      modifies this
      ensures Valid()
      ensures addr == 0 ==> regions == old(regions) && NoFit(regions, Plain(size, flags))
      ensures addr != 0 ==> FirstFit(old(regions), Plain(size, flags), k, i, addr)
      ensures addr != 0 ==> Aligned(addr) && Took(old(regions), regions, addr, addr + Up(size))
    {
      hide Compatible, FitsNode, NoFitBelow, Took, Canonical, Inside, Bytes, Sum, Up, Apart;
      var rounded := Up(size);
      var r := 0;
      while r < |regions|
        invariant 0 <= r <= |regions| && regions == old(regions)
        invariant forall j :: 0 <= j < r ==> NoFitIn(regions[j], Plain(size, flags))
      {
        var reg := regions[r];
        if Compatible(flags, reg) {
          var found, n := ScanSizes(reg, rounded, flags);
          if found {
            addr, k, i := reg.nodes[n].addr, r, n;
            HeadFits(reg, n, rounded, flags);
            Carve(r, n, addr, addr + rounded);
            return;
          }
        }
        r := r + 1;
      }
      addr, k, i := 0, 0, 0;
    }

    /** The node loop of lmm_alloc. */
    method ScanSizes(r: Region, rounded: nat, flags: bv32) returns (found: bool, i: nat)
      requires ValidRegion(r) && rounded > 0
      ensures found ==> i < |r.nodes| && r.nodes[i].size >= rounded && NoFitBelow(r.nodes, Unbounded(rounded, flags), i)
      ensures !found ==> NoFitBelow(r.nodes, Unbounded(rounded, flags), |r.nodes|)
    {
      i := 0;
      while i < |r.nodes|
        invariant 0 <= i <= |r.nodes| && NoFitBelow(r.nodes, Unbounded(rounded, flags), i)
      {
        if r.nodes[i].size >= rounded {
          return true, i;
        }
        i := i + 1;
      }
      found := false;
    }

    lemma HeadFits(reg: Region, i: nat, rounded: nat, flags: bv32)
      requires ValidRegion(reg) && i < |reg.nodes| && 0 < rounded <= reg.nodes[i].size && Aligned(rounded)
      ensures var n := reg.nodes[i];
              && 8 <= n.addr && Aligned(n.addr) && Aligned(n.addr + rounded) && n.addr + rounded <= EndOf(n)
              && FitsNode(n, Unbounded(rounded, flags), n.addr)
              && forall b: nat :: FitsNode(n, Unbounded(rounded, flags), b) ==> n.addr <= b
    {
      NodeIsGood(reg.nodes, i);
    }

    // ------------------------------------------------------------------- giving back

    /** lmm_free. The block is the rounded extent of one that was taken. */
    method Free(block: nat, size: nat)
      requires Valid() && size > 0
      requires InOneRegion(regions, Down(block), ExtentEnd(block, size))
      requires Range(Down(block), ExtentEnd(block, size)) !! FreeBytes(regions)
      modifies this
      ensures Valid() && Gave(old(regions), regions, Down(block), ExtentEnd(block, size))
    {
      hide ValidRegions, Canonical, Bytes, Sum, Aligned, Gave, ExtentEnd, Down, Up, Range;
      var node, end := Down(block), ExtentEnd(block, size);
      ExtentIsUp(block, size);
      var k := FindRegion(node, end);
      Give(k, node, end);
    }

    /** The search for the region of a block. */
    method FindRegion(node: nat, ghost end: nat) returns (k: nat)
      requires Valid() && node < end && InOneRegion(regions, node, end)
      ensures k < |regions| && regions[k].min <= node && end <= regions[k].max
    {
      ghost var j :| 0 <= j < |regions| && InRegion(regions[j], node, end);
      k := 0;
      while !(regions[k].min <= node < regions[k].max)
        invariant k <= j < |regions|
        decreases j - k
      {
        k := k + 1;
      }
      assert k != j ==> Apart(regions[j], regions[k]);
    }

    /** The search for the place of a block in a free list. */
    method FindPlace(nodes: seq<Node>, node: nat) returns (i: nat)
      ensures Place(nodes, i, node)
    {
      i := 0;
      while i < |nodes| && nodes[i].addr < node
        invariant 0 <= i <= |nodes| && (i > 0 ==> nodes[i - 1].addr < node)
      {
        i := i + 1;
      }
    }

    /** The insertion, with its four cases of coalescing. */
    method Give(k: nat, lo: nat, hi: nat)
      requires Valid() && k < |regions| && regions[k].min <= lo < hi <= regions[k].max
      requires Aligned(lo) && Aligned(hi) && Range(lo, hi) !! FreeBytes(regions)
      modifies this
      ensures Valid() && Gave(old(regions), regions, lo, hi)
    {
      hide ValidRegions, Canonical, Bytes, Sum, Aligned, Gave, Range, Place;
      var reg := regions[k];
      var i := FindPlace(reg.nodes, lo);
      GiveFacts(regions, k, i, lo, hi);
      var nodes;
      if i > 0 && EndOf(reg.nodes[i - 1]) >= lo {
        var prev := reg.nodes[i - 1];
        assert EndOf(prev) == lo;
        if i < |reg.nodes| && hi >= reg.nodes[i].addr {
          nodes := reg.nodes[..i - 1] + [Node(prev.addr, prev.size + (hi - lo) + reg.nodes[i].size)] + reg.nodes[i + 1..];
        } else {
          nodes := reg.nodes[..i - 1] + [Node(prev.addr, prev.size + (hi - lo))] + reg.nodes[i..];
        }
      } else {
        if i < |reg.nodes| && hi >= reg.nodes[i].addr {
          nodes := reg.nodes[..i] + [Node(lo, (hi - lo) + reg.nodes[i].size)] + reg.nodes[i + 1..];
        } else {
          nodes := reg.nodes[..i] + [Node(lo, hi - lo)] + reg.nodes[i..];
        }
      }
      assert nodes == Put(reg.nodes, i, lo, hi);
      regions := regions[k := reg.(nodes := nodes, free := reg.free + (hi - lo))];
    }

    lemma GiveFacts(rs: seq<Region>, k: nat, i: nat, lo: nat, hi: nat)
      requires ValidRegions(rs) && k < |rs| && Place(rs[k].nodes, i, lo) && rs[k].min <= lo < hi <= rs[k].max
      requires Aligned(lo) && Aligned(hi) && Range(lo, hi) !! FreeBytes(rs)
      ensures i <= |rs[k].nodes|
      ensures i > 0 ==> EndOf(rs[k].nodes[i - 1]) <= lo
      ensures i < |rs[k].nodes| ==> hi <= rs[k].nodes[i].addr
      ensures var rs' := WithNodes(rs, k, Put(rs[k].nodes, i, lo, hi), rs[k].free + (hi - lo));
              ValidRegions(rs') && Gave(rs, rs', lo, hi)
    {
      hide ValidRegions, Canonical, Sum;
      var nodes := rs[k].nodes;
      RegionFacts(rs, k);
      assert Bytes(nodes) !! Range(lo, hi) by {
        forall a
          ensures !(a in Bytes(nodes) && a in Range(lo, hi))
        {
          RegionBytes(rs, k, a);
        }
      }
      PutCanonical(nodes, i, lo, hi);
      PutInside(nodes, i, lo, hi, rs[k].min, rs[k].max);
      GiveUpdate(rs, k, Put(nodes, i, lo, hi), rs[k].free + (hi - lo), lo, hi);
    }

    lemma RegionFacts(rs: seq<Region>, k: nat)
      requires ValidRegions(rs) && k < |rs|
      ensures Canonical(rs[k].nodes) && Inside(rs[k].nodes, rs[k].min, rs[k].max) && rs[k].free == Sum(rs[k].nodes)
      ensures 8 <= rs[k].min < rs[k].max <= ADDRESS_LIMIT
    {
      assert ValidRegion(rs[k]);
    }

    // ------------------------------------------------------------- finding free memory

    /** lmm_find_free: the lowest free address from `inout` on, rounded up, and how much
        is free from there to the end of its node; size 0 if there is none. */
    method FindFree(inout: nat) returns (addr: nat, size: nat, flags: bv32)
      requires Valid() && inout + 7 < ADDRESSES
      ensures Lowest(regions, |regions|, Up(inout), addr, size, flags)
    {
      hide ValidRegion, Canonical, Inside, Bytes, Sum, Up, Above;
      var start := Up(inout);
      addr, size, flags := ADDRESSES - 1, 0, 0;
      var r := 0;
      while r < |regions|
        invariant 0 <= r <= |regions| && Lowest(regions, r, start, addr, size, flags)
      {
        var reg := regions[r];
        assert ValidRegion(reg);
        if reg.nodes == [] || reg.max <= start || reg.min > addr {
          SkipRegion(reg, start, addr);
        } else {
          var found, i := ScanFree(reg, start, addr);
          if found {
            var node := reg.nodes[i];
            ghost var before := addr;
            addr := if node.addr > start then node.addr else start;
            size := if node.addr > start then node.size else node.size - (start - node.addr);
            flags := reg.flags;
            FoundHere(regions, r, start, i);
            forall j | 0 <= j < r
              ensures Above(regions[j], start, addr)
            {
              Weaken(regions[j], start, before, addr);
            }
          }
        }
        r := r + 1;
      }
    }

    /** The node loop of lmm_find_free. */
    method ScanFree(reg: Region, start: nat, lowest: nat) returns (found: bool, i: nat)
      requires ValidRegion(reg)
      ensures found ==> i < |reg.nodes| && EndOf(reg.nodes[i]) > start && reg.nodes[i].addr < lowest
      ensures found ==> Above(reg, start, if reg.nodes[i].addr > start then reg.nodes[i].addr else start)
      ensures !found ==> Above(reg, start, lowest)
    {
      i := 0;
      while i < |reg.nodes|
        invariant 0 <= i <= |reg.nodes| && forall j :: 0 <= j < i ==> EndOf(reg.nodes[j]) <= start
      {
        if reg.nodes[i].addr >= lowest {
          LaterNodes(reg, i);
          return false, i;
        }
        if EndOf(reg.nodes[i]) > start {
          LaterNodes(reg, i);
          return true, i;
        }
        i := i + 1;
      }
      found := false;
    }

    lemma LaterNodes(reg: Region, i: nat)
      requires ValidRegion(reg) && i < |reg.nodes|
      ensures forall j :: i <= j < |reg.nodes| ==> reg.nodes[i].addr <= reg.nodes[j].addr
    {
      forall j | i < j < |reg.nodes|
        ensures reg.nodes[i].addr <= reg.nodes[j].addr
      {
        Order(reg.nodes, i, j);
      }
    }

    lemma SkipRegion(reg: Region, start: nat, addr: nat)
      requires ValidRegion(reg) && (reg.nodes == [] || reg.max <= start || reg.min > addr)
      ensures Above(reg, start, addr)
    {
    }

    lemma Weaken(reg: Region, start: nat, addr: nat, addr': nat)
      requires Above(reg, start, addr) && (addr' <= addr || addr' <= start)
      ensures Above(reg, start, addr')
    {
    }

    lemma FoundHere(rs: seq<Region>, r: nat, start: nat, i: nat)
      requires ValidRegions(rs) && r < |rs| && i < |rs[r].nodes| && EndOf(rs[r].nodes[i]) > start
      ensures var n := rs[r].nodes[i];
              var addr := if n.addr > start then n.addr else start;
              && InNode(rs, r, i, addr, EndOf(n) - addr, rs[r].flags) && EndOf(n) <= ADDRESS_LIMIT && (Aligned(start) ==> Aligned(addr))
    {
      assert ValidRegion(rs[r]);
      NodeIsGood(rs[r].nodes, i);
    }

    // ------------------------------------------------------------ removing free memory

    /** lmm_remove_free. What is taken out is everything free in the eight-byte units from
        the first one that starts in the block to the one holding its last byte. */
    method RemoveFree(block: nat, blockSize: nat)
      requires Valid() && blockSize > 0 && block + blockSize + 7 < ADDRESSES
      modifies this
      ensures Valid() && SameRegions(old(regions), regions)
      ensures FreeBytes(regions) == FreeBytes(old(regions)) - Range(Up(block), Up(block + blockSize))
    {
      hide ValidRegions, SameRegions, Bytes, FreeBytes, Took, Aligned, Up, Down, ExtentEnd, Lowest, Range, FirstFit, NoFit;
      var rstart, rend := block, block + blockSize;
      ghost var done, rs := Up(block), regions;
      RemovedNothing(rs, block, rend);
      while rstart < rend
        invariant Valid() && rend + 7 < ADDRESSES && Removing(rs, regions, block, done) && block <= rstart < rend && Up(rstart) <= done <= Up(rend)
        decreases Up(rend) - done
      {
        var addr, size, flags := FindFree(rstart);
        if size == 0 || addr >= rend {
          NothingLeft(rs, regions, block, done, rstart, addr, size, flags, rend);
          break;
        }
        ghost var found := size;
        FoundNext(rs, regions, block, done, rstart, addr, size, flags);
        rstart := addr;
        if rstart + size > rend {
          size := rend - rstart;
        }
        var q := Request(size, flags, 0, 0, rstart, rstart + size);
        ghost var before := regions;
        ExactRequest(before, rstart, found, size, flags, q);
        var ptr, k, i := AllocGen(q);
        ExactFit(before, q, k, i, ptr);
        assert ptr == rstart;
        RemovedMore(rs, before, regions, block, done, rstart, size, rend);
        done := ExtentEnd(rstart, size);
      }
    }

    // --------------------------------------------------------------- adding free memory

    /** lmm_add_free: of the whole units in the block, those inside some region become
        free. */
    method AddFree(block: nat, size: nat)
      requires Valid() && block + size + 7 < ADDRESSES && Up(block) <= Down(block + size)
      requires Range(Up(block), Down(block + size)) !! FreeBytes(regions)
      modifies this
      ensures Valid() && SameRegions(old(regions), regions)
      ensures FreeBytes(regions) ==
              FreeBytes(old(regions)) + Range(Up(block), Down(block + size)) * Managed(old(regions), |regions|)
    {
      hide ValidRegions, Bytes, FreeBytes, Aligned, Up, Down, Managed, Adding;
      var min, max := Up(block), Down(block + size);
      ghost var rs := regions;
      AddedNothing(rs, min, max);
      if max == min {
        return;
      }
      var r := 0;
      while r < |regions|
        invariant 0 <= r <= |regions| && Valid() && Adding(rs, regions, min, max, r)
      {
        AddStep(rs, regions, min, max, r);
        var reg := regions[r];
        if max > reg.min && min < reg.max {
          var newMin := if min < reg.min then reg.min else min;
          var newMax := if max > reg.max then reg.max else max;
          ghost var before := regions;
          Free(newMin, newMax - newMin);
          AddedMore(rs, before, regions, min, max, r, newMin, newMax);
        }
        r := r + 1;
      }
      AddedAll(rs, regions, min, max);
    }
  }

  /** Free bytes on end lie in one node, for nodes have gaps between them. */
  lemma {:induction false} BytesOnEnd(l: seq<Node>, lo: nat, hi: nat) returns (i: nat)
    requires Canonical(l) && lo < hi && Range(lo, hi) <= Bytes(l)
    ensures i < |l| && l[i].addr <= lo && hi <= EndOf(l[i])
    decreases |l|
  {
    assert lo in Range(lo, hi);
    if lo in Range(l[0].addr, EndOf(l[0])) {
      i := 0;
      if hi > EndOf(l[0]) {
        assert EndOf(l[0]) in Range(lo, hi);
        NotRightBehind(l);
      }
    } else {
      LaterBytes(l);
      assert lo in Bytes(l[1..]);
      i := BytesOnEnd(l[1..], lo, hi);
      i := i + 1;
    }
  }

  /** The bytes of later nodes lie behind a gap. */
  lemma {:induction false} LaterBytes(l: seq<Node>)
    requires Canonical(l) && l != []
    ensures Canonical(l[1..]) && forall a :: a in Bytes(l[1..]) ==> a > EndOf(l[0])
    decreases |l|
  {
    assert forall i :: 0 <= i < |l[1..]| ==> l[1..][i] == l[i + 1];
    if |l| > 1 { LaterBytes(l[1..]); }
  }

  lemma NotRightBehind(l: seq<Node>)
    requires Canonical(l) && l != []
    ensures EndOf(l[0]) !in Bytes(l)
  {
    LaterBytes(l);
  }

  /** The region serves the request, and from `a` on, an address in the range that agrees
      with the offset, it has so many free bytes on end. */
  ghost predicate FreeAt(r: Region, q: Request, a: nat) {
    && q.flags & !r.flags == 0 && q.inMin <= a && a + q.size <= q.inMax && a % Pow2(q.bits) == q.ofs % Pow2(q.bits)
    && Range(a, a + q.size) <= Bytes(r.nodes)
  }

  /** In bytes: there is no fit if and only if no region has such an address. */
  lemma NoFitBytes(rs: seq<Region>, q: Request)
    requires ValidRegions(rs) && q.size > 0
    ensures NoFit(rs, q) <==> forall k, a: nat :: 0 <= k < |rs| ==> !FreeAt(rs[k], q, a)
  {
    hide Canonical, Bytes, Sum, Pow2, FreeAt, FitsNode, NoFitBelow, Compatible;
    forall k | 0 <= k < |rs|
      ensures NoFitIn(rs[k], q) <==> forall a: nat :: !FreeAt(rs[k], q, a)
    {
      assert ValidRegion(rs[k]);
      RegionFit(rs[k], q);
    }
  }

  lemma RegionFit(r: Region, q: Request)
    requires Canonical(r.nodes) && q.size > 0
    ensures NoFitIn(r, q) <==> forall a: nat :: !FreeAt(r, q, a)
  {
    hide Canonical, Bytes, Sum, Pow2;
    forall a: nat | FreeAt(r, q, a)
      ensures !NoFitIn(r, q)
    {
      var i := BytesOnEnd(r.nodes, a, a + q.size);
      assert FitsNode(r.nodes[i], q, a);
    }
    if !NoFitIn(r, q) {
      var i, a: nat :| 0 <= i < |r.nodes| && FitsNode(r.nodes[i], q, a);
      NodeBytes(r.nodes, i, a, a + q.size);
      assert FreeAt(r, q, a);
    }
  }

  lemma NodeBytes(l: seq<Node>, i: nat, lo: nat, hi: nat)
    requires Canonical(l) && i < |l| && l[i].addr <= lo && hi <= EndOf(l[i])
    ensures Range(lo, hi) <= Bytes(l)
  {
    hide Canonical, Bytes;
    forall b | b in Range(lo, hi)
      ensures b in Bytes(l)
    {
      InBytes(l, i, b);
    }
  }

  /** A request without constraints. */
  function Unbounded(size: nat, flags: bv32): Request { Request(size, flags, 0, 0, 0, ADDRESSES - 1) }

  /** What lmm_alloc looks for. */
  function Plain(size: nat, flags: bv32): Request { Unbounded(Up(size), flags) }

  ghost predicate InRegion(r: Region, lo: nat, hi: nat) { r.min <= lo && hi <= r.max }

  ghost predicate InOneRegion(rs: seq<Region>, lo: nat, hi: nat) { exists k :: 0 <= k < |rs| && InRegion(rs[k], lo, hi) }

  lemma NothingBelow(nodes: seq<Node>, q: Request)
    ensures NoFitBelow(nodes, q, 0)
  {
  }

  // ------------------------------------------------------------------ finding free memory

  /** Every node of the region that reaches past `start` starts at or after `addr`, or
      holds `start` itself and `addr` is not after it. */
  ghost predicate Above(reg: Region, start: nat, addr: nat) {
    forall i :: 0 <= i < |reg.nodes| && EndOf(reg.nodes[i]) > start ==> addr <= reg.nodes[i].addr || addr <= start
  }

  /** The bytes from `addr` on are the rest of node `i` of region `k`. */
  ghost predicate InNode(rs: seq<Region>, k: nat, i: nat, addr: nat, size: nat, flags: bv32) {
    && k < |rs| && i < |rs[k].nodes| && rs[k].flags == flags && size > 0
    && rs[k].nodes[i].addr <= addr && addr + size == EndOf(rs[k].nodes[i])
  }

  /** Nothing is free in the first `r` regions from `start` up to `addr`, and there `size`
      bytes are. */
  ghost predicate Lowest(rs: seq<Region>, r: nat, start: nat, addr: nat, size: nat, flags: bv32) {
    && (forall j :: 0 <= j < r && j < |rs| ==> Above(rs[j], start, addr))
    && (size == 0 ==> addr == ADDRESSES - 1)
    && (size > 0 ==> start <= addr && Aligned(addr) && exists k: nat, i: nat :: k < r && InNode(rs, k, i, addr, size, flags))
  }

  lemma {:induction false} NodeOf(l: seq<Node>, a: int) returns (i: nat)
    requires a in Bytes(l)
    ensures i < |l| && l[i].addr <= a < EndOf(l[i])
  {
    if a in Range(l[0].addr, EndOf(l[0])) {
      i := 0;
    } else {
      i := NodeOf(l[1..], a);
      i := i + 1;
    }
  }

  /** In terms of bytes: none is free from `start` up to `addr`. */
  lemma LowestBytes(rs: seq<Region>, start: nat, addr: nat, size: nat, flags: bv32, a: int)
    requires Lowest(rs, |rs|, start, addr, size, flags) && a in FreeBytes(rs)
    ensures a < start || addr <= a
  {
    assert FreeIn(rs, a);
    var k :| 0 <= k < |rs| && a in Bytes(rs[k].nodes);
    var i := NodeOf(rs[k].nodes, a);
    assert Above(rs[k], start, addr);
  }

  // ---------------------------------------------------------------- removing free memory

  /** Everything that was free in the units from the block's first whole one up to `done`
      has been taken. */
  ghost predicate Removing(rs: seq<Region>, rs': seq<Region>, block: nat, done: nat) {
    && SameRegions(rs, rs') && Aligned(done) && Up(block) <= done
    && FreeBytes(rs') == FreeBytes(rs) - Range(Up(block), done)
  }

  lemma RemovedNothing(rs: seq<Region>, block: nat, rend: nat)
    requires block < rend
    ensures Removing(rs, rs, block, Up(block)) && Up(block) <= Up(rend)
  {
  }

  /** The free part of the found node, or what of it lies in the block, can be had and
      nothing else can. */
  lemma ExactRequest(rs: seq<Region>, addr: nat, found: nat, size: nat, flags: bv32, q: Request)
    requires ValidRegions(rs) && 0 < size <= found
    requires exists k: nat, i: nat :: k < |rs| && InNode(rs, k, i, addr, found, flags)
    requires q == Request(size, flags, 0, 0, addr, addr + size)
    ensures GoodRequest(q) && !NoFit(rs, q)
  {
    var k: nat, i: nat :| k < |rs| && InNode(rs, k, i, addr, found, flags);
    assert ValidRegion(rs[k]);
    assert Compatible(flags, rs[k]) by { NoFlagLeft(flags); }
    assert FitsNode(rs[k].nodes[i], q, addr);
    assert !NoFitIn(rs[k], q);
  }

  lemma NoFlagLeft(flags: bv32)
    ensures flags & !flags == 0
  {
  }

  lemma ExactFit(rs: seq<Region>, q: Request, k: nat, i: nat, a: nat)
    requires q.inMax == q.inMin + q.size
    ensures FirstFit(rs, q, k, i, a) ==> a == q.inMin
  {
  }

  lemma FoundNext(rs: seq<Region>, before: seq<Region>, block: nat, done: nat, rstart: nat, addr: nat, size: nat, flags: bv32)
    requires ValidRegions(before) && Removing(rs, before, block, done) && block <= rstart && Up(rstart) <= done
    requires Lowest(before, |before|, Up(rstart), addr, size, flags) && size > 0
    ensures Aligned(addr) && done <= addr && Up(rstart) <= addr
    ensures exists k: nat, i: nat :: k < |before| && InNode(before, k, i, addr, size, flags)
    ensures forall a :: a in FreeBytes(before) ==> a < done || addr <= a
  {
    hide ValidRegions, Above, InNode;
    forall a | a in FreeBytes(before)
      ensures a < done || addr <= a
    {
      LowestBytes(before, Up(rstart), addr, size, flags, a);
    }
    var k: nat, i: nat :| k < |before| && InNode(before, k, i, addr, size, flags);
    FoundIsFree(before, k, i, addr, size, flags);
  }

  lemma FoundIsFree(rs: seq<Region>, k: nat, i: nat, addr: nat, size: nat, flags: bv32)
    requires ValidRegions(rs) && InNode(rs, k, i, addr, size, flags)
    ensures addr in FreeBytes(rs)
  {
    hide Bytes, Canonical;
    assert ValidRegion(rs[k]);
    InBytes(rs[k].nodes, i, addr);
    assert FreeIn(rs, addr);
  }

  lemma RemovedMore(rs: seq<Region>, before: seq<Region>, after: seq<Region>, block: nat, done: nat, addr: nat, size: nat, rend: nat)
    requires Removing(rs, before, block, done) && Took(before, after, Down(addr), ExtentEnd(addr, size))
    requires Aligned(addr) && done <= addr && size > 0 && addr + size <= rend
    requires forall a :: a in FreeBytes(before) ==> a < done || addr <= a
    ensures Removing(rs, after, block, ExtentEnd(addr, size))
    ensures Up(addr) <= ExtentEnd(addr, size) <= Up(rend) && done < ExtentEnd(addr, size)
  {
    ExtentIsUp(addr, size);
    hide ExtentEnd, Up;
    var e := ExtentEnd(addr, size);
    forall a
      ensures a in FreeBytes(after) <==> a in FreeBytes(rs) && !Within(a, Up(block), e)
    {
    }
  }

  /** Free bytes come in whole units. */
  lemma WholeUnits(rs: seq<Region>, a: nat, b: nat)
    requires ValidRegions(rs) && a in FreeBytes(rs) && Down(a) == Down(b)
    ensures b in FreeBytes(rs)
  {
    hide Bytes, Down;
    assert FreeIn(rs, a);
    var k :| 0 <= k < |rs| && a in Bytes(rs[k].nodes);
    assert ValidRegion(rs[k]);
    var i := NodeOf(rs[k].nodes, a);
    NodeIsGood(rs[k].nodes, i);
    SameNode(rs[k].nodes[i], a, b);
    InBytes(rs[k].nodes, i, b);
    assert FreeIn(rs, b);
  }

  lemma SameNode(n: Node, a: nat, b: nat)
    requires GoodNode(n) && n.addr <= a < EndOf(n) && Down(a) == Down(b)
    ensures n.addr <= b < EndOf(n)
  {
  }

  lemma InBytes(l: seq<Node>, i: nat, a: nat)
    requires Canonical(l) && i < |l| && l[i].addr <= a < EndOf(l[i])
    ensures a in Bytes(l)
  {
    Around(l, i);
    assert a in Range(l[i].addr, EndOf(l[i]));
  }

  lemma NothingLeft(rs: seq<Region>, rs': seq<Region>, block: nat, done: nat, rstart: nat, addr: nat, size: nat, flags: bv32, rend: nat)
    requires ValidRegions(rs') && Removing(rs, rs', block, done) && Up(rstart) <= done <= Up(rend)
    requires Lowest(rs', |rs'|, Up(rstart), addr, size, flags) && (size == 0 || addr >= rend) && rend < ADDRESSES
    ensures FreeBytes(rs') == FreeBytes(rs) - Range(Up(block), Up(rend))
  {
    hide ValidRegions, Lowest, FreeBytes;
    forall a | a in FreeBytes(rs')
      ensures a < done || Up(rend) <= a
    {
      NoFreeBetween(rs', done, rstart, addr, size, flags, rend, a);
    }
    RemovedAll(rs, rs', block, done, rend);
  }

  lemma NoFreeBetween(rs: seq<Region>, done: nat, rstart: nat, addr: nat, size: nat, flags: bv32, rend: nat, a: int)
    requires ValidRegions(rs) && a in FreeBytes(rs) && Up(rstart) <= done && Aligned(done)
    requires Lowest(rs, |rs|, Up(rstart), addr, size, flags) && (size == 0 || addr >= rend) && rend < ADDRESSES
    ensures a < done || Up(rend) <= a
  {
    hide ValidRegions, FreeBytes, Lowest;
    if done <= a {
      WholeUnits(rs, a, Down(a));
      SizeZero(rs, Up(rstart), addr, size, flags);
      LowestBytes(rs, Up(rstart), addr, size, flags, Down(a));
    }
  }

  lemma SizeZero(rs: seq<Region>, start: nat, addr: nat, size: nat, flags: bv32)
    requires Lowest(rs, |rs|, start, addr, size, flags)
    ensures size == 0 ==> addr == ADDRESSES - 1
  {
  }

  lemma RemovedAll(rs: seq<Region>, rs': seq<Region>, block: nat, done: nat, rend: nat)
    requires Removing(rs, rs', block, done) && done <= Up(rend)
    requires forall a :: a in FreeBytes(rs') ==> a < done || Up(rend) <= a
    ensures FreeBytes(rs') == FreeBytes(rs) - Range(Up(block), Up(rend))
  {
  }

  /** lmm_remove_free is meant to leave nothing of the block free. It does so if and only
      if the block starts on a unit boundary or the unit it starts in was not free. */
  lemma Leftover(rs: seq<Region>, rs': seq<Region>, block: nat, size: nat)
    requires ValidRegions(rs) && size > 0
    requires FreeBytes(rs') == FreeBytes(rs) - Range(Up(block), Up(block + size))
    ensures (forall a :: block <= a < block + size ==> a !in FreeBytes(rs')) <==> Aligned(block) || Down(block) !in FreeBytes(rs)
  {
    hide ValidRegions, FreeBytes;
    if Down(block) in FreeBytes(rs) {
      WholeUnits(rs, Down(block), block);
      assert !Aligned(block) ==> block in FreeBytes(rs');
    }
    forall a | block <= a < block + size && a in FreeBytes(rs')
      ensures !Aligned(block) && Down(block) in FreeBytes(rs)
    {
      WholeUnits(rs, a, Down(a));
    }
  }

  /** For instance a block of four bytes in the middle of a free unit, of which everything
      stays free. */
  lemma LeftoverInput(rs: seq<Region>, rs': seq<Region>)
    requires rs == [Region(8, 24, 0, [Node(8, 16)], 16)]
    requires FreeBytes(rs') == FreeBytes(rs) - Range(Up(12), Up(12 + 4))
    ensures ValidRegions(rs) && !Aligned(12) && forall a :: 12 <= a < 12 + 4 ==> a in FreeBytes(rs')
  {
    var l := [Node(8, 16)];
    assert l[1..] == [] && Bytes(l) == Range(8, 24) && Sum(l) == 16;
    assert rs[0].nodes == l;
    assert forall a :: 12 <= a < 16 ==> FreeIn(rs, a);
  }

  // ------------------------------------------------------------------ adding free memory

  /** The addresses the first `r` regions manage. */
  ghost function Managed(rs: seq<Region>, r: nat): iset<int> { iset a | InSome(rs, r, a) }

  ghost predicate InSome(rs: seq<Region>, r: nat, a: int) { exists k :: 0 <= k < r && k < |rs| && rs[k].min <= a < rs[k].max }

  ghost predicate Adding(rs: seq<Region>, rs': seq<Region>, min: nat, max: nat, r: nat) {
    && Aligned(min) && Aligned(max)
    && ValidRegions(rs) && SameRegions(rs, rs') && Range(min, max) !! FreeBytes(rs)
    && FreeBytes(rs') == FreeBytes(rs) + Range(min, max) * Managed(rs, r)
  }

  lemma AddedNothing(rs: seq<Region>, min: nat, max: nat)
    requires ValidRegions(rs) && Aligned(min) && Aligned(max) && Range(min, max) !! FreeBytes(rs)
    ensures Adding(rs, rs, min, max, 0)
    ensures min == max ==> FreeBytes(rs) == FreeBytes(rs) + Range(min, max) * Managed(rs, |rs|)
    ensures SameRegions(rs, rs)
  {
  }

  /** The part of the block in the next region is not free yet; if there is none, the
      region is done with. */
  lemma AddStep(rs: seq<Region>, rs': seq<Region>, min: nat, max: nat, r: nat)
    requires ValidRegions(rs') && Adding(rs, rs', min, max, r) && r < |rs'| && min < max
    ensures var lo, hi := if min < rs'[r].min then rs'[r].min else min, if max > rs'[r].max then rs'[r].max else max;
            && Aligned(lo) && Aligned(hi) && rs'[r].min < rs'[r].max
            && (lo < hi ==> Down(lo) == lo && ExtentEnd(lo, hi - lo) == hi && InOneRegion(rs', lo, hi) && Range(lo, hi) !! FreeBytes(rs'))
    ensures max <= rs'[r].min || rs'[r].max <= min ==> Adding(rs, rs', min, max, r + 1)
  {
    hide ExtentEnd, Down, Up;
    var reg := rs'[r];
    assert ValidRegion(reg) && ValidRegion(rs[r]);
    var lo, hi := if min < reg.min then reg.min else min, if max > reg.max then reg.max else max;
    if lo < hi {
      ExtentIsUp(lo, hi - lo);
      assert InRegion(reg, lo, hi);
      AlignedExtent(lo, hi);
      NotYetFree(rs, rs', min, max, r, lo, hi);
    }
    ManagedNext(rs, r);
    if max <= reg.min || reg.max <= min { NothingHere(rs, rs', min, max, r); }
  }

  lemma AlignedExtent(lo: nat, hi: nat)
    requires Aligned(lo) && Aligned(hi) && lo < hi
    ensures Down(lo) == lo && ExtentEnd(lo, hi - lo) == hi
  {
  }

  lemma ManagedNext(rs: seq<Region>, r: nat)
    requires r < |rs|
    ensures Managed(rs, r + 1) == Managed(rs, r) + Range(rs[r].min, rs[r].max)
  {
    forall a
      ensures InSome(rs, r + 1, a) <==> InSome(rs, r, a) || rs[r].min <= a < rs[r].max
    {
      if rs[r].min <= a < rs[r].max { assert InSome(rs, r + 1, a); }
    }
  }

  lemma NotYetFree(rs: seq<Region>, rs': seq<Region>, min: nat, max: nat, r: nat, lo: nat, hi: nat)
    requires Adding(rs, rs', min, max, r) && r < |rs| && min <= lo && hi <= max && rs[r].min <= lo && hi <= rs[r].max
    ensures Range(lo, hi) !! FreeBytes(rs')
  {
    hide FreeBytes;
    forall a | lo <= a < hi
      ensures a !in FreeBytes(rs')
    {
      assert a in Range(min, max);
      NotEarlier(rs, r, a);
    }
  }

  /** An address belongs to one region only. */
  lemma NotEarlier(rs: seq<Region>, r: nat, a: int)
    requires ValidRegions(rs) && r < |rs| && rs[r].min <= a < rs[r].max
    ensures !InSome(rs, r, a)
  {
    forall k | 0 <= k < r
      ensures !(rs[k].min <= a < rs[k].max)
    {
      assert Apart(rs[k], rs[r]);
    }
  }

  lemma NothingHere(rs: seq<Region>, rs': seq<Region>, min: nat, max: nat, r: nat)
    requires Adding(rs, rs', min, max, r) && r < |rs| && (max <= rs[r].min || rs[r].max <= min)
    ensures Adding(rs, rs', min, max, r + 1)
  {
    hide FreeBytes, ValidRegions;
    ManagedNext(rs, r);
    assert Range(min, max) * Managed(rs, r + 1) == Range(min, max) * Managed(rs, r);
  }

  lemma AddedMore(rs: seq<Region>, before: seq<Region>, after: seq<Region>, min: nat, max: nat, r: nat, lo: nat, hi: nat)
    requires Adding(rs, before, min, max, r) && r < |before| && Gave(before, after, lo, hi)
    requires lo == (if min < before[r].min then before[r].min else min) && hi == if max > before[r].max then before[r].max else max
    ensures Adding(rs, after, min, max, r + 1)
  {
    hide FreeBytes, ValidRegions;
    ManagedNext(rs, r);
    assert Range(lo, hi) == Range(min, max) * Range(rs[r].min, rs[r].max);
    assert Range(min, max) * Managed(rs, r + 1) == Range(min, max) * Managed(rs, r) + Range(lo, hi);
  }

  lemma AddedAll(rs: seq<Region>, rs': seq<Region>, min: nat, max: nat)
    requires Adding(rs, rs', min, max, |rs'|)
    ensures SameRegions(rs, rs') && FreeBytes(rs') == FreeBytes(rs) + Range(min, max) * Managed(rs, |rs'|)
  {
  }
}
