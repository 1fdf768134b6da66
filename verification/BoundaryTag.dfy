/** The user-level malloc: an implicit list of blocks with boundary tags, first fit, and
    coalescing through the footers. */
module BoundaryTag {
  import opened DivMod
  import opened Blocks

  const SIZES: nat := 0x1_0000_0000
  const INT_MAX: nat := 0x7FFF_FFFF
  const PAGE: nat := 4096

  /** What mem_sbrk does: refuse, hand out memory behind the break, or, where the address
      space wraps around, hand out memory that it has not asked for. */
  datatype Growth = Refused | Granted | Wild

  // --------------------------------------------------------------- request sizes

  /** round_up(size, dsize) + dsize, without and with the wrap-around of 32-bit sizes. */
  function AdjustedSize(size: nat): nat { (size + 15) / 16 * 16 + 16 }

  function AdjustedSize32(size: nat): nat { ((16 * ((size + 15) % 0x1_0000_0000 / 16)) % 0x1_0000_0000 + 16) % 0x1_0000_0000 }

  /** The block asked for is large enough if and only if the request is at most 2^32 - 32
      bytes. */
  lemma AdjustedSizeExact(size: nat)
    requires size < SIZES
    ensures AdjustedSize32(size) >= size + 16 <==> size <= SIZES - 32
    ensures size <= SIZES - 32 ==> AdjustedSize32(size) == AdjustedSize(size)
  {
    var r := (size + 15) % SIZES;
    assert r == if size + 15 < SIZES then size + 15 else size + 15 - SIZES;
  }

  predicate SmallRequest(size: nat) { size <= SIZES - 32 }

  /** An adjusted size is that of a block, with room for the request. */
  lemma AdjustedSizeFits(size: nat)
    requires 0 < size && SmallRequest(size)
    ensures AdjustedSize32(size) % 16 == 0 && 32 <= AdjustedSize32(size) < SIZES && AdjustedSize32(size) - 16 >= size
  {
    hide AdjustedSize32;
    AdjustedSizeExact(size);
  }

  /** It is no larger than headers, footers and alignment make it. */
  lemma AdjustedSizeTight(size: nat)
    ensures size + 16 <= AdjustedSize(size) < size + 32 && AdjustedSize(size) % 16 == 0
  {
  }

  // ---------------------------------------------------------- merging in the abstract

  function MergeFrom(bs: seq<Block>, i: nat): (lo: nat)
    requires i < |bs|
    ensures lo <= i
  {
    if i > 0 && !bs[i - 1].alloc then i - 1 else i
  }

  function MergeTo(bs: seq<Block>, i: nat): (hi: nat)
    requires i < |bs|
    ensures i < hi <= |bs|
  {
    if i + 1 < |bs| && !bs[i + 1].alloc then i + 2 else i + 1
  }

  /** Block `i` made one with the free blocks beside it. */
  ghost function Merged(bs: seq<Block>, i: nat): seq<Block>
    requires i < |bs|
  {
    var lo, hi := MergeFrom(bs, i), MergeTo(bs, i);
    Splice(bs, lo, hi, [Block(Total(bs[lo..hi]), false)])
  }

  /** Free neighbours, if any, are block `i` and one beside it. */
  ghost predicate CoalescedBut(bs: seq<Block>, i: nat) {
    forall k :: 0 < k < |bs| && k != i && k != i + 1 ==> bs[k - 1].alloc || bs[k].alloc
  }

  lemma MergedCoalesced(bs: seq<Block>, i: nat)
    requires i < |bs| && !bs[i].alloc && CoalescedBut(bs, i)
    ensures Coalesced(Merged(bs, i))
  {
    hide Total;
    var lo, hi := MergeFrom(bs, i), MergeTo(bs, i);
    var cs := Merged(bs, i);
    forall k | 0 < k < |cs|
      ensures cs[k - 1].alloc || cs[k].alloc
    {
      if k > lo + 1 {
        var o := hi + (k - lo - 1);
        assert cs[k] == bs[o] && cs[k - 1] == bs[o - 1];
      }
    }
  }

  lemma TotalTwo(bs: seq<Block>, i: nat)
    requires i < |bs|
    ensures Total(bs[i..i + 1]) == bs[i].words
    ensures i + 1 < |bs| ==> Total(bs[i..i + 2]) == bs[i].words + bs[i + 1].words
    ensures i > 0 ==> Total(bs[i - 1..i + 1]) == bs[i - 1].words + bs[i].words
    ensures i > 0 && i + 1 < |bs| ==> Total(bs[i - 1..i + 2]) == bs[i - 1].words + bs[i].words + bs[i + 1].words
  {
    One(bs, i);
    if i + 1 < |bs| { Two(bs, i); }
    if i > 0 { Two(bs, i - 1); }
    if i > 0 && i + 1 < |bs| { Three(bs, i - 1); }
  }

  lemma Three(bs: seq<Block>, k: nat)
    requires k + 2 < |bs|
    ensures Total(bs[k..k + 3]) == bs[k].words + bs[k + 1].words + bs[k + 2].words
  {
    Two(bs, k);
    One(bs, k + 2);
    assert bs[k..k + 3] == bs[k..k + 2] + bs[k + 2..k + 3];
    TotalConcat(bs[k..k + 2], bs[k + 2..k + 3]);
  }

  lemma Two(bs: seq<Block>, k: nat)
    requires k + 1 < |bs|
    ensures Total(bs[k..k + 2]) == bs[k].words + bs[k + 1].words
  {
    One(bs, k);
    One(bs, k + 1);
    assert bs[k..k + 2] == bs[k..k + 1] + bs[k + 1..k + 2];
    TotalConcat(bs[k..k + 1], bs[k + 1..k + 2]);
  }

  lemma One(bs: seq<Block>, i: nat)
    requires i < |bs|
    ensures bs[i..i + 1] == [bs[i]] && Total(bs[i..i + 1]) == bs[i].words
  {
    assert [bs[i]][1..] == [];
  }

  lemma {:induction false} MergedGood(mem: seq<nat>, h: nat, bs: seq<Block>)
    requires Covers(mem, h, bs) && bs != []
    ensures Total(bs) >= 4 && Total(bs) % 2 == 0
    decreases |bs|
  {
    if |bs| > 1 { MergedGood(mem, h + bs[0].words, bs[1..]); }
  }

  /** Memory with the header and the footer of block `b` written at word `h`. */
  ghost function Tagged(mem: seq<nat>, h: nat, b: Block): seq<nat> {
    if 0 < b.words && h + b.words <= |mem| then mem[h := Word(b)][h + b.words - 1 := Word(b)] else mem
  }

  // ------------------------------------------------------------------------- the heap

  function PageEnd(a: nat): nat { (a + PAGE - 1) / PAGE * PAGE }

  /** The pages up to `top` have been granted, and the break is in the last of them. */
  predicate Backed(base: nat, words: nat, top: nat) {
    base > 0 && base % PAGE == 0 && base + 8 * words <= top < base + 8 * words + PAGE && top % PAGE == 0 && top < SIZES
  }

  lemma PageEndIs(a: nat, t: nat)
    ensures a <= PageEnd(a) < a + PAGE && PageEnd(a) % PAGE == 0
    ensures t % PAGE == 0 && a <= t < a + PAGE ==> t == PageEnd(a)
  {
  }

  lemma PageEndShift(a: nat, t: nat)
    requires t % PAGE == 0 && t <= a
    ensures PageEnd(a - t) == PageEnd(a) - t
  {
    hide PageEnd;
    PageEndIs(a, 0);
    PageEndIs(a - t, PageEnd(a) - t);
  }

  lemma WrapOnce(a: nat)
    requires a < 2 * SIZES
    ensures a % SIZES == if a < SIZES then a else a - SIZES
  {
  }

  /** The sums of mem_sbrk. */
  lemma SbrkSums(base: nat, words: nat, top: nat, size: nat)
    requires Backed(base, words, top) && PAGE <= size <= INT_MAX
    ensures var brk := base + 8 * words;
            && top == PageEnd(brk)
            && (brk + size) % SIZES == (if brk + size < SIZES then brk + size else brk + size - SIZES)
            && brk + size > top && PageEnd(brk + size - top) == PageEnd(brk + size) - top
            && brk + size <= PageEnd(brk + size) < brk + size + PAGE && PageEnd(brk + size) % PAGE == 0
  {
    hide PageEnd;
    var brk := base + 8 * words;
    PageEndIs(brk, top);
    PageEndIs(brk + size, 0);
    PageEndShift(brk + size, top);
    WrapOnce(brk + size);
  }

  class Heap {
    const base: nat
    var mem: seq<nat>
    var top: nat
    ghost var blocks: seq<Block>

    /** The words are tiled by the blocks. */
    ghost predicate Valid()
      reads this
    {
      base > 0 && base % 16 == 0 && base + 8 * |mem| < SIZES && Backed(base, |mem|, top) && Tiled(mem, blocks)
    }

    /** Between calls, no two free blocks are neighbours either. */
    ghost predicate Ready()
      reads this
    {
      Valid() && Coalesced(blocks)
    }

    /** What is in use: header positions and payloads. */
    ghost function InUse(): set<(nat, seq<nat>)>
      reads this
    {
      Live(mem, 1, blocks)
    }

    /** The pointer handed out for the block at word `h`, and back. */
    function PayloadAddress(h: nat): nat { base + 8 * h + 8 }

    function HeaderOf(p: nat): nat
      requires p >= base + 8
    {
      (p - base) / 8 - 1
    }

    /** The heap mm_init makes on the page that mem_init has got, before it is extended. */
    constructor (start: nat)
      requires 0 < start && start % PAGE == 0 && start + PAGE < SIZES
      ensures Ready() && InUse() == {} && blocks == [] && base == start && |mem| == 2
    {
      base := start;
      mem := [Pack(0, true), Pack(0, true)];
      top := start + PAGE;
      blocks := [];
    }

    /** mm_init, once the first two words have been granted. */
    static method Init(start: nat, grant: bool) returns (heap: Heap, ok: bool)
      requires 0 < start && start % PAGE == 0 && start + PAGE < SIZES
      ensures fresh(heap) && heap.Ready() && heap.InUse() == {}
      ensures ok <==> grant && start + 2 * PAGE < SIZES
      ensures ok ==> SomeFits(heap.blocks, 4096)
    {
      heap := new Heap(start);
      var fate, h;
      ghost var i;
      fate, h, i := heap.ExtendHeap(4096, grant);
      ok := fate.Granted?;
    }

    /** Write header and footer of a block that takes the place of blocks i up to j. */
    method Remark(h: nat, words: nat, alloc: bool, ghost i: nat, ghost j: nat)
      requires Valid() && i < j <= |blocks| && h == Start(blocks, i) && words == Total(blocks[i..j])
      modifies this
      ensures Valid() && blocks == Splice(old(blocks), i, j, [Block(words, alloc)])
      ensures mem == Tagged(old(mem), h, Block(words, alloc))
      ensures InUse() == old(InUse()) - Live(old(mem), h, old(blocks)[i..j])
                         + if alloc then {(h, Payload(old(mem), h, words))} else {}
    {
      hide Total, Live, Covers, Word, Tiled, Payload;
      ghost var m, b := mem, Block(words, alloc);
      RemarkFacts(m, blocks, i, j, alloc);
      mem := mem[h := Pack(8 * words, alloc)];
      mem := mem[h + words - 1 := Pack(8 * words, alloc)];
      WordIs(b);
      blocks := Splice(blocks, i, j, [b]);
    }

    lemma WordIs(b: Block)
      ensures Word(b) == Pack(8 * b.words, b.alloc)
    {
    }

    lemma RemarkFacts(m: seq<nat>, bs: seq<Block>, i: nat, j: nat, alloc: bool)
      requires Tiled(m, bs) && i < j <= |bs|
      ensures var h, b := Start(bs, i), Block(Total(bs[i..j]), alloc);
              && 1 <= h && 4 <= b.words && h + b.words < |m| && Total(bs[i..j]) == b.words
              && var m' := Tagged(m, h, b);
              && Tiled(m', Splice(bs, i, j, [b]))
              && Live(m', 1, Splice(bs, i, j, [b])) == Live(m, 1, bs) - Live(m, h, bs[i..j])
                                                      + if alloc then {(h, Payload(m, h, b.words))} else {}
    {
      hide Word, Total, Covers, Live, Tagged, Marked, Payload;
      var h, b := Start(bs, i), Block(Total(bs[i..j]), alloc);
      Parts(m, bs, i, j);
      MergedGood(m, h, bs[i..j]);
      TaggedWords(m, h, b);
      MarkedAlone(Tagged(m, h, b), h, b);
      SpliceTiled(m, bs, i, j, [b], Tagged(m, h, b));
    }

    lemma TaggedWords(m: seq<nat>, h: nat, b: Block)
      requires GoodBlock(b) && h + b.words <= |m|
      ensures Marked(Tagged(m, h, b), h, b) && AgreeOutside(m, Tagged(m, h, b), h, h + b.words)
      ensures Payload(Tagged(m, h, b), h, b.words) == Payload(m, h, b.words)
    {
      hide Word;
    }

    lemma MarkedAlone(m: seq<nat>, h: nat, b: Block)
      requires Marked(m, h, b)
      ensures Covers(m, h, [b]) && Total([b]) == b.words
      ensures Live(m, h, [b]) == if b.alloc then {(h, Payload(m, h, b.words))} else {}
    {
      assert [b][1..] == [];
    }

    // --------------------------------------------------------------------- coalescing

    /** coalesce: what the neighbours' tags say is what the abstract sequence says. */
    method Coalesce(h: nat, ghost i: nat) returns (r: nat)
      requires Valid() && i < |blocks| && h == Start(blocks, i) && !blocks[i].alloc
      modifies this
      ensures Valid() && blocks == Merged(old(blocks), i) && InUse() == old(InUse())
      ensures r == Start(old(blocks), MergeFrom(old(blocks), i)) == Start(blocks, MergeFrom(old(blocks), i))
    {
      hide Total, Live, Covers, Word, Tiled;
      Neighbours(mem, blocks, i);
      TotalTwo(blocks, i);
      MergedFree(mem, blocks, i);
      ghost var m, bs, lo, hi := mem, blocks, MergeFrom(blocks, i), MergeTo(blocks, i);
      var prevFooter := mem[h - 1];
      var words := ExtractSize(mem[h]) / 8;
      var nextHeader := mem[h + words];
      var prevAlloc, nextAlloc := ExtractAlloc(prevFooter), ExtractAlloc(nextHeader);
      r := h;
      if prevAlloc && nextAlloc {
        SpliceSame(blocks, i);
        return;
      } else if prevAlloc {
        words := words + ExtractSize(nextHeader) / 8;
      } else if nextAlloc {
        words := words + ExtractSize(prevFooter) / 8;
        r := h - ExtractSize(prevFooter) / 8;
      } else {
        words := words + ExtractSize(nextHeader) / 8 + ExtractSize(prevFooter) / 8;
        r := h - ExtractSize(prevFooter) / 8;
      }
      Remark(r, words, false, lo, hi);
      StartSplice(bs, lo, hi, [Block(words, false)]);
    }

    /** A merge of one block with itself. */
    lemma SpliceSame(bs: seq<Block>, i: nat)
      requires i < |bs| && !bs[i].alloc && MergeFrom(bs, i) == i && MergeTo(bs, i) == i + 1
      ensures Merged(bs, i) == bs
    {
      One(bs, i);
      assert bs == bs[..i] + [bs[i]] + bs[i + 1..];
    }

    lemma StartSplice(bs: seq<Block>, i: nat, j: nat, mid: seq<Block>)
      requires i <= j <= |bs|
      ensures Start(Splice(bs, i, j, mid), i) == Start(bs, i)
    {
      assert Splice(bs, i, j, mid)[..i] == bs[..i];
    }

    /** The words around a block: its own header, the footer before it and the header
        after it. */
    lemma Neighbours(m: seq<nat>, bs: seq<Block>, i: nat)
      requires Tiled(m, bs) && i < |bs|
      ensures var h := Start(bs, i);
              && 1 <= h && h + bs[i].words < |m|
              && ExtractSize(m[h]) == 8 * bs[i].words && (ExtractAlloc(m[h]) <==> bs[i].alloc)
              && (ExtractAlloc(m[h - 1]) <==> i == 0 || bs[i - 1].alloc)
              && (i > 0 ==> ExtractSize(m[h - 1]) == 8 * bs[i - 1].words && h == Start(bs, i - 1) + bs[i - 1].words)
              && (ExtractAlloc(m[h + bs[i].words]) <==> i + 1 == |bs| || bs[i + 1].alloc)
              && (i + 1 < |bs| ==> ExtractSize(m[h + bs[i].words]) == 8 * bs[i + 1].words)
    {
      hide Covers, Word, Total;
      BlockAt(m, bs, i);
      WordDecodes(bs[i]);
      Ends(m, bs);
      if i > 0 {
        BlockAt(m, bs, i - 1);
        WordDecodes(bs[i - 1]);
      }
      if i + 1 < |bs| {
        BlockAt(m, bs, i + 1);
        WordDecodes(bs[i + 1]);
      }
    }

    lemma MergedFree(m: seq<nat>, bs: seq<Block>, i: nat)
      requires i < |bs| && !bs[i].alloc
      ensures var lo, hi := MergeFrom(bs, i), MergeTo(bs, i); forall h: nat :: Live(m, h, bs[lo..hi]) == {}
    {
      var lo, hi := MergeFrom(bs, i), MergeTo(bs, i);
      forall h: nat
        ensures Live(m, h, bs[lo..hi]) == {}
      {
        LiveNone(m, h, bs[lo..hi]);
      }
    }

    // --------------------------------------------------------------------- placement

    /** find_fit: the first free block that is large enough. */
    method FindFit(asize: nat) returns (found: bool, h: nat, ghost i: nat)
      requires Valid()
      ensures found ==> i < |blocks| && h == Start(blocks, i) && Fits(blocks[i], asize) && forall k :: 0 <= k < i ==> !Fits(blocks[k], asize)
      ensures !found ==> forall k :: 0 <= k < |blocks| ==> !Fits(blocks[k], asize)
    {
      hide Total, Live, Covers, Word, Tiled, ExtractSize;
      h, i := 1, 0;
      HeaderFacts(mem, blocks, 0);
      while ExtractSize(mem[h]) > 0
        invariant i <= |blocks| && h == Start(blocks, i) < |mem|
        invariant ExtractSize(mem[h]) == (if i < |blocks| then 8 * blocks[i].words else 0)
        invariant i < |blocks| ==> (ExtractAlloc(mem[h]) <==> blocks[i].alloc)
        invariant forall k :: 0 <= k < i ==> !Fits(blocks[k], asize)
        decreases |blocks| - i
      {
        var size := ExtractSize(mem[h]);
        if !ExtractAlloc(mem[h]) && asize <= size {
          return true, h, i;
        }
        HeaderFacts(mem, blocks, i);
        HeaderFacts(mem, blocks, i + 1);
        h := h + size / 8;
        i := i + 1;
      }
      PositiveBlocks(mem, blocks, i);
      found := false;
    }

    /** The header word of the next block, or of the epilogue. */
    lemma HeaderFacts(m: seq<nat>, bs: seq<Block>, i: nat)
      requires Tiled(m, bs) && i <= |bs|
      ensures Start(bs, i) < |m|
      ensures ExtractSize(m[Start(bs, i)]) == if i < |bs| then 8 * bs[i].words else 0
      ensures i < |bs| ==> (ExtractAlloc(m[Start(bs, i)]) <==> bs[i].alloc) && Start(bs, i + 1) == Start(bs, i) + bs[i].words
      ensures i == 0 ==> Start(bs, i) == 1
    {
      hide Covers, Word, Total;
      Ends(m, bs);
      if i < |bs| {
        BlockAt(m, bs, i);
        WordDecodes(bs[i]);
      }
    }

    lemma PositiveBlocks(m: seq<nat>, bs: seq<Block>, i: nat)
      requires Tiled(m, bs) && i <= |bs|
      ensures i < |bs| ==> bs[i].words > 0
    {
      hide Covers, Word, Total;
      if i < |bs| { BlockAt(m, bs, i); }
    }

    /** place: the block is used whole, or split if the rest can be a block. */
    method Place(h: nat, asize: nat, ghost i: nat)
      requires Valid() && i < |blocks| && h == Start(blocks, i) && Fits(blocks[i], asize) && asize % 16 == 0 && asize >= 32
      modifies this
      ensures Valid() && |mem| == |old(mem)|
      ensures i < |blocks| && blocks[i].alloc && asize <= 8 * blocks[i].words < asize + 32 && Start(blocks, i) == h
      ensures if 8 * old(blocks)[i].words >= asize + 32
              then blocks == Splice(old(blocks), i, i + 1, [Block(asize / 8, true), Block(old(blocks)[i].words - asize / 8, false)])
              else blocks == Splice(old(blocks), i, i + 1, [Block(old(blocks)[i].words, true)])
      ensures InUse() == old(InUse()) + {(h, Payload(mem, h, blocks[i].words))} && NoneAt(old(InUse()), h)
      ensures old(Coalesced(blocks)) ==> Coalesced(blocks)
    {
      hide Total, Live, Covers, Word, Tiled, Payload, ExtractSize;
      ghost var m, bs := mem, blocks;
      HeaderFacts(mem, blocks, i);
      One(blocks, i);
      MergedNothing(mem, blocks, i);
      FreeUnused(mem, blocks, i);
      var csize := ExtractSize(mem[h]);
      if csize - asize >= 32 {
        Split(h, asize / 8, csize / 8, i);
        SplitCoalesced(bs, i, asize / 8);
      } else {
        Remark(h, csize / 8, true, i, i + 1);
        UsePayload(m, h, bs[i].words);
        StartSplice(bs, i, i + 1, [Block(csize / 8, true)]);
      }
    }

    lemma FreeUnused(m: seq<nat>, bs: seq<Block>, i: nat)
      requires Tiled(m, bs) && i < |bs| && !bs[i].alloc
      ensures NoneAt(Live(m, 1, bs), Start(bs, i))
    {
      hide Covers, Live, Total;
      BlockAt(m, bs, i);
      MergedNothing(m, bs, i);
      Parts(m, bs, i, i + 1);
    }

    lemma UsePayload(m: seq<nat>, h: nat, words: nat)
      requires 4 <= words && words % 2 == 0 && h + words <= |m|
      ensures Payload(Tagged(m, h, Block(words, true)), h, words) == Payload(m, h, words)
    {
      TaggedWords(m, h, Block(words, true));
    }

    lemma MergedNothing(m: seq<nat>, bs: seq<Block>, i: nat)
      requires Tiled(m, bs) && i < |bs|
      ensures !bs[i].alloc ==> Live(m, Start(bs, i), bs[i..i + 1]) == {}
      ensures GoodBlock(bs[i]) && Start(bs, i) + bs[i].words < |m|
    {
      hide Covers, Total;
      BlockAt(m, bs, i);
      One(bs, i);
      if !bs[i].alloc { LiveNone(m, Start(bs, i), bs[i..i + 1]); }
    }

    /** The two parts of place when it splits: the block in use and the free rest. */
    method Split(h: nat, a: nat, c: nat, ghost i: nat)
      requires Valid() && i < |blocks| && h == Start(blocks, i) && blocks[i] == Block(c, false)
      requires 4 <= a && a % 2 == 0 && a + 4 <= c
      modifies this
      ensures Valid() && |mem| == |old(mem)|
      ensures blocks == Splice(old(blocks), i, i + 1, [Block(a, true), Block(c - a, false)])
      ensures Start(blocks, i) == h && InUse() == old(InUse()) + {(h, Payload(mem, h, a))}
    {
      hide Total, Live, Covers, Word, Tiled, Payload;
      SplitFacts(mem, blocks, i, a);
      var used, rest := Pack(8 * a, true), Pack(8 * (c - a), false);
      WordIs(Block(a, true));
      WordIs(Block(c - a, false));
      mem := mem[h := used];
      mem := mem[h + a - 1 := used];
      mem := mem[h + a := rest];
      mem := mem[h + c - 1 := rest];
      blocks := Splice(blocks, i, i + 1, [Block(a, true), Block(c - a, false)]);
    }

    lemma SplitFacts(m: seq<nat>, bs: seq<Block>, i: nat, a: nat)
      requires Tiled(m, bs) && i < |bs| && !bs[i].alloc && 4 <= a && a % 2 == 0 && a + 4 <= bs[i].words
      ensures var h, c := Start(bs, i), bs[i].words; var x, y := Block(a, true), Block(c - a, false);
              && h + c < |m|
              && var m' := m[h := Word(x)][h + a - 1 := Word(x)][h + a := Word(y)][h + c - 1 := Word(y)];
              && Tiled(m', Splice(bs, i, i + 1, [x, y])) && Start(Splice(bs, i, i + 1, [x, y]), i) == h
              && Live(m', 1, Splice(bs, i, i + 1, [x, y])) == Live(m, 1, bs) + {(h, Payload(m', h, a))}
    {
      hide Total, Live, Covers, Word, Payload;
      BlockAt(m, bs, i);
      One(bs, i);
      var h, c := Start(bs, i), bs[i].words;
      var x, y := Block(a, true), Block(c - a, false);
      var m' := m[h := Word(x)][h + a - 1 := Word(x)][h + a := Word(y)][h + c - 1 := Word(y)];
      TwoMarked(m', h, x, y);
      MergedNothing(m, bs, i);
      SpliceTiled(m, bs, i, i + 1, [x, y], m');
      StartSplice(bs, i, i + 1, [x, y]);
    }

    lemma TwoMarked(m: seq<nat>, h: nat, x: Block, y: Block)
      requires Marked(m, h, x) && Marked(m, h + x.words, y) && x.alloc && !y.alloc
      ensures Covers(m, h, [x, y]) && Total([x, y]) == x.words + y.words
      ensures Live(m, h, [x, y]) == {(h, Payload(m, h, x.words))}
    {
      hide Word, Payload;
      assert [x, y] == [x] + [y];
      MarkedAlone(m, h, x);
      MarkedAlone(m, h + x.words, y);
      CoversConcat(m, h, [x], [y]);
      TotalConcat([x], [y]);
    }

    lemma SplitCoalesced(bs: seq<Block>, i: nat, a: nat)
      requires i < |bs| && !bs[i].alloc && a <= bs[i].words
      ensures Coalesced(bs) ==> Coalesced(Splice(bs, i, i + 1, [Block(a, true), Block(bs[i].words - a, false)]))
    {
      var cs := Splice(bs, i, i + 1, [Block(a, true), Block(bs[i].words - a, false)]);
      if Coalesced(bs) {
        forall k | 0 < k < |cs|
          ensures cs[k - 1].alloc || cs[k].alloc
        {
          if k > i + 1 { assert cs[k] == bs[k - 1] && (k > i + 2 ==> cs[k - 1] == bs[k - 2]); }
        }
      }
    }

    // ---------------------------------------------------------------------- extension

    /** mem_sbrk finds room for so many bytes more: they, and the pages they need, are no more
        than an int can say, and new_pages, whose answer is `grant`, maps the pages. It never
        maps the last page of the address space, which belongs to the stack, nor a negative
        number of bytes. */
    predicate Room(size: nat, grant: bool)
      reads this
    {
      && grant && size <= INT_MAX && PageEnd(base + 8 * |mem| + size) < SIZES
      && PageEnd(base + 8 * |mem| + size) - PageEnd(base + 8 * |mem|) <= INT_MAX
    }

    /** The break would wrap around, and mem_sbrk does not notice. */
    predicate Wraps(size: nat)
      reads this
    {
      size <= INT_MAX && base + 8 * |mem| + size >= SIZES
    }

    /** mem_sbrk for at least a page, up to moving the break. Its argument is an int, its
        sums are 32-bit addresses. */
    method Sbrk(size: nat, grant: bool) returns (fate: Growth)
      requires Valid() && PAGE <= size < SIZES
      modifies this`top
      ensures fate == if old(Wraps(size)) then Wild else if old(Room(size, grant)) then Granted else Refused
      ensures if fate.Granted? then base + 8 * |mem| + size <= top < base + 8 * |mem| + size + PAGE && top % PAGE == 0 && top < SIZES
              else top == old(top)
    {
      hide Tiled, PageEnd;
      if size <= INT_MAX { SbrkSums(base, |mem|, top, size); }
      var incr := if size <= INT_MAX then size else size - SIZES;
      var oldBreak := base + 8 * |mem|;
      if incr < 0 || (oldBreak + incr) % SIZES > 0xFFFF_FFFF {
        return Refused;
      }
      var newBreak := (oldBreak + incr) % SIZES;
      if newBreak > top {
        var more := PageEnd(newBreak - top);
        if !grant || more > INT_MAX || top + more >= SIZES {
          return Refused;
        }
        top := top + more;
        fate := Granted;
      } else {
        fate := Wild;
      }
    }

    /** extend_heap. The new free block is merged with a free last block. Where the break
        wraps around, the tags that follow are not written into the heap, and nothing more
        is said of the program. */
    method ExtendHeap(size: nat, grant: bool) returns (fate: Growth, h: nat, ghost i: nat)
      requires Ready() && size % 16 == 0 && PAGE <= size < SIZES
      modifies this
      ensures Ready() && InUse() == old(InUse())
      ensures fate == if old(Wraps(size)) then Wild else if old(Room(size, grant)) then Granted else Refused
      ensures !fate.Granted? ==> mem == old(mem) && blocks == old(blocks)
      ensures fate.Granted? ==> i < |blocks| && h == Start(blocks, i) && Fits(blocks[i], size)
      ensures fate.Granted? ==> var last := |old(blocks)|;
                                blocks == Merged(old(blocks) + [Block(size / 8, false)], last) && i == MergeFrom(old(blocks) + [Block(size / 8, false)], last)
    {
      hide Total, Live, Covers, Word, Tiled, Coalesced, CoalescedBut, Room, Merged, MergeFrom, Start;
      h, i := 0, 0;
      fate := Sbrk(size, grant);
      if !fate.Granted? {
        return;
      }
      var first := |mem| - 1;
      var more: seq<nat> := *;
      if |more| != size / 8 {
        more := seq(size / 8, _ => 0);
      }
      ghost var bs := blocks;
      Append(size / 8, more);
      ghost var last := |bs|;
      AppendCoalesced(bs, Block(size / 8, false));
      AppendStart(old(mem), bs, Block(size / 8, false));
      MergedCoalesced(blocks, last);
      MergedSize(mem, blocks, last);
      i := MergeFrom(blocks, last);
      h := Coalesce(first, last);
    }

    /** The part of extend_heap before coalescing: header and footer of the new block and a
        new epilogue. */
    method Append(words: nat, more: seq<nat>)
      requires Tiled(mem, blocks) && base % 16 == 0 && Backed(base, |mem| + words, top)
      requires words % 2 == 0 && words >= 4 && |more| == words
      modifies this
      ensures Valid() && blocks == old(blocks) + [Block(words, false)] && InUse() == old(InUse())
    {
      hide Total, Live, Covers, Word, Tiled;
      AppendFacts(mem, blocks, words, more);
      var h := |mem| - 1;
      WordIs(Block(words, false));
      mem := mem + more;
      mem := mem[h := Pack(8 * words, false)];
      mem := mem[h + words - 1 := Pack(8 * words, false)];
      mem := mem[h + words := Pack(0, true)];
      blocks := blocks + [Block(words, false)];
    }

    lemma AppendFacts(m: seq<nat>, bs: seq<Block>, words: nat, more: seq<nat>)
      requires Tiled(m, bs) && words % 2 == 0 && words >= 4 && |more| == words
      ensures |m| >= 2
      ensures var h, b := |m| - 1, Block(words, false);
              var m' := (m + more)[h := Word(b)][h + words - 1 := Word(b)][h + words := Pack(0, true)];
              Tiled(m', bs + [b]) && Live(m', 1, bs + [b]) == Live(m, 1, bs)
    {
      hide Total, Live, Covers, Word;
      var h, b := |m| - 1, Block(words, false);
      Ends(m, bs);
      assert Start(bs, |bs|) == 1 + Total(bs) by { assert bs[..|bs|] == bs; }
      var m' := (m + more)[h := Word(b)][h + words - 1 := Word(b)][h + words := Pack(0, true)];
      CoversFrame(m, m', 1, bs);
      MarkedAlone(m', h, b);
      CoversConcat(m', 1, bs, [b]);
      TotalConcat(bs, [b]);
    }

    lemma AppendCoalesced(bs: seq<Block>, b: Block)
      requires Coalesced(bs)
      ensures CoalescedBut(bs + [b], |bs|)
    {
    }

    lemma AppendStart(m: seq<nat>, bs: seq<Block>, b: Block)
      requires Tiled(m, bs)
      ensures Start(bs + [b], |bs|) == |m| - 1
    {
      assert (bs + [b])[..|bs|] == bs;
    }

    /** Merging makes the block no smaller. */
    lemma MergedSize(m: seq<nat>, bs: seq<Block>, i: nat)
      requires Tiled(m, bs) && i < |bs|
      ensures MergeFrom(bs, i) < |Merged(bs, i)|
      ensures var b := Merged(bs, i)[MergeFrom(bs, i)]; !b.alloc && b.words >= bs[i].words
    {
      hide Total, Covers;
      TotalTwo(bs, i);
    }

    // ------------------------------------------------------------------------ the calls

    /** _malloc on an initialized heap. When `wild` holds the break has wrapped around, and
        what the program would return lies outside the heap. */
    method Malloc(size: nat, grant: bool) returns (p: nat, wild: bool, ghost data: seq<nat>)
      requires Ready() && SmallRequest(size)
      modifies this
      ensures Ready()
      ensures p == 0 ==> InUse() == old(InUse()) && mem == old(mem)
      ensures p != 0 <==> size > 0 && (SomeFits(old(blocks), AdjustedSize(size)) || old(Room(Extension(AdjustedSize(size)), grant)))
      ensures wild <==> size > 0 && !SomeFits(old(blocks), AdjustedSize(size)) && old(Wraps(Extension(AdjustedSize(size))))
      ensures p != 0 ==> size > 0 && p >= base + 16 && p % 16 == 0 && size <= 8 * |data| < size + 48
      ensures p != 0 ==> 8 * |data| + 16 < AdjustedSize(size) + 32
      ensures p != 0 && SomeFits(old(blocks), AdjustedSize(size)) ==>
                exists i :: FirstFits(old(blocks), AdjustedSize(size), i) && PlacedIn(old(blocks), i, AdjustedSize(size), blocks) && HeaderOf(p) == Start(blocks, i)
      ensures p != 0 && !SomeFits(old(blocks), AdjustedSize(size)) ==>
                var bs, n := old(blocks) + [Block(Extension(AdjustedSize(size)) / 8, false)], |old(blocks)|;
                PlacedIn(Merged(bs, n), MergeFrom(bs, n), AdjustedSize(size), blocks) && HeaderOf(p) == Start(blocks, MergeFrom(bs, n))
      ensures p != 0 ==> InUse() == old(InUse()) + {(HeaderOf(p), data)} && NoneAt(old(InUse()), HeaderOf(p))
    {
      hide Total, Live, Covers, Word, Tiled, Coalesced, AdjustedSize32, AdjustedSize;
      data, wild := [], false;
      if size == 0 {
        return 0, wild, data;
      }
      AdjustedSizeExact(size);
      AdjustedSizeFits(size);
      var asize := AdjustedSize32(size);
      var found, h;
      ghost var i;
      found, h, i := FindFit(asize);
      if !found {
        var fate;
        fate, h, i := ExtendHeap(Extension(asize), grant);
        if !fate.Granted? {
          return 0, fate.Wild?, data;
        }
      }
      ghost var bs := blocks;
      Place(h, asize, i);
      AdjustedSizeTight(size);
      assert PlacedIn(bs, i, asize, blocks) && (found ==> FirstFits(bs, asize, i));
      data := Payload(mem, h, blocks[i].words);
      PayloadPlace(mem, blocks, i, base);
      p := PayloadAddress(h);
    }

    lemma PayloadPlace(m: seq<nat>, bs: seq<Block>, i: nat, b: nat)
      requires Tiled(m, bs) && i < |bs| && b % 16 == 0
      ensures var h := Start(bs, i);
              && 1 <= h && (b + 8 * h + 8) % 16 == 0 && |Payload(m, h, bs[i].words)| == bs[i].words - 2
              && bs[i].words >= 4 && h + bs[i].words < |m|
    {
      hide Covers, Total;
      BlockAt(m, bs, i);
    }

    /** What is in use is a block of the sequence. */
    lemma {:induction false} FindLive(m: seq<nat>, h: nat, bs: seq<Block>, x: (nat, seq<nat>)) returns (i: nat)
      requires Covers(m, h, bs) && x in Live(m, h, bs)
      ensures i < |bs| && bs[i].alloc && x == (h + Total(bs[..i]), Payload(m, h + Total(bs[..i]), bs[i].words))
      decreases |bs|
    {
      hide Payload;
      if x in Live(m, h + bs[0].words, bs[1..]) {
        i := FindLive(m, h + bs[0].words, bs[1..], x);
        assert bs[..i + 1] == [bs[0]] + bs[1..][..i];
        assert bs[..i + 1][1..] == bs[1..][..i];
        i := i + 1;
      } else {
        i := 0;
      }
    }

    /** _free of a payload that is in use, or of the null pointer. */
    method Free(p: nat, ghost data: seq<nat>)
      requires Ready() && (p != 0 ==> p >= base + 16 && (HeaderOf(p), data) in InUse())
      modifies this
      ensures Ready()
      ensures InUse() == if p == 0 then old(InUse()) else old(InUse()) - {(HeaderOf(p), data)}
    {
      hide Total, Live, Covers, Word, Tiled, Coalesced, ExtractSize;
      if p == 0 {
        return;
      }
      var h := HeaderOf(p);
      ghost var i := FindLive(mem, 1, blocks, (h, data)) by { TiledCovers(mem, blocks); }
      ghost var m, bs := mem, blocks;
      HeaderFacts(m, bs, i);
      One(bs, i);
      OneLive(m, bs, i);
      var words := ExtractSize(mem[h]) / 8;
      Remark(h, words, false, i, i + 1);
      FreedCoalesced(bs, i);
      StartSplice(bs, i, i + 1, [Block(words, false)]);
      MergedCoalesced(blocks, i);
      var r := Coalesce(h, i);
    }

    lemma TiledCovers(m: seq<nat>, bs: seq<Block>)
      requires Tiled(m, bs)
      ensures Covers(m, 1, bs)
    {
    }

    lemma OneLive(m: seq<nat>, bs: seq<Block>, i: nat)
      requires Tiled(m, bs) && i < |bs| && bs[i].alloc
      ensures Live(m, Start(bs, i), bs[i..i + 1]) == {(Start(bs, i), Payload(m, Start(bs, i), bs[i].words))}
    {
      hide Covers, Payload, Total;
      BlockAt(m, bs, i);
      One(bs, i);
      MarkedAlone(m, Start(bs, i), bs[i]);
    }

    lemma FreedCoalesced(bs: seq<Block>, i: nat)
      requires i < |bs| && Coalesced(bs)
      ensures CoalescedBut(Splice(bs, i, i + 1, [Block(bs[i].words, false)]), i)
    {
      var cs := Splice(bs, i, i + 1, [Block(bs[i].words, false)]);
      assert forall k :: 0 <= k < |cs| && k != i ==> cs[k] == bs[k];
    }

    /** _realloc. The new block holds the old payload, or as much of it as is asked for:
        its whole words, and of one more word the bytes that are left. */
    method Realloc(p: nat, size: nat, grant: bool, ghost data: seq<nat>) returns (q: nat, wild: bool, ghost copy: seq<nat>)
      requires Ready() && SmallRequest(size) && (p != 0 ==> p >= base + 16 && (HeaderOf(p), data) in InUse())
      modifies this
      ensures Ready()
      ensures p != 0 && size == 0 ==> q == 0 && InUse() == old(InUse()) - {(HeaderOf(p), data)}
      ensures q != 0 <==> size != 0 && (SomeFits(old(blocks), AdjustedSize(size)) || old(Room(Extension(AdjustedSize(size)), grant)))
      ensures wild <==> size != 0 && !SomeFits(old(blocks), AdjustedSize(size)) && old(Wraps(Extension(AdjustedSize(size))))
      ensures q == 0 && size != 0 ==> InUse() == old(InUse())
      ensures q != 0 ==> q >= base + 16 && q % 16 == 0 && size <= 8 * |copy| < size + 48
      ensures p == 0 && q != 0 ==> InUse() == old(InUse()) + {(HeaderOf(q), copy)}
      ensures p != 0 && q != 0 ==>
                && InUse() == old(InUse()) - {(HeaderOf(p), data)} + {(HeaderOf(q), copy)}
                && Copied(data, copy, if size < 8 * |data| then size else 8 * |data|)
    {
      hide Total, Live, Covers, Word, Tiled, Coalesced, Copied, AdjustedSize, Payload;
      copy, wild := [], false;
      if size == 0 {
        Free(p, data);
        return 0, wild, copy;
      }
      ghost var blank;
      q, wild, blank := Malloc(size, grant);
      copy := blank;
      if p == 0 || q == 0 {
        return;
      }
      copy := CopyPayload(HeaderOf(p), HeaderOf(q), size, data, blank);
      Free(p, data);
    }

    /** The memcpy of _realloc, from one payload to another. */
    method CopyPayload(h: nat, g: nat, size: nat, ghost data: seq<nat>, ghost blank: seq<nat>) returns (ghost copy: seq<nat>)
      requires Ready() && (h, data) in InUse() && (g, blank) in InUse() && h != g && size <= 8 * |blank|
      modifies this
      ensures Ready() && InUse() == old(InUse()) - {(g, blank)} + {(g, copy)} && |copy| == |blank|
      ensures var n := if size < 8 * |data| then size else 8 * |data|; Copied(data, copy, n) && KeptFrom(blank, copy, n)
    {
      hide Total, Live, Covers, Word, Tiled, Coalesced, Pow256, MixLow, BytesFrom, KeptFrom;
      PayloadWords(mem, blocks, h, data);
      PayloadWords(mem, blocks, g, blank);
      var copysize := ExtractSize(mem[h]) - 16;
      if size < copysize {
        copysize := size;
      }
      var n, k := copysize / 8, copysize % 8;
      var words := mem[h + 1..h + 1 + n];
      if k > 0 {
        words := words + [MixLow(mem[g + 1 + n], mem[h + 1 + n], k)];
        MixLowBytes(mem[g + 1 + n], mem[h + 1 + n], k);
      }
      copy := words + blank[|words|..];
      CopyKeeps(blank, copy, copysize, if k > 0 then mem[h + 1 + n] else 0);
      Fill(g, words, blank);
    }

    /** Writing the first words of a payload, by the program or by memcpy, disturbs nothing
        else. */
    method Fill(h: nat, words: seq<nat>, ghost data: seq<nat>)
      requires Ready() && (h, data) in InUse() && |words| <= |data|
      modifies this
      ensures Ready() && blocks == old(blocks)
      ensures InUse() == old(InUse()) - {(h, data)} + {(h, words + data[|words|..])}
    {
      hide Total, Live, Covers, Word, Tiled, Coalesced;
      FillFacts(mem, blocks, h, data, words);
      var i := 0;
      ghost var m := mem;
      while i < |words|
        invariant 0 <= i <= |words| && blocks == old(blocks) && top == old(top) && |mem| == |m|
        invariant mem == m[..h + 1] + words[..i] + m[h + 1 + i..]
      {
        mem := mem[h + 1 + i := words[i]];
        i := i + 1;
      }
      assert words[..|words|] == words;
    }

    lemma FillFacts(m: seq<nat>, bs: seq<Block>, h: nat, data: seq<nat>, words: seq<nat>)
      requires Tiled(m, bs) && (h, data) in Live(m, 1, bs) && |words| <= |data|
      ensures h + 1 + |words| <= |m|
      ensures var m' := m[..h + 1] + words + m[h + 1 + |words|..];
              Tiled(m', bs) && Live(m', 1, bs) == Live(m, 1, bs) - {(h, data)} + {(h, words + data[|words|..])} && |m'| == |m|
    {
      hide Total, Live, Covers, Word, Payload;
      var i := FindLive(m, 1, bs, (h, data)) by { TiledCovers(m, bs); }
      BlockAt(m, bs, i);
      PayloadLength(m, h, bs[i].words);
      OneLive(m, bs, i);
      One(bs, i);
      var m' := m[..h + 1] + words + m[h + 1 + |words|..];
      MarkedAlone(m', h, bs[i]);
      SpliceTiled(m, bs, i, i + 1, [bs[i]], m');
      assert Splice(bs, i, i + 1, [bs[i]]) == bs;
      FilledPayload(m, h, bs[i].words, data, words);
    }

    lemma PayloadLength(m: seq<nat>, h: nat, n: nat)
      requires 2 <= n && h + n <= |m|
      ensures |Payload(m, h, n)| == n - 2 && Payload(m, h, n) == m[h + 1..h + n - 1]
    {
    }

    lemma FilledPayload(m: seq<nat>, h: nat, n: nat, data: seq<nat>, words: seq<nat>)
      requires 2 <= n && h + n <= |m| && data == Payload(m, h, n) && |words| <= |data|
      ensures Payload(m[..h + 1] + words + m[h + 1 + |words|..], h, n) == words + data[|words|..]
    {
      var m' := m[..h + 1] + words + m[h + 1 + |words|..];
      assert m'[h + 1..h + 1 + |words|] == words;
      assert m'[h + 1 + |words|..h + n - 1] == m[h + 1 + |words|..h + n - 1];
    }

    /** Where a payload lies, and the header in front of it. */
    lemma PayloadWords(m: seq<nat>, bs: seq<Block>, h: nat, data: seq<nat>)
      requires Tiled(m, bs) && (h, data) in Live(m, 1, bs)
      ensures h + |data| + 1 < |m| && data == m[h + 1..h + 1 + |data|] && ExtractSize(m[h]) == 8 * |data| + 16
    {
      hide Total, Live, Covers, Word, Payload;
      var i := FindLive(m, 1, bs, (h, data)) by { TiledCovers(m, bs); }
      BlockAt(m, bs, i);
      PayloadLength(m, h, bs[i].words);
      WordDecodes(bs[i]);
    }
  }

  ghost predicate Fits(b: Block, asize: nat) { !b.alloc && asize <= 8 * b.words }

  /** Block `i` is the first free one that is large enough. */
  ghost predicate FirstFits(bs: seq<Block>, asize: nat, i: nat) {
    i < |bs| && !bs[i].alloc && asize <= 8 * bs[i].words && forall k :: 0 <= k < i ==> bs[k].alloc || 8 * bs[k].words < asize
  }

  /** Block `i` is in use; what it has more than is asked for is a free block if it can be one,
      and no other block is changed. */
  ghost predicate PlacedIn(bs: seq<Block>, i: nat, asize: nat, cs: seq<Block>)
    requires i < |bs|
  {
    if 8 * bs[i].words >= asize + 32
    then cs == bs[..i] + [Block(asize / 8, true), Block(bs[i].words - asize / 8, false)] + bs[i + 1..]
    else cs == bs[..i] + [Block(bs[i].words, true)] + bs[i + 1..]
  }

  ghost predicate SomeFits(bs: seq<Block>, asize: nat) { exists k :: 0 <= k < |bs| && Fits(bs[k], asize) }

  /** What _malloc asks extend_heap for. */
  function Extension(asize: nat): nat { if asize > 4096 then asize else 4096 }

  ghost predicate NoneAt(live: set<(nat, seq<nat>)>, h: nat) { forall x :: x in live ==> x.0 != h }

  // ----------------------------------------------------------------- parts of words

  function Pow256(k: nat): (p: nat)
    ensures p > 0
  {
    if k == 0 then 1 else 256 * Pow256(k - 1)
  }

  /** `w` with its low `k` bytes taken from `v`. */
  function MixLow(w: nat, v: nat, k: nat): nat { Mix(w, v, Pow256(k)) }

  function Mix(w: nat, v: nat, p: nat): nat
    requires p > 0
  {
    p * (w / p) + v % p
  }

  lemma MixLowBytes(w: nat, v: nat, k: nat)
    ensures MixLow(w, v, k) % Pow256(k) == v % Pow256(k) && MixLow(w, v, k) / Pow256(k) == w / Pow256(k)
  {
    hide Pow256;
    ModUnique(MixLow(w, v, k), Pow256(k), w / Pow256(k), v % Pow256(k));
  }

  /** Byte `k` of a word and those above it, and the bytes of a payload, the least one of
      each word first. */
  function BytesFrom(w: nat, k: nat): nat { if k == 0 then w else BytesFrom(w / 0x100, k - 1) }

  function ByteOf(data: seq<nat>, i: nat): nat
    requires i / 8 < |data|
  {
    BytesFrom(data[i / 8], i % 8) % 0x100
  }

  lemma {:induction false} BytesFromIs(w: nat, k: nat)
    ensures BytesFrom(w, k) == w / Pow256(k)
  {
    if k > 0 {
      BytesFromIs(w / 0x100, k - 1);
      LowNext(w, Pow256(k - 1));
    }
  }

  lemma LowNext(w: nat, p: nat)
    requires p > 0
    ensures w / (0x100 * p) == w / 0x100 / p && w % (0x100 * p) == 0x100 * (w / 0x100 % p) + w % 0x100
  {
    var v := w / 0x100;
    assert w == 0x100 * v + w % 0x100 && v == p * (v / p) + v % p;
    assert 0x100 * (p * (v / p)) == (0x100 * p) * (v / p);
    ModUnique(w, 0x100 * p, v / p, 0x100 * (v % p) + w % 0x100);
  }

  ghost predicate SameBytes(x: nat, y: nat, k: nat) { forall j: nat :: j < k ==> BytesFrom(x, j) % 0x100 == BytesFrom(y, j) % 0x100 }

  /** The same low bytes, as numbers and one by one. */
  lemma {:induction false} SameLow(x: nat, y: nat, k: nat)
    ensures x % Pow256(k) == y % Pow256(k) <==> SameBytes(x, y, k)
    decreases k
  {
    if k > 0 {
      SameLow(x / 0x100, y / 0x100, k - 1);
      SameNext(x, y, k, x / 0x100, y / 0x100);
      LowNext(x, Pow256(k - 1));
      LowNext(y, Pow256(k - 1));
    }
  }

  lemma SameNext(x: nat, y: nat, k: nat, u: nat, v: nat)
    requires k > 0 && u == x / 0x100 && v == y / 0x100
    ensures SameBytes(x, y, k) <==> x % 0x100 == y % 0x100 && SameBytes(u, v, k - 1)
  {
    assert BytesFrom(x, 0) == x && BytesFrom(y, 0) == y;
    forall j: nat | 0 < j < k
      ensures BytesFrom(x, j) == BytesFrom(u, j - 1) && BytesFrom(y, j) == BytesFrom(v, j - 1)
    {
    }
    forall j: nat | j < k - 1 && SameBytes(x, y, k)
      ensures BytesFrom(u, j) % 0x100 == BytesFrom(v, j) % 0x100
    {
      assert BytesFrom(x, j + 1) == BytesFrom(u, j);
    }
  }

  /** The first `n` bytes of two payloads are the same. */
  ghost predicate Copied(data: seq<nat>, copy: seq<nat>, n: nat) {
    && (n + 7) / 8 <= |data| && (n + 7) / 8 <= |copy|
    && (forall w :: 0 <= w < n / 8 ==> copy[w] == data[w])
    && (n % 8 > 0 ==> copy[n / 8] % Pow256(n % 8) == data[n / 8] % Pow256(n % 8))
  }

  lemma {:induction false} BytesAgain(w: nat, k: nat, j: nat)
    requires k <= j
    ensures BytesFrom(w, j) == BytesFrom(BytesFrom(w, k), j - k)
  {
    if k > 0 { BytesAgain(w / 0x100, k - 1, j - 1); }
  }

  /** The other bytes stay. */
  lemma MixKeeps(w: nat, v: nat, k: nat, j: nat)
    requires k <= j
    ensures BytesFrom(MixLow(w, v, k), j) == BytesFrom(w, j)
  {
    hide Mix, MixLow, Pow256, BytesFrom;
    var m := MixLow(w, v, k);
    MixLowBytes(w, v, k);
    BytesFromIs(m, k);
    BytesFromIs(w, k);
    BytesAgain(m, k, j);
    BytesAgain(w, k, j);
  }

  /** From byte `n` on the payloads are the same. */
  ghost predicate KeptFrom(blank: seq<nat>, copy: seq<nat>, n: nat) {
    |copy| == |blank| && forall i: nat :: n <= i < 8 * |copy| ==> ByteOf(copy, i) == ByteOf(blank, i)
  }

  lemma CopyKeeps(blank: seq<nat>, copy: seq<nat>, n: nat, v: nat)
    requires |copy| == |blank| && n <= 8 * |copy| && forall w :: (n + 7) / 8 <= w < |copy| ==> copy[w] == blank[w]
    requires n % 8 > 0 ==> copy[n / 8] == MixLow(blank[n / 8], v, n % 8)
    ensures KeptFrom(blank, copy, n)
  {
    hide MixLow, BytesFrom;
    forall i: nat | n <= i < 8 * |copy|
      ensures ByteOf(copy, i) == ByteOf(blank, i)
    {
      if i / 8 == n / 8 && n % 8 > 0 { MixKeeps(blank[n / 8], v, n % 8, i % 8); }
    }
  }

  /** So each of these bytes has been copied. */
  lemma CopiedBytes(data: seq<nat>, copy: seq<nat>, n: nat, i: nat)
    requires Copied(data, copy, n) && i < n
    ensures i / 8 < |data| && i / 8 < |copy| && ByteOf(copy, i) == ByteOf(data, i)
  {
    hide Pow256, BytesFrom;
    if i / 8 == n / 8 { SameLow(copy[i / 8], data[i / 8], n % 8); }
  }
}
