/** The blocks of an implicit-list heap, and the words of memory that encode them. */
module Blocks {

  /** A block of `words` eight-byte words, header and footer included. */
  datatype Block = Block(words: nat, alloc: bool)

  predicate GoodBlock(b: Block) { b.words >= 4 && b.words % 2 == 0 }

  // ---------------------------------------------------------------- header words

  /** pack, for sizes that are multiples of sixteen bytes. */
  function Pack(size: nat, alloc: bool): nat { if alloc then size + 1 else size }

  /** extract_size and extract_alloc */
  function ExtractSize(word: nat): nat { word / 16 * 16 }

  predicate ExtractAlloc(word: nat) { word % 2 == 1 }

  function Word(b: Block): nat { Pack(8 * b.words, b.alloc) }

  /** A header tells the size and the state of its block. */
  lemma WordDecodes(b: Block)
    requires b.words % 2 == 0
    ensures ExtractSize(Word(b)) == 8 * b.words && (ExtractAlloc(Word(b)) <==> b.alloc)
  {
  }

  // ------------------------------------------------------------------- the tiling

  /** Header and footer of block `b` stand at word `h` and at its end. */
  ghost predicate Marked(mem: seq<nat>, h: nat, b: Block) {
    GoodBlock(b) && h + b.words <= |mem| && mem[h] == Word(b) && mem[h + b.words - 1] == Word(b)
  }

  ghost function Total(bs: seq<Block>): nat { if bs == [] then 0 else bs[0].words + Total(bs[1..]) }

  /** The blocks tile memory from word `h` on, and each header equals its footer. */
  ghost predicate Covers(mem: seq<nat>, h: nat, bs: seq<Block>)
    decreases |bs|
  {
    bs == [] || (Marked(mem, h, bs[0]) && Covers(mem, h + bs[0].words, bs[1..]))
  }

  /** From the footer of the prologue to the header of the epilogue. */
  ghost predicate Tiled(mem: seq<nat>, bs: seq<Block>) {
    && |mem| == Total(bs) + 2 && mem[0] == Pack(0, true) && mem[|mem| - 1] == Pack(0, true)
    && Covers(mem, 1, bs)
  }

  /** No two free blocks are neighbours. */
  ghost predicate Coalesced(bs: seq<Block>) {
    forall k :: 0 < k < |bs| ==> bs[k - 1].alloc || bs[k].alloc
  }

  // ------------------------------------------------------------------ what is in use

  ghost function Payload(mem: seq<nat>, h: nat, words: nat): seq<nat> {
    if 2 <= words && h + words <= |mem| then mem[h + 1..h + words - 1] else []
  }

  /** The blocks in use from word `h` on: where they start and what they hold. */
  ghost function Live(mem: seq<nat>, h: nat, bs: seq<Block>): set<(nat, seq<nat>)>
    decreases |bs|
  {
    if bs == [] then {}
    else (if bs[0].alloc then {(h, Payload(mem, h, bs[0].words))} else {}) + Live(mem, h + bs[0].words, bs[1..])
  }

  lemma {:induction false} TotalConcat(l: seq<Block>, r: seq<Block>)
    ensures Total(l + r) == Total(l) + Total(r)
  {
    if l == [] {
      assert l + r == r;
    } else {
      assert (l + r)[1..] == l[1..] + r;
      TotalConcat(l[1..], r);
    }
  }

  /** Tilings and what is in use, of two stretches of blocks one after the other. */
  lemma {:induction false} CoversConcat(mem: seq<nat>, h: nat, l: seq<Block>, r: seq<Block>)
    ensures Covers(mem, h, l + r) <==> Covers(mem, h, l) && Covers(mem, h + Total(l), r)
    ensures Live(mem, h, l + r) == Live(mem, h, l) + Live(mem, h + Total(l), r)
    decreases |l|
  {
    if l == [] {
      assert l + r == r;
    } else {
      assert (l + r)[1..] == l[1..] + r;
      CoversConcat(mem, h + l[0].words, l[1..], r);
    }
  }

  /** Writes elsewhere do not matter. */
  lemma {:induction false} CoversFrame(mem: seq<nat>, mem': seq<nat>, h: nat, bs: seq<Block>)
    requires Covers(mem, h, bs) && h + Total(bs) <= |mem'|
    requires forall a :: h <= a < h + Total(bs) && a < |mem| ==> mem'[a] == mem[a]
    ensures Covers(mem', h, bs) && Live(mem', h, bs) == Live(mem, h, bs)
    decreases |bs|
  {
    if bs != [] {
      CoversFrame(mem, mem', h + bs[0].words, bs[1..]);
      assert Payload(mem', h, bs[0].words) == Payload(mem, h, bs[0].words);
    }
  }

  lemma {:induction false} LiveBounds(mem: seq<nat>, h: nat, bs: seq<Block>)
    requires Covers(mem, h, bs)
    ensures forall x :: x in Live(mem, h, bs) ==> h <= x.0 < h + Total(bs)
    decreases |bs|
  {
    if bs != [] { LiveBounds(mem, h + bs[0].words, bs[1..]); }
  }

  lemma {:induction false} LiveNone(mem: seq<nat>, h: nat, bs: seq<Block>)
    requires forall k :: 0 <= k < |bs| ==> !bs[k].alloc
    ensures Live(mem, h, bs) == {}
    decreases |bs|
  {
    if bs != [] {
      assert forall k :: 0 <= k < |bs[1..]| ==> bs[1..][k] == bs[k + 1];
      LiveNone(mem, h + bs[0].words, bs[1..]);
    }
  }

  lemma {:induction false} CoversInside(mem: seq<nat>, h: nat, bs: seq<Block>)
    requires Covers(mem, h, bs) && h <= |mem|
    ensures h + Total(bs) <= |mem|
    decreases |bs|
  {
    if bs != [] { CoversInside(mem, h + bs[0].words, bs[1..]); }
  }

  // ------------------------------------------------------------------- replacing blocks

  /** The word at which block `k` starts. */
  ghost function Start(bs: seq<Block>, k: nat): nat
    requires k <= |bs|
  {
    1 + Total(bs[..k])
  }

  function Splice(bs: seq<Block>, i: nat, j: nat, mid: seq<Block>): seq<Block>
    requires i <= j <= |bs|
  {
    bs[..i] + mid + bs[j..]
  }

  /** Memory agrees outside words lo up to hi. */
  ghost predicate AgreeOutside(mem: seq<nat>, mem': seq<nat>, lo: nat, hi: nat) {
    |mem'| == |mem| && forall a :: 0 <= a < |mem| && !(lo <= a < hi) ==> mem'[a] == mem[a]
  }

  /** The parts of a tiling before, between and after positions i and j. */
  lemma Parts(mem: seq<nat>, bs: seq<Block>, i: nat, j: nat)
    requires Tiled(mem, bs) && i <= j <= |bs|
    ensures Start(bs, j) == Start(bs, i) + Total(bs[i..j]) && Start(bs, j) + Total(bs[j..]) == |mem| - 1
    ensures Covers(mem, 1, bs[..i]) && Covers(mem, Start(bs, i), bs[i..j]) && Covers(mem, Start(bs, j), bs[j..])
    ensures Live(mem, 1, bs) == Live(mem, 1, bs[..i]) + Live(mem, Start(bs, i), bs[i..j]) + Live(mem, Start(bs, j), bs[j..])
    ensures forall x :: x in Live(mem, 1, bs[..i]) + Live(mem, Start(bs, j), bs[j..]) ==> !(Start(bs, i) <= x.0 < Start(bs, j))
  {
    hide Covers, Live, Total;
    assert bs == bs[..i] + bs[i..] && bs[i..] == bs[i..j] + bs[j..] && bs[..j] == bs[..i] + bs[i..j];
    TotalConcat(bs[..i], bs[i..]);
    TotalConcat(bs[i..j], bs[j..]);
    TotalConcat(bs[..i], bs[i..j]);
    CoversConcat(mem, 1, bs[..i], bs[i..]);
    CoversConcat(mem, Start(bs, i), bs[i..j], bs[j..]);
    LiveBounds(mem, 1, bs[..i]);
    LiveBounds(mem, Start(bs, j), bs[j..]);
  }

  /** Re-tiling a stretch of memory: the blocks before and after it, and what they hold,
      stay as they were. */
  lemma SpliceTiled(mem: seq<nat>, bs: seq<Block>, i: nat, j: nat, mid: seq<Block>, mem': seq<nat>)
    requires Tiled(mem, bs) && i <= j <= |bs| && Total(mid) == Total(bs[i..j])
    requires AgreeOutside(mem, mem', Start(bs, i), Start(bs, j)) && Covers(mem', Start(bs, i), mid)
    ensures Tiled(mem', Splice(bs, i, j, mid))
    ensures Live(mem', 1, Splice(bs, i, j, mid)) ==
            (Live(mem, 1, bs) - Live(mem, Start(bs, i), bs[i..j])) + Live(mem', Start(bs, i), mid)
  {
    hide Covers, Live, Total;
    Parts(mem, bs, i, j);
    LiveBounds(mem, Start(bs, i), bs[i..j]);
    CoversFrame(mem, mem', 1, bs[..i]);
    CoversFrame(mem, mem', Start(bs, j), bs[j..]);
    CoversConcat(mem', 1, bs[..i], mid);
    CoversConcat(mem', 1, bs[..i] + mid, bs[j..]);
    TotalConcat(bs[..i], mid);
    TotalConcat(bs[..i] + mid, bs[j..]);
    SpliceWords(bs, i, j, |mem|);
  }

  lemma SpliceWords(bs: seq<Block>, i: nat, j: nat, n: nat)
    requires i <= j <= |bs| && n == Total(bs) + 2
    ensures Start(bs, i) + Total(bs[i..j]) + Total(bs[j..]) == n - 1
  {
    assert bs == bs[..i] + bs[i..] && bs[i..] == bs[i..j] + bs[j..];
    TotalConcat(bs[..i], bs[i..]);
    TotalConcat(bs[i..j], bs[j..]);
  }

  /** Block `k` of a tiling. */
  lemma BlockAt(mem: seq<nat>, bs: seq<Block>, k: nat)
    requires Tiled(mem, bs) && k < |bs|
    ensures Marked(mem, Start(bs, k), bs[k]) && Start(bs, k + 1) == Start(bs, k) + bs[k].words < |mem|
    ensures Total([bs[k]]) == bs[k].words && Start(bs, k) % 2 == 1
  {
    Parts(mem, bs, k, k + 1);
    assert bs[k..k + 1] == [bs[k]];
    assert [bs[k]][1..] == [];
    StartOdd(mem, 1, bs[..k]);
  }

  lemma {:induction false} StartOdd(mem: seq<nat>, h: nat, bs: seq<Block>)
    requires Covers(mem, h, bs)
    ensures Total(bs) % 2 == 0
    decreases |bs|
  {
    if bs != [] { StartOdd(mem, h + bs[0].words, bs[1..]); }
  }

  /** The first and the last word of the heap, as blocks see them. */
  lemma Ends(mem: seq<nat>, bs: seq<Block>)
    requires Tiled(mem, bs)
    ensures Start(bs, 0) == 1 && Start(bs, |bs|) == |mem| - 1
  {
    assert bs[..|bs|] == bs;
  }

  /** Payloads in use do not overlap. */
  lemma {:induction false} LiveApart(mem: seq<nat>, h: nat, bs: seq<Block>, x: (nat, seq<nat>), y: (nat, seq<nat>))
    requires Covers(mem, h, bs) && x in Live(mem, h, bs) && y in Live(mem, h, bs) && x != y
    ensures x.0 + |x.1| + 2 <= y.0 || y.0 + |y.1| + 2 <= x.0
    decreases |bs|
  {
    LiveBounds(mem, h + bs[0].words, bs[1..]);
    if x in Live(mem, h + bs[0].words, bs[1..]) && y in Live(mem, h + bs[0].words, bs[1..]) {
      LiveApart(mem, h + bs[0].words, bs[1..], x, y);
    }
  }
}
