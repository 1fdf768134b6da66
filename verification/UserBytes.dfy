/** What a program can read in its address space, byte by byte. */
module UserBytes {
  import opened Basics
  import opened FramePool
  import opened PageDirectory
  import opened AddressSpace

  const ADDRESS_END: nat := 0x1_0000_0000

  /** What a byte of memory holds, by its address. */
  type Image = int -> bv8

  /** The contents of a page: zeros if it has no frame of its own. */
  function PageBytes(t: Snapshot, pn: nat): Contents {
    if pn in t.space && Private(t.space[pn]) then Holds(t.ram, t.space[pn].frame) else Zeros()
  }

  function ByteAt(t: Snapshot, a: nat): bv8 { PageBytes(t, PageOf(a))[a % PAGE_SIZE] }

  /** User memory holds these bytes. */
  ghost predicate Shows(t: Snapshot, img: Image) {
    forall a: nat :: UserPage(PageOf(a)) ==> ByteAt(t, a) == img(a)
  }

  /** Pages that hold what they held before show the same bytes. */
  lemma SamePages(t: Snapshot, t': Snapshot, img: Image)
    requires Shows(t, img) && forall pn: nat :: UserPage(pn) ==> PageBytes(t', pn) == PageBytes(t, pn)
    ensures Shows(t', img)
  {
  }

  /** A store changes one byte. */
  lemma StoredByte(t: Snapshot, img: Image, a: nat, b: bv8)
    requires ValidSpace(t.space) && Shows(t, img) && UserPage(PageOf(a)) && Private(t.space[PageOf(a)])
    ensures var f := t.space[PageOf(a)].frame;
            Shows(t.(ram := t.ram[f := Holds(t.ram, f)[a % PAGE_SIZE := b]]), Put(img, a, b))
  {
    var f := t.space[PageOf(a)].frame;
    var t' := t.(ram := t.ram[f := Holds(t.ram, f)[a % PAGE_SIZE := b]]);
    forall x: nat | UserPage(PageOf(x))
      ensures ByteAt(t', x) == Put(img, a, b)(x)
    {
      assert ByteAt(t, x) == img(x);
      if PageOf(x) == PageOf(a) { SameByte(a, x); }
    }
  }

  lemma SameByte(a: nat, x: nat)
    requires PageOf(x) == PageOf(a)
    ensures x % PAGE_SIZE == a % PAGE_SIZE <==> x == a
  {
  }

  /** They are what a program finds wherever it may look. */
  lemma ProgramReads(t: Snapshot, img: Image, pn: nat, i: nat)
    requires InOrder(t) && Shows(t, img) && UserPage(pn) && i < 0x1000 && View(t.space, t.ram, pn).Some?
    ensures View(t.space, t.ram, pn).value[i] == img(pn * 0x1000 + i)
  {
    var a := pn * 0x1000 + i;
    assert PageOf(a) == pn && a % PAGE_SIZE == i;
    assert ByteAt(t, a) == img(a);
    assert ValidEntry(t.space[pn]);
  }

  function Blank(): Image { _ => 0 }

  lemma FreshShows(t: Snapshot)
    requires t.space == Fresh()
    ensures Shows(t, Blank())
  {
  }

  // ---------------------------------------------------------- bytes in a row

  /** From address `low` on, `img` has these bytes. */
  ghost predicate HasBytes(img: Image, low: int, data: seq<bv8>) {
    forall i: nat :: i < |data| ==> img(low + i) == data[i]
  }

  /** The same memory from `high` on. */
  ghost predicate AgreeFrom(img: Image, img': Image, high: int) { forall a: int :: a >= high ==> img'(a) == img(a) }

  /** Nothing but zeros below `high`. */
  ghost predicate BlankBelow(img: Image, high: int) { forall a: int :: a < high ==> img(a) == 0 }

  /** The memory after writing bytes in a row. */
  ghost predicate Written(img: Image, img': Image, low: int, data: seq<bv8>) {
    forall a: int :: img'(a) == if low <= a < low + |data| then data[a - low] else img(a)
  }

  lemma WrittenHas(img: Image, img': Image, low: int, data: seq<bv8>)
    requires Written(img, img', low, data)
    ensures HasBytes(img', low, data) && AgreeFrom(img, img', low + |data|)
    ensures forall high: int :: high <= low && BlankBelow(img, high) ==> BlankBelow(img', high)
  {
  }

  lemma AgreeHas(img: Image, img': Image, high: int, low: int, data: seq<bv8>)
    requires AgreeFrom(img, img', high) && high <= low && HasBytes(img, low, data)
    ensures HasBytes(img', low, data)
  {
  }

  /** One byte more. */
  function Put(img: Image, a: int, b: bv8): Image { (x: int) => if x == a then b else img(x) }

  lemma PutNext(img: Image, img': Image, low: int, data: seq<bv8>, i: nat)
    requires i < |data| && Written(img, img', low, data[..i])
    ensures Written(img, Put(img', low + i, data[i]), low, data[..i + 1])
  {
  }

  /** Zeros written over zeros change nothing. */
  lemma PaddingIsBlank(img: Image, img': Image, img'': Image, low: int, data: seq<bv8>, padding: nat, high: int)
    requires BlankBelow(img, high) && low + |data| + padding <= high
    requires Written(img, img', low, data) && Written(img', img'', low + |data|, seq(padding, _ => 0))
    ensures Written(img, img'', low, data)
  {
  }

  // ------------------------------------------------------------------- words

  /** The byte of a number. */
  function LowByte(x: nat): (b: bv8)
    requires x < 0x100
    ensures b as nat == x
  {
    if x == 0 then 0 else LowByte(x - 1) + 1
  }

  /** A 32-bit word in memory, the least byte first. */
  function WordBytes(w: int): (r: seq<bv8>)
    ensures |r| == 4
  {
    [LowByte(w % 0x100), LowByte(w / 0x100 % 0x100), LowByte(w / 0x1_0000 % 0x100), LowByte(w / 0x100_0000 % 0x100)]
  }

  lemma WordDigits(w: nat)
    requires w < ADDRESS_END
    ensures w % 0x100 + 0x100 * (w / 0x100 % 0x100) + 0x1_0000 * (w / 0x1_0000 % 0x100) + 0x100_0000 * (w / 0x100_0000 % 0x100) == w
  {
  }

  lemma WordMeans(w: nat)
    requires w < 0x1_0000_0000
    ensures var r := WordBytes(w);
            r[0] as nat + 0x100 * r[1] as nat + 0x1_0000 * r[2] as nat + 0x100_0000 * r[3] as nat == w
  {
    hide LowByte;
    WordDigits(w);
  }

  /** Words one behind the other. */
  function Vector(ws: seq<int>): (r: seq<bv8>)
    ensures |r| == 4 * |ws|
  {
    if ws == [] then [] else Vector(ws[..|ws| - 1]) + WordBytes(ws[|ws| - 1])
  }

  ghost predicate HasWords(img: Image, low: int, ws: seq<int>) {
    forall i: nat :: i < |ws| ==> HasBytes(img, low + 4 * i, WordBytes(ws[i]))
  }

  lemma {:induction false} VectorHas(img: Image, low: int, ws: seq<int>)
    requires HasBytes(img, low, Vector(ws))
    ensures HasWords(img, low, ws)
  {
    hide WordBytes;
    if ws != [] {
      var n := |ws| - 1;
      var front, last := Vector(ws[..n]), WordBytes(ws[n]);
      assert Vector(ws) == front + last;
      assert forall k: nat :: k < |front| ==> (front + last)[k] == front[k];
      VectorHas(img, low, ws[..n]);
      forall k: nat | k < 4
        ensures img(low + 4 * n + k) == last[k]
      {
        assert img(low + (4 * n + k)) == (front + last)[4 * n + k];
      }
    }
  }

  lemma AgreeWords(img: Image, img': Image, high: int, low: int, ws: seq<int>)
    requires AgreeFrom(img, img', high) && high <= low && HasWords(img, low, ws)
    ensures HasWords(img', low, ws)
  {
    forall i: nat | i < |ws|
      ensures HasBytes(img', low + 4 * i, WordBytes(ws[i]))
    {
      AgreeHas(img, img', high, low + 4 * i, WordBytes(ws[i]));
    }
  }

  /** One word below the others. */
  lemma WordNext(img: Image, img': Image, low: int, ws: seq<int>, w: int)
    requires HasWords(img, low, ws) && Written(img, img', low - 4, WordBytes(w))
    ensures HasWords(img', low - 4, [w] + ws)
  {
    hide WordBytes, HasBytes;
    WrittenHas(img, img', low - 4, WordBytes(w));
    AgreeWords(img, img', low, low, ws);
    forall i: nat | i < |[w] + ws|
      ensures HasBytes(img', low - 4 + 4 * i, WordBytes(([w] + ws)[i]))
    {
      if i > 0 {
        assert HasBytes(img', low + 4 * (i - 1), WordBytes(ws[i - 1]));
      }
    }
  }
}
