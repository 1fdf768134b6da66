/** Free lists of the List Memory Manager: what a canonical list is, and what taking a
    block out of it or putting one back does. */
module LmmNodes {

  /** A free block. */
  datatype Node = Node(addr: nat, size: nat)

  /** Round down and up to the size of a list node, eight bytes. */
  function Down(a: nat): (r: nat)
    ensures r <= a < r + 8 && Aligned(r)
  {
    a / 8 * 8
  }

  function Up(a: nat): (r: nat)
    ensures a <= r < a + 8 && Aligned(r)
  {
    (a + 7) / 8 * 8
  }

  predicate Aligned(a: int) { a % 8 == 0 }

  function EndOf(n: Node): nat { n.addr + n.size }

  predicate GoodNode(n: Node) { 0 < n.size && Aligned(n.addr) && Aligned(n.size) }

  /** Ascending, aligned, and with a gap between neighbours: no two nodes could be one. */
  ghost predicate Canonical(l: seq<Node>) {
    && (forall i :: 0 <= i < |l| ==> GoodNode(l[i]))
    && forall i :: 0 < i < |l| ==> EndOf(l[i - 1]) < l[i].addr
  }

  ghost predicate Inside(l: seq<Node>, min: nat, max: nat) {
    forall i :: 0 <= i < |l| ==> min <= l[i].addr && EndOf(l[i]) <= max
  }

  /** The addresses from lo up to hi. */
  ghost function Range(lo: int, hi: int): iset<int> { iset a: int | Within(a, lo, hi) }

  predicate Within(a: int, lo: int, hi: int) { lo <= a < hi }

  /** The free bytes. */
  ghost function Bytes(l: seq<Node>): iset<int> { if l == [] then iset{} else Range(l[0].addr, EndOf(l[0])) + Bytes(l[1..]) }

  ghost function Sum(l: seq<Node>): nat { if l == [] then 0 else l[0].size + Sum(l[1..]) }

  // ------------------------------------------------------------------- joining lists

  lemma {:induction false} SumConcat(l: seq<Node>, r: seq<Node>)
    ensures Sum(l + r) == Sum(l) + Sum(r) && Bytes(l + r) == Bytes(l) + Bytes(r)
  {
    if l == [] {
      assert l + r == r;
    } else {
      assert (l + r)[1..] == l[1..] + r;
      SumConcat(l[1..], r);
    }
  }

  /** A gap between the two lists. */
  ghost predicate Before(l: seq<Node>, r: seq<Node>) {
    l != [] && r != [] ==> EndOf(l[|l| - 1]) < r[0].addr
  }

  /** Two canonical lists with a gap between them make a canonical list. */
  lemma Concat(l: seq<Node>, r: seq<Node>)
    requires Canonical(l) && Canonical(r) && Before(l, r)
    ensures Canonical(l + r) && Sum(l + r) == Sum(l) + Sum(r) && Bytes(l + r) == Bytes(l) + Bytes(r)
  {
    SumConcat(l, r);
  }

  /** The two parts of a canonical list around position `k`. */
  lemma Cut(l: seq<Node>, k: nat)
    requires Canonical(l) && k <= |l|
    ensures Canonical(l[..k]) && Canonical(l[k..]) && Before(l[..k], l[k..])
    ensures Sum(l) == Sum(l[..k]) + Sum(l[k..]) && Bytes(l) == Bytes(l[..k]) + Bytes(l[k..])
  {
    hide Bytes, Sum;
    assert l == l[..k] + l[k..];
    SumConcat(l[..k], l[k..]);
  }

  /** Where the free bytes lie. */
  lemma {:induction false} Bounds(l: seq<Node>)
    requires Canonical(l) && l != []
    ensures l[0].addr < EndOf(l[|l| - 1])
    ensures forall a :: a in Bytes(l) ==> l[0].addr <= a < EndOf(l[|l| - 1])
    ensures l[0].addr in Bytes(l)
  {
    if |l| > 1 {
      Cut(l, 1);
      Bounds(l[1..]);
    }
  }

  lemma {:induction false} Order(l: seq<Node>, i: nat, j: nat)
    requires Canonical(l) && i < j < |l|
    ensures EndOf(l[i]) < l[j].addr
  {
    if i + 1 < j { Order(l, i, j - 1); }
  }

  lemma Single(n: Node)
    ensures GoodNode(n) ==> Canonical([n])
    ensures Sum([n]) == n.size && Bytes([n]) == Range(n.addr, EndOf(n))
  {
    assert [n][1..] == [];
  }

  // -------------------------------------------------------------- one list for one set

  /** The first node starts at the least free byte and ends at the first byte after it
      that is not free. */
  lemma FirstNode(l: seq<Node>)
    requires Canonical(l) && l != []
    ensures l[0].addr in Bytes(l) && EndOf(l[0]) !in Bytes(l)
    ensures forall a :: a in Bytes(l) ==> l[0].addr <= a
    ensures Canonical(l[1..]) && Bytes(l[1..]) == Bytes(l) - Range(l[0].addr, EndOf(l[0]))
  {
    Bounds(l);
    Cut(l, 1);
    if |l| > 1 { Bounds(l[1..]); }
  }

  /** A canonical list is determined by its bytes. */
  lemma {:induction false} CanonicalUnique(l: seq<Node>, m: seq<Node>)
    requires Canonical(l) && Canonical(m) && Bytes(l) == Bytes(m)
    ensures l == m
  {
    if l != [] { FirstNode(l); }
    if m != [] { FirstNode(m); }
    if l != [] && m != [] {
      SameEnd(l, m);
      SameEnd(m, l);
      CanonicalUnique(l[1..], m[1..]);
    }
  }

  lemma SameEnd(l: seq<Node>, m: seq<Node>)
    requires Canonical(l) && Canonical(m) && l != [] && m != [] && Bytes(l) == Bytes(m)
    ensures l[0].addr <= m[0].addr && (l[0].addr == m[0].addr ==> EndOf(m[0]) <= EndOf(l[0]))
  {
    FirstNode(l);
    FirstNode(m);
    var end, range := EndOf(l[0]), Range(m[0].addr, EndOf(m[0]));
    assert l[0].addr == m[0].addr && end < EndOf(m[0]) ==> end in range;
  }

  // ---------------------------------------------------------------------- taking

  /** The list after bytes lo to hi have been cut out of node `k`. */
  function Taken(l: seq<Node>, k: nat, lo: nat, hi: nat): seq<Node>
    requires k < |l| && l[k].addr <= lo <= hi <= EndOf(l[k])
  {
    l[..k] + Rest(l[k], lo, hi) + l[k + 1..]
  }

  /** What is left of a node. */
  function Rest(n: Node, lo: nat, hi: nat): seq<Node>
    requires n.addr <= lo <= hi <= EndOf(n)
  {
    (if n.addr < lo then [Node(n.addr, lo - n.addr)] else []) + (if hi < EndOf(n) then [Node(hi, EndOf(n) - hi)] else [])
  }

  /** A list between two others, with room on both sides. */
  lemma Between(l: seq<Node>, mid: seq<Node>, r: seq<Node>)
    requires Canonical(l) && Canonical(mid) && Canonical(r) && Before(l, mid) && Before(mid, r) && Before(l, r)
    ensures Canonical(l + mid + r)
    ensures Sum(l + mid + r) == Sum(l) + Sum(mid) + Sum(r) && Bytes(l + mid + r) == Bytes(l) + Bytes(mid) + Bytes(r)
  {
    Concat(l, mid);
    Concat(l + mid, r);
  }

  lemma Nothing()
    ensures Bytes([]) == iset{} && Sum([]) == 0 && Canonical([])
  {
  }

  lemma RestCanonical(n: Node, lo: nat, hi: nat)
    requires GoodNode(n) && n.addr <= lo < hi <= EndOf(n) && Aligned(lo) && Aligned(hi)
    ensures var r := Rest(n, lo, hi);
            && Canonical(r) && Sum(r) == n.size - (hi - lo) && Bytes(r) == Range(n.addr, EndOf(n)) - Range(lo, hi)
            && Inside(r, n.addr, EndOf(n))
  {
    hide Bytes, Sum, Range, Canonical;
    var l := if n.addr < lo then [Node(n.addr, lo - n.addr)] else [];
    var r := if hi < EndOf(n) then [Node(hi, EndOf(n) - hi)] else [];
    Piece(n.addr, lo);
    Piece(hi, EndOf(n));
    Concat(l, r);
    RangeMinus(n.addr, lo, hi, EndOf(n));
  }

  /** A piece of memory as a list of at most one node. */
  lemma Piece(lo: nat, hi: nat)
    requires lo <= hi && Aligned(lo) && Aligned(hi)
    ensures var l := if lo < hi then [Node(lo, hi - lo)] else [];
            Canonical(l) && Bytes(l) == Range(lo, hi) && Sum(l) == hi - lo
  {
    Nothing();
    if lo < hi { Single(Node(lo, hi - lo)); }
  }

  lemma RangeMinus(a: int, lo: int, hi: int, b: int)
    requires a <= lo <= hi <= b
    ensures Range(a, lo) + Range(hi, b) == Range(a, b) - Range(lo, hi)
  {
  }

  /** A canonical list around its node `k`. */
  lemma Around(l: seq<Node>, k: nat)
    requires Canonical(l) && k < |l|
    ensures var left, right := l[..k], l[k + 1..];
            && Canonical(left) && Canonical(right) && Before(left, right)
            && Sum(l) == Sum(left) + l[k].size + Sum(right)
            && Bytes(l) == Bytes(left) + Range(l[k].addr, EndOf(l[k])) + Bytes(right)
            && (left != [] ==> EndOf(left[|left| - 1]) < l[k].addr) && (right != [] ==> EndOf(l[k]) < right[0].addr)
            && (forall a :: a in Bytes(left) ==> a < l[k].addr) && (forall a :: a in Bytes(right) ==> EndOf(l[k]) < a)
  {
    Cut(l, k);
    Cut(l[k..], 1);
    Single(l[k]);
    assert l[k..][..1] == [l[k]] && l[k..][1..] == l[k + 1..];
    if k > 0 { Bounds(l[..k]); }
    if k + 1 < |l| { Bounds(l[k + 1..]); }
  }

  lemma TakenCanonical(l: seq<Node>, k: nat, lo: nat, hi: nat)
    requires Canonical(l) && k < |l|
    requires l[k].addr <= lo < hi <= EndOf(l[k]) && Aligned(lo) && Aligned(hi)
    ensures var r := Taken(l, k, lo, hi);
            Canonical(r) && Sum(r) + (hi - lo) == Sum(l) && Bytes(r) == Bytes(l) - Range(lo, hi)
  {
    hide Canonical, Bytes, Sum, Aligned, Rest;
    NodeIsGood(l, k);
    RestCanonical(l[k], lo, hi);
    Around(l, k);
    Between(l[..k], Rest(l[k], lo, hi), l[k + 1..]);
  }

  lemma NodeIsGood(l: seq<Node>, k: nat)
    requires Canonical(l) && k < |l|
    ensures GoodNode(l[k])
  {
  }

  lemma TakenInside(l: seq<Node>, k: nat, lo: nat, hi: nat, min: nat, max: nat)
    requires Inside(l, min, max) && k < |l| && l[k].addr <= lo <= hi <= EndOf(l[k])
    ensures Inside(Taken(l, k, lo, hi), min, max)
  {
  }

  // --------------------------------------------------------------------- putting back

  /** The block lo to hi put before position `k`, joined with the neighbours it meets. */
  function Put(l: seq<Node>, k: nat, lo: nat, hi: nat): seq<Node>
    requires k <= |l| && lo <= hi && (k < |l| ==> hi <= EndOf(l[k])) && (k > 0 ==> l[k - 1].addr <= lo)
  {
    var left, right := MeetsLeft(l, k, lo), MeetsRight(l, k, hi);
    var start := if left then l[k - 1].addr else lo;
    var end := if right then EndOf(l[k]) else hi;
    LeftOf(l, k, left) + [Node(start, end - start)] + RightOf(l, k, right)
  }

  predicate MeetsLeft(l: seq<Node>, k: nat, lo: nat)
    requires k <= |l|
  {
    k > 0 && EndOf(l[k - 1]) >= lo
  }

  predicate MeetsRight(l: seq<Node>, k: nat, hi: nat)
    requires k <= |l|
  {
    k < |l| && hi >= l[k].addr
  }

  /** The nodes to the left, without the one that is joined. */
  function LeftOf(l: seq<Node>, k: nat, left: bool): seq<Node>
    requires k <= |l| && (left ==> k > 0)
  {
    l[..if left then k - 1 else k]
  }

  function RightOf(l: seq<Node>, k: nat, right: bool): seq<Node>
    requires k <= |l| && (right ==> k < |l|)
  {
    l[if right then k + 1 else k..]
  }

  /** Position `k` is where a block at `lo` belongs. */
  ghost predicate Place(l: seq<Node>, k: nat, lo: nat) {
    k <= |l| && (k > 0 ==> l[k - 1].addr < lo) && (k < |l| ==> lo <= l[k].addr)
  }

  /** A block none of whose bytes is free fits between its neighbours. */
  lemma PlaceRoom(l: seq<Node>, k: nat, lo: nat, hi: nat)
    requires Canonical(l) && Place(l, k, lo) && lo < hi && Bytes(l) !! Range(lo, hi)
    ensures k > 0 ==> EndOf(l[k - 1]) <= lo
    ensures k < |l| ==> hi <= l[k].addr
  {
    if k > 0 { NodeApart(l, k - 1, lo, hi); }
    if k < |l| { NodeApart(l, k, lo, hi); }
  }

  lemma NodeApart(l: seq<Node>, k: nat, lo: nat, hi: nat)
    requires Canonical(l) && k < |l| && lo < hi && Bytes(l) !! Range(lo, hi)
    ensures 0 < l[k].size && (EndOf(l[k]) <= lo || hi <= l[k].addr)
  {
    hide Canonical, Bytes;
    NodeIsGood(l, k);
    Around(l, k);
    var x := if l[k].addr < lo then lo else l[k].addr;
    assert x in Range(lo, hi) <==> x < hi;
    assert x in Range(l[k].addr, EndOf(l[k])) <==> x < EndOf(l[k]);
  }

  /** The bytes of the neighbours that are joined. */
  ghost function LeftBytes(l: seq<Node>, k: nat, left: bool): iset<int>
    requires k <= |l| && (left ==> k > 0)
  {
    if left then Range(l[k - 1].addr, EndOf(l[k - 1])) else iset{}
  }

  ghost function RightBytes(l: seq<Node>, k: nat, right: bool): iset<int>
    requires k <= |l| && (right ==> k < |l|)
  {
    if right then Range(l[k].addr, EndOf(l[k])) else iset{}
  }

  /** The parts of the list on both sides of position `k`, with the nodes that are joined
      set aside. */
  lemma Sides(l: seq<Node>, k: nat, left: bool, right: bool)
    requires Canonical(l) && k <= |l| && (left ==> k > 0) && (right ==> k < |l|)
    ensures Canonical(LeftOf(l, k, left)) && Canonical(RightOf(l, k, right)) && Before(LeftOf(l, k, left), RightOf(l, k, right))
    ensures Sum(l) == Sum(LeftOf(l, k, left)) + (if left then l[k - 1].size else 0) + (if right then l[k].size else 0) + Sum(RightOf(l, k, right))
    ensures Bytes(l) == Bytes(LeftOf(l, k, left)) + LeftBytes(l, k, left) + RightBytes(l, k, right) + Bytes(RightOf(l, k, right))
  {
    hide Canonical, Bytes, Sum, Before;
    var i, j := if left then k - 1 else k, if right then k + 1 else k;
    Cut(l, k);
    if left { LastAside(l[..k]); }
    if right { FirstAside(l[k..]); }
    assert left ==> l[..k][..k - 1] == l[..i] && l[..k][k - 1] == l[k - 1];
    assert right ==> l[k..][1..] == l[j..] && l[k..][0] == l[k];
    BeforeParts(l, i, j);
  }

  lemma LastAside(l: seq<Node>)
    requires Canonical(l) && l != []
    ensures var k := |l| - 1; var n := l[k];
            Canonical(l[..k]) && Sum(l) == Sum(l[..k]) + n.size && Bytes(l) == Bytes(l[..k]) + Range(n.addr, EndOf(n))
  {
    Around(l, |l| - 1);
    assert l[|l|..] == [];
  }

  lemma FirstAside(l: seq<Node>)
    requires Canonical(l) && l != []
    ensures Canonical(l[1..]) && Sum(l) == l[0].size + Sum(l[1..]) && Bytes(l) == Range(l[0].addr, EndOf(l[0])) + Bytes(l[1..])
  {
    Cut(l, 1);
  }

  lemma {:induction false} BeforeParts(l: seq<Node>, i: nat, j: nat)
    requires Canonical(l) && i <= j <= |l|
    ensures Before(l[..i], l[j..])
  {
    if i < j {
      BeforeParts(l, i, j - 1);
      if 0 < i && j < |l| { assert l[j..][0] == l[j] && l[j - 1..][0] == l[j - 1] && GoodNode(l[j - 1]); }
    }
  }

  lemma PutCanonical(l: seq<Node>, k: nat, lo: nat, hi: nat)
    requires Canonical(l) && Place(l, k, lo) && Bytes(l) !! Range(lo, hi) && lo < hi && Aligned(lo) && Aligned(hi)
    ensures k > 0 ==> EndOf(l[k - 1]) <= lo
    ensures k < |l| ==> hi <= l[k].addr
    ensures var r := Put(l, k, lo, hi);
            Canonical(r) && Sum(r) == Sum(l) + (hi - lo) && Bytes(r) == Bytes(l) + Range(lo, hi)
  {
    hide Canonical, Bytes, Sum, Before, Aligned, Range, LeftOf, RightOf, LeftBytes, RightBytes, MeetsLeft, MeetsRight;
    PlaceRoom(l, k, lo, hi);
    var left, right := MeetsLeft(l, k, lo), MeetsRight(l, k, hi);
    Meeting(l, k, lo, hi);
    var n := Joined(l, k, lo, hi);
    Single(n);
    Sides(l, k, left, right);
    Between(LeftOf(l, k, left), [n], RightOf(l, k, right));
    Shuffle(Bytes(LeftOf(l, k, left)), LeftBytes(l, k, left), Range(lo, hi), RightBytes(l, k, right), Bytes(RightOf(l, k, right)));
  }

  lemma Meeting(l: seq<Node>, k: nat, lo: nat, hi: nat)
    requires k <= |l|
    ensures (MeetsLeft(l, k, lo) ==> k > 0) && (MeetsRight(l, k, hi) ==> k < |l|)
  {
  }

  lemma Shuffle(a: iset<int>, l: iset<int>, x: iset<int>, r: iset<int>, b: iset<int>)
    ensures a + (l + x + r) + b == a + l + r + b + x
  {
  }

  /** The joined node is a good one, with a gap on either side. */
  lemma Joined(l: seq<Node>, k: nat, lo: nat, hi: nat) returns (n: Node)
    requires Canonical(l) && k <= |l| && lo < hi && Aligned(lo) && Aligned(hi)
    requires (k > 0 ==> EndOf(l[k - 1]) <= lo) && (k < |l| ==> hi <= l[k].addr)
    ensures var left, right := MeetsLeft(l, k, lo), MeetsRight(l, k, hi);
            && Put(l, k, lo, hi) == LeftOf(l, k, left) + [n] + RightOf(l, k, right)
            && GoodNode(n) && Before(LeftOf(l, k, left), [n]) && Before([n], RightOf(l, k, right))
            && n.size == (if left then l[k - 1].size else 0) + (hi - lo) + (if right then l[k].size else 0)
            && Range(n.addr, EndOf(n)) == LeftBytes(l, k, left) + Range(lo, hi) + RightBytes(l, k, right)
  {
    hide Range, Bytes, Sum;
    var left, right := MeetsLeft(l, k, lo), MeetsRight(l, k, hi);
    assert left ==> GoodNode(l[k - 1]) && EndOf(l[k - 1]) == lo;
    assert right ==> GoodNode(l[k]) && l[k].addr == hi;
    var start := if left then l[k - 1].addr else lo;
    var end := if right then EndOf(l[k]) else hi;
    n := Node(start, end - start);
    RangeSplit(start, lo, hi, end);
    RangeSplit(lo, lo, hi, hi);
    RangeSplit(start, lo, hi, hi);
    RangeSplit(lo, lo, hi, end);
  }

  lemma RangeSplit(a: int, lo: int, hi: int, b: int)
    requires a <= lo <= hi <= b
    ensures Range(a, b) == Range(a, lo) + Range(lo, hi) + Range(hi, b)
    ensures (a == lo ==> Range(a, lo) == iset{}) && (hi == b ==> Range(hi, b) == iset{})
  {
  }

  lemma PutInside(l: seq<Node>, k: nat, lo: nat, hi: nat, min: nat, max: nat)
    requires Inside(l, min, max) && min <= lo <= hi <= max
    requires k <= |l| && (k > 0 ==> EndOf(l[k - 1]) <= lo) && (k < |l| ==> hi <= l[k].addr)
    ensures Inside(Put(l, k, lo, hi), min, max)
  {
  }
}
