/** The List Memory Manager: regions of memory, each with a canonical free list. */
module Lmm {
  import opened LmmNodes
  import opened LmmAlign

  /** One past the largest address a region may have: with it, and alignments up to 2^30,
      no address computed below wraps. */
  const ADDRESS_LIMIT: nat := 0x4000_0000

  datatype Region = Region(min: nat, max: nat, flags: bv32, nodes: seq<Node>, free: nat)

  ghost predicate ValidRegion(r: Region) {
    && 8 <= r.min < r.max <= ADDRESS_LIMIT && Aligned(r.min) && Aligned(r.max)
    && Canonical(r.nodes) && Inside(r.nodes, r.min, r.max)
    && r.free == Sum(r.nodes)
  }

  ghost predicate Apart(r: Region, s: Region) { r.max <= s.min || s.max <= r.min }

  ghost predicate ValidRegions(rs: seq<Region>) {
    && (forall k :: 0 <= k < |rs| ==> ValidRegion(rs[k]))
    && forall j, k :: 0 <= j < |rs| && 0 <= k < |rs| && j != k ==> Apart(rs[j], rs[k])
  }

  ghost predicate FreeIn(rs: seq<Region>, a: int) { exists k :: 0 <= k < |rs| && a in Bytes(rs[k].nodes) }

  /** All free bytes. */
  ghost function FreeBytes(rs: seq<Region>): iset<int> { iset a | FreeIn(rs, a) }

  /** The same regions, but for what is free in them. */
  ghost predicate SameRegions(rs: seq<Region>, rs': seq<Region>) {
    |rs| == |rs'| && forall k :: 0 <= k < |rs| ==> rs'[k].min == rs[k].min && rs'[k].max == rs[k].max && rs'[k].flags == rs[k].flags
  }

  /** Bytes lo to hi, all free before, have been taken. */
  ghost predicate Took(rs: seq<Region>, rs': seq<Region>, lo: int, hi: int) {
    && ValidRegions(rs') && SameRegions(rs, rs')
    && Range(lo, hi) <= FreeBytes(rs) && FreeBytes(rs') == FreeBytes(rs) - Range(lo, hi)
  }

  /** Bytes lo to hi, none free before, have been given back. */
  ghost predicate Gave(rs: seq<Region>, rs': seq<Region>, lo: int, hi: int) {
    && ValidRegions(rs') && SameRegions(rs, rs')
    && Range(lo, hi) !! FreeBytes(rs) && FreeBytes(rs') == FreeBytes(rs) + Range(lo, hi)
  }

  // ------------------------------------------------------------------ free bytes

  lemma {:induction false} BytesInside(l: seq<Node>, min: nat, max: nat, a: int)
    requires Inside(l, min, max) && a in Bytes(l)
    ensures min <= a < max
  {
    if a !in Range(l[0].addr, EndOf(l[0])) {
      assert forall i :: 0 <= i < |l[1..]| ==> l[1..][i] == l[i + 1];
      BytesInside(l[1..], min, max, a);
    }
  }

  /** What is free in one region is what is free between its limits. */
  lemma RegionBytes(rs: seq<Region>, k: nat, a: int)
    requires ValidRegions(rs) && k < |rs|
    ensures a in Bytes(rs[k].nodes) <==> a in FreeBytes(rs) && rs[k].min <= a < rs[k].max
  {
    if a in Bytes(rs[k].nodes) {
      assert ValidRegion(rs[k]);
      BytesInside(rs[k].nodes, rs[k].min, rs[k].max, a);
      assert FreeIn(rs, a);
    }
    if a in FreeBytes(rs) && rs[k].min <= a < rs[k].max {
      assert FreeIn(rs, a);
      var j :| 0 <= j < |rs| && a in Bytes(rs[j].nodes);
      assert ValidRegion(rs[j]);
      BytesInside(rs[j].nodes, rs[j].min, rs[j].max, a);
      assert j != k ==> Apart(rs[j], rs[k]);
    }
  }

  /** The free lists are determined by what is free. */
  lemma RegionsUnique(rs: seq<Region>, rs': seq<Region>)
    requires ValidRegions(rs) && ValidRegions(rs') && SameRegions(rs, rs') && FreeBytes(rs) == FreeBytes(rs')
    ensures rs == rs'
  {
    forall k | 0 <= k < |rs|
      ensures rs[k] == rs'[k]
    {
      assert Bytes(rs[k].nodes) == Bytes(rs'[k].nodes) by {
        forall a
          ensures a in Bytes(rs[k].nodes) <==> a in Bytes(rs'[k].nodes)
        {
          RegionBytes(rs, k, a);
          RegionBytes(rs', k, a);
        }
      }
      assert ValidRegion(rs[k]) && ValidRegion(rs'[k]);
      CanonicalUnique(rs[k].nodes, rs'[k].nodes);
    }
  }

  /** Giving back exactly what was taken restores the free lists. */
  lemma TakeGive(rs: seq<Region>, rs': seq<Region>, rs'': seq<Region>, lo: int, hi: int)
    requires ValidRegions(rs) && Took(rs, rs', lo, hi) && Gave(rs', rs'', lo, hi)
    ensures rs'' == rs
  {
    RegionsUnique(rs, rs'');
  }

  // ------------------------------------------------------------- one region changed

  /** The regions after region `k` has new nodes. */
  function WithNodes(rs: seq<Region>, k: nat, nodes: seq<Node>, free: nat): seq<Region>
    requires k < |rs|
  {
    rs[k := rs[k].(nodes := nodes, free := free)]
  }

  lemma RegionUpdate(rs: seq<Region>, k: nat, nodes: seq<Node>, free: nat)
    requires ValidRegions(rs) && k < |rs|
    requires Canonical(nodes) && Inside(nodes, rs[k].min, rs[k].max) && free == Sum(nodes)
    ensures ValidRegions(WithNodes(rs, k, nodes, free)) && SameRegions(rs, WithNodes(rs, k, nodes, free))
  {
    var rs' := WithNodes(rs, k, nodes, free);
    assert ValidRegion(rs[k]);
    forall i, j | 0 <= i < |rs| && 0 <= j < |rs| && i != j
      ensures Apart(rs'[i], rs'[j])
    {
      assert Apart(rs[i], rs[j]);
    }
  }

  lemma TakeUpdate(rs: seq<Region>, k: nat, nodes: seq<Node>, free: nat, lo: nat, hi: nat)
    requires ValidRegions(rs) && k < |rs| && lo < hi
    requires Canonical(nodes) && Inside(nodes, rs[k].min, rs[k].max) && free == Sum(nodes)
    requires Range(lo, hi) <= Bytes(rs[k].nodes) && Bytes(nodes) == Bytes(rs[k].nodes) - Range(lo, hi)
    ensures Took(rs, WithNodes(rs, k, nodes, free), lo, hi)
  {
    var rs' := WithNodes(rs, k, nodes, free);
    RegionUpdate(rs, k, nodes, free);
    hide ValidRegions;
    forall a
      ensures a in Range(lo, hi) ==> a in FreeBytes(rs)
      ensures a in FreeBytes(rs') <==> a in FreeBytes(rs) && a !in Range(lo, hi)
    {
      UpdatedBytes(rs, k, nodes, free, a);
      RegionBytes(rs, k, a);
    }
  }

  lemma GiveUpdate(rs: seq<Region>, k: nat, nodes: seq<Node>, free: nat, lo: nat, hi: nat)
    requires ValidRegions(rs) && k < |rs| && rs[k].min <= lo < hi <= rs[k].max
    requires Canonical(nodes) && Inside(nodes, rs[k].min, rs[k].max) && free == Sum(nodes)
    requires Range(lo, hi) !! Bytes(rs[k].nodes) && Bytes(nodes) == Bytes(rs[k].nodes) + Range(lo, hi)
    ensures Gave(rs, WithNodes(rs, k, nodes, free), lo, hi)
  {
    var rs' := WithNodes(rs, k, nodes, free);
    RegionUpdate(rs, k, nodes, free);
    hide ValidRegions;
    forall a
      ensures a in Range(lo, hi) ==> a !in FreeBytes(rs)
      ensures a in FreeBytes(rs') <==> a in FreeBytes(rs) || a in Range(lo, hi)
    {
      UpdatedBytes(rs, k, nodes, free, a);
      RegionBytes(rs, k, a);
    }
  }

  lemma UpdatedBytes(rs: seq<Region>, k: nat, nodes: seq<Node>, free: nat, a: int)
    requires ValidRegions(rs) && k < |rs| && Inside(nodes, rs[k].min, rs[k].max)
    ensures a in FreeBytes(WithNodes(rs, k, nodes, free)) <==> a in Bytes(nodes) || (a in FreeBytes(rs) && a !in Bytes(rs[k].nodes))
  {
    var rs' := WithNodes(rs, k, nodes, free);
    if a in Bytes(nodes) { assert a in Bytes(rs'[k].nodes); assert FreeIn(rs', a); }
    if a in FreeBytes(rs) && a !in Bytes(rs[k].nodes) {
      assert FreeIn(rs, a);
      var j :| 0 <= j < |rs| && a in Bytes(rs[j].nodes);
      assert a in Bytes(rs'[j].nodes);
      assert FreeIn(rs', a);
    }
    if a in FreeBytes(rs') && a !in Bytes(nodes) {
      assert FreeIn(rs', a);
      var j :| 0 <= j < |rs'| && a in Bytes(rs'[j].nodes);
      assert j != k && rs'[j] == rs[j];
      assert FreeIn(rs, a);
      RegionBytes(rs, j, a);
      RegionBytes(rs, k, a);
      assert Apart(rs[j], rs[k]);
    }
  }
}
