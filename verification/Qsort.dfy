/** qsort: Bentley and McIlroy's quicksort with a four-zone partition in place. Array
    elements are opaque; offsets count elements (the C code counts bytes). */
module Qsort {

  // ------------------------------------------------------------- orderings

  /** What section 7.22.5.2 of ISO/IEC 9899:2011 asks of the comparison function:
      signs are antisymmetric, and "not greater" is transitive. */
  ghost predicate TotalPreorder<T(!new)>(cmp: (T, T) -> int) {
    && (forall x, y :: cmp(x, y) < 0 <==> cmp(y, x) > 0)
    && (forall x, y, z {:trigger Chain(x, y, z)} ::
          Chain(x, y, z) && cmp(x, y) <= 0 && cmp(y, z) <= 0 ==> cmp(x, z) <= 0)
  }

  /** Names the triples transitivity is used on. */
  ghost predicate Chain<T>(x: T, y: T, z: T) { true }

  lemma Transitive<T(!new)>(cmp: (T, T) -> int, x: T, y: T, z: T)
    requires TotalPreorder(cmp) && cmp(x, y) <= 0 && cmp(y, z) <= 0
    ensures cmp(x, z) <= 0
    ensures cmp(x, y) < 0 || cmp(y, z) < 0 ==> cmp(x, z) < 0
  {
    assert Chain(x, y, z) && Chain(z, x, y) && Chain(y, z, x);
  }

  ghost predicate Sorted<T>(s: seq<T>, cmp: (T, T) -> int, lo: nat, hi: nat)
    requires hi <= |s|
  {
    forall i, j :: lo <= i < j < hi ==> cmp(s[i], s[j]) <= 0
  }

  // ---------------------------------------------------------- permutations

  /** t is s with the elements of [lo, hi) rearranged. */
  ghost predicate Permuted<T>(s: seq<T>, t: seq<T>, lo: nat, hi: nat)
    requires lo <= hi <= |s|
  {
    && |s| == |t|
    && s[..lo] == t[..lo]
    && s[hi..] == t[hi..]
    && multiset(s[lo..hi]) == multiset(t[lo..hi])
  }

  lemma PermutedTrans<T>(s: seq<T>, t: seq<T>, u: seq<T>, lo: nat, hi: nat)
    requires lo <= hi <= |s| && Permuted(s, t, lo, hi) && Permuted(t, u, lo, hi)
    ensures Permuted(s, u, lo, hi)
  {
  }

  lemma PermutedWiden<T>(s: seq<T>, t: seq<T>, lo: nat, hi: nat, lo': nat, hi': nat)
    requires lo' <= lo <= hi <= hi' <= |s| && Permuted(s, t, lo, hi)
    ensures Permuted(s, t, lo', hi')
  {
    assert s[..lo'] == s[..lo][..lo'] && t[..lo'] == t[..lo][..lo'];
    assert s[hi'..] == s[hi..][hi' - hi..] && t[hi'..] == t[hi..][hi' - hi..];
    assert s[lo'..hi'] == s[..lo][lo'..] + s[lo..hi] + s[hi..][..hi' - hi];
    assert t[lo'..hi'] == t[..lo][lo'..] + t[lo..hi] + t[hi..][..hi' - hi];
  }

  lemma PermutedOutside<T>(s: seq<T>, t: seq<T>, lo: nat, hi: nat, i: nat)
    requires lo <= hi <= |s| && Permuted(s, t, lo, hi) && i < |s| && !(lo <= i < hi)
    ensures s[i] == t[i]
  {
    if i < lo {
      assert s[i] == s[..lo][i];
    } else {
      assert s[i] == s[hi..][i - hi];
      assert t[i] == t[hi..][i - hi];
    }
  }

  /** Every element of a rearranged stretch was somewhere in it before. */
  lemma PermutedInside<T>(s: seq<T>, t: seq<T>, lo: nat, hi: nat, i: nat) returns (j: nat)
    requires lo <= i < hi <= |s| && Permuted(s, t, lo, hi)
    ensures lo <= j < hi && t[i] == s[j]
  {
    assert t[lo..hi][i - lo] in multiset(t[lo..hi]);
    assert t[i] in s[lo..hi];
    var k :| 0 <= k < hi - lo && s[lo..hi][k] == t[i];
    j := lo + k;
  }

  lemma SwapPermutes<T>(s: seq<T>, i: nat, j: nat, lo: nat, hi: nat)
    requires lo <= i < hi <= |s| && lo <= j < hi
    ensures Permuted(s, s[i := s[j]][j := s[i]], lo, hi)
  {
    var t := s[i := s[j]][j := s[i]];
    var a, b := i - lo, j - lo;
    var m := s[lo..hi];
    assert t[lo..hi] == m[a := m[b]][b := m[a]];
    assert multiset(m[a := m[b]]) == multiset(m) - multiset{m[a]} + multiset{m[b]};
  }

  // ------------------------------------------------------------- primitives

  /** Swap two elements of a[lo..hi]; `s0` is the array the stretch came from. */
  method Swap<T>(a: array<T>, i: nat, j: nat, ghost s0: seq<T>, ghost lo: nat, ghost hi: nat)
    requires lo <= i < hi <= a.Length && lo <= j < hi
    requires |s0| == a.Length && Permuted(s0, a[..], lo, hi)
    modifies a
    ensures a[i] == old(a[j]) && a[j] == old(a[i])
    ensures forall k :: 0 <= k < a.Length && k != i && k != j ==> a[k] == old(a[k])
    ensures Permuted(s0, a[..], lo, hi)
  {
    ghost var s := a[..];
    SwapPermutes(s, i, j, lo, hi);
    a[i], a[j] := a[j], a[i];
    assert a[..] == s[i := s[j]][j := s[i]];
    PermutedTrans(s0, s, a[..], lo, hi);
  }

  function Med3<T(!new)>(s: seq<T>, i: nat, j: nat, k: nat, cmp: (T, T) -> int): (m: nat)
    requires i < |s| && j < |s| && k < |s|
    ensures m == i || m == j || m == k
  {
    if cmp(s[i], s[j]) < 0
    then (if cmp(s[j], s[k]) < 0 then j else if cmp(s[i], s[k]) < 0 then k else i)
    else (if cmp(s[j], s[k]) > 0 then j else if cmp(s[i], s[k]) < 0 then i else k)
  }

  ghost predicate Between<T>(x: T, y: T, z: T, cmp: (T, T) -> int) {
    (cmp(x, y) <= 0 && cmp(y, z) <= 0) || (cmp(z, y) <= 0 && cmp(y, x) <= 0)
  }

  /** med3 picks an element with one of the other two on each side. */
  lemma Med3IsMedian<T(!new)>(s: seq<T>, i: nat, j: nat, k: nat, cmp: (T, T) -> int)
    requires i < |s| && j < |s| && k < |s| && TotalPreorder(cmp)
    ensures var m := Med3(s, i, j, k, cmp);
            || (m == i && Between(s[j], s[m], s[k], cmp))
            || (m == j && Between(s[i], s[m], s[k], cmp))
            || (m == k && Between(s[i], s[m], s[j], cmp))
  {
    var u, v, w := s[i], s[j], s[k];
    assert cmp(u, v) < 0 <==> cmp(v, u) > 0;
    assert cmp(v, u) < 0 <==> cmp(u, v) > 0;
    assert cmp(w, v) < 0 <==> cmp(v, w) > 0;
    assert cmp(v, w) < 0 <==> cmp(w, v) > 0;
    assert cmp(u, w) < 0 <==> cmp(w, u) > 0;
    assert cmp(w, u) < 0 <==> cmp(u, w) > 0;
  }

  // --------------------------------------------------------- insertion sort

  /** The insertion sort used below 7 elements and after a partition that moved nothing. */
  method InsertionSort<T(!new)>(a: array<T>, lo: nat, n: nat, cmp: (T, T) -> int, ghost s0: seq<T>)
    requires lo + n <= a.Length && TotalPreorder(cmp)
    requires |s0| == a.Length && Permuted(s0, a[..], lo, lo + n)
    modifies a
    ensures Permuted(s0, a[..], lo, lo + n)
    ensures Sorted(a[..], cmp, lo, lo + n)
  {
    var pm := lo + 1;
    while pm < lo + n
      invariant lo < pm && (pm <= lo + n || n == 0)
      invariant Permuted(s0, a[..], lo, lo + n)
      invariant Sorted(a[..], cmp, lo, if pm <= lo + n then pm else lo)
    {
      Sift(a, lo, pm, cmp, s0, lo + n);
      pm := pm + 1;
    }
  }

  /** The inner loop: move a[pm] left to its place. */
  method Sift<T(!new)>(a: array<T>, lo: nat, pm: nat, cmp: (T, T) -> int, ghost s0: seq<T>, ghost hi: nat)
    requires lo <= pm < hi <= a.Length && TotalPreorder(cmp)
    requires |s0| == a.Length && Permuted(s0, a[..], lo, hi)
    requires Sorted(a[..], cmp, lo, pm)
    modifies a
    ensures Permuted(s0, a[..], lo, hi)
    ensures Sorted(a[..], cmp, lo, pm + 1)
  {
    hide Permuted, SortedBut, Sorted, TotalPreorder;
    var pl := pm;
    LastUnplaced(a[..], cmp, lo, pm);
    while pl > lo && cmp(a[pl - 1], a[pl]) > 0
      invariant lo <= pl <= pm
      invariant Permuted(s0, a[..], lo, hi)
      invariant SortedBut(a[..], cmp, lo, pm + 1, pl)
    {
      ghost var before := a[..];
      Swap(a, pl, pl - 1, s0, lo, hi);
      SiftStep(before, a[..], cmp, lo, pm + 1, pl);
      pl := pl - 1;
    }
    Inserted(a[..], cmp, lo, pm + 1, pl);
  }

  lemma LastUnplaced<T(!new)>(s: seq<T>, cmp: (T, T) -> int, lo: nat, pm: nat)
    requires lo <= pm < |s| && Sorted(s, cmp, lo, pm)
    ensures SortedBut(s, cmp, lo, pm + 1, pm)
  {
  }

  lemma SiftStep<T(!new)>(s: seq<T>, s': seq<T>, cmp: (T, T) -> int, lo: nat, hi: nat, pl: nat)
    requires lo < pl < hi <= |s| == |s'| && TotalPreorder(cmp) && SortedBut(s, cmp, lo, hi, pl)
    requires cmp(s[pl - 1], s[pl]) > 0 && s'[pl] == s[pl - 1] && s'[pl - 1] == s[pl]
    requires forall k :: 0 <= k < |s| && k != pl && k != pl - 1 ==> s'[k] == s[k]
    ensures SortedBut(s', cmp, lo, hi, pl - 1)
  {
    forall i, j | lo <= i < j < hi && j != pl - 1
      ensures cmp(s'[i], s'[j]) <= 0
    {
      assert cmp(s[pl], s[pl - 1]) <= 0;
      if j == pl && i < pl - 1 { assert cmp(s[i], s[pl - 1]) <= 0; }
    }
  }

  /** Sorted except that the element at pl may belong further left. */
  ghost predicate SortedBut<T>(s: seq<T>, cmp: (T, T) -> int, lo: nat, hi: nat, pl: nat)
    requires hi <= |s|
  {
    forall i, j :: lo <= i < j < hi && j != pl ==> cmp(s[i], s[j]) <= 0
  }

  lemma Inserted<T(!new)>(s: seq<T>, cmp: (T, T) -> int, lo: nat, hi: nat, pl: nat)
    requires lo <= pl < hi <= |s| && TotalPreorder(cmp)
    requires SortedBut(s, cmp, lo, hi, pl)
    requires pl == lo || cmp(s[pl - 1], s[pl]) <= 0
    ensures Sorted(s, cmp, lo, hi)
  {
    forall i, j | lo <= i < j < hi
      ensures cmp(s[i], s[j]) <= 0
    {
      if j == pl && i < pl - 1 {
        Transitive(cmp, s[i], s[pl - 1], s[pl]);
      }
    }
  }

  // -------------------------------------------------------------- partition

  /** The four zones around the unexamined stretch [pb, pc]:
      equal | less | ? | greater | equal. */
  ghost predicate Zones<T>(s: seq<T>, cmp: (T, T) -> int, lo: nat, pa: nat, pb: nat, pc: int, pd: int, hi: nat, p: T) {
    && lo < pa <= pb <= pc + 1 <= pd + 1 <= hi <= |s|
    && s[lo] == p
    && (forall i :: lo <= i < pa ==> cmp(s[i], p) == 0)
    && (forall i :: pa <= i < pb ==> cmp(s[i], p) < 0)
    && (forall i :: pc < i <= pd ==> cmp(s[i], p) > 0)
    && (forall i :: pd < i < hi ==> cmp(s[i], p) == 0)
  }

  /** The first inner loop: pb moves right over elements not above the pivot, and
      elements equal to it are gathered at the left end. */
  method ScanUp<T(!new)>(a: array<T>, cmp: (T, T) -> int, lo: nat, pa0: nat, pb0: nat, pc: int,
                         ghost s0: seq<T>, ghost pd: int, ghost hi: nat)
    returns (pa: nat, pb: nat, moved: bool)
    requires lo < hi <= a.Length && |s0| == a.Length && Permuted(s0, a[..], lo, hi)
    requires TotalPreorder(cmp)
    requires Zones(a[..], cmp, lo, pa0, pb0, pc, pd, hi, a[lo])
    modifies a
    ensures Permuted(s0, a[..], lo, hi) && a[lo] == old(a[lo])
    ensures Zones(a[..], cmp, lo, pa, pb, pc, pd, hi, a[lo])
    ensures pb0 <= pb && (pb <= pc ==> cmp(a[pb], a[lo]) > 0)
  {
    pa, pb, moved := pa0, pb0, false;
    ghost var p := a[lo];
    while pb <= pc && cmp(a[pb], a[lo]) <= 0
      invariant pb0 <= pb && Permuted(s0, a[..], lo, hi)
      invariant Zones(a[..], cmp, lo, pa, pb, pc, pd, hi, p)
      decreases pc - pb
    {
      if cmp(a[pb], a[lo]) == 0 {
        moved := true;
        Swap(a, pa, pb, s0, lo, hi);
        pa := pa + 1;
      }
      pb := pb + 1;
    }
  }

  /** The second inner loop, the mirror image. */
  method ScanDown<T(!new)>(a: array<T>, cmp: (T, T) -> int, lo: nat, pb: nat, pc0: int, pd0: int,
                           ghost s0: seq<T>, ghost pa: nat, ghost hi: nat)
    returns (pc: int, pd: int, moved: bool)
    requires lo < hi <= a.Length && |s0| == a.Length && Permuted(s0, a[..], lo, hi)
    requires TotalPreorder(cmp)
    requires Zones(a[..], cmp, lo, pa, pb, pc0, pd0, hi, a[lo])
    requires pb <= pc0 ==> cmp(a[pb], a[lo]) > 0
    modifies a
    ensures Permuted(s0, a[..], lo, hi) && a[lo] == old(a[lo])
    ensures Zones(a[..], cmp, lo, pa, pb, pc, pd, hi, a[lo])
    ensures pc <= pc0
    ensures pb <= pc ==> cmp(a[pb], a[lo]) > 0 && cmp(a[pc], a[lo]) < 0
  {
    pc, pd, moved := pc0, pd0, false;
    ghost var p := a[lo];
    while pb <= pc && cmp(a[pc], a[lo]) >= 0
      invariant pc <= pc0 && Permuted(s0, a[..], lo, hi)
      invariant Zones(a[..], cmp, lo, pa, pb, pc, pd, hi, p)
      invariant pb <= pc ==> cmp(a[pb], p) > 0
      decreases pc
    {
      if cmp(a[pc], a[lo]) == 0 {
        moved := true;
        Swap(a, pc, pd, s0, lo, hi);
        pd := pd - 1;
      }
      pc := pc - 1;
    }
  }

  lemma ZonesGrow<T(!new)>(s: seq<T>, t: seq<T>, cmp: (T, T) -> int,
                           lo: nat, pa: nat, pb: nat, pc: int, pd: int, hi: nat)
    requires lo < hi <= |s| == |t| && pb <= pc
    requires Zones(s, cmp, lo, pa, pb, pc, pd, hi, s[lo])
    requires cmp(s[pb], s[lo]) > 0 && cmp(s[pc], s[lo]) < 0
    requires t[pb] == s[pc] && t[pc] == s[pb]
    requires forall k :: 0 <= k < |s| && k != pb && k != pc ==> t[k] == s[k]
    ensures pb < pc && Zones(t, cmp, lo, pa, pb + 1, pc - 1, pd, hi, t[lo])
  {
  }

  /** The partition loop. `moved` is swap_cnt. */
  method Partition<T(!new)>(a: array<T>, lo: nat, n: nat, cmp: (T, T) -> int, ghost s0: seq<T>)
    returns (pa: nat, pb: nat, pc: int, pd: int, moved: bool)
    requires n >= 2 && lo + n <= a.Length && TotalPreorder(cmp)
    requires |s0| == a.Length && Permuted(s0, a[..], lo, lo + n)
    modifies a
    ensures Permuted(s0, a[..], lo, lo + n)
    ensures Zones(a[..], cmp, lo, pa, pb, pc, pd, lo + n, a[lo]) && pb == pc + 1
  {
    ghost var hi := lo + n;
    pa, pb := lo + 1, lo + 1;
    pc, pd := lo + n - 1, lo + n - 1;
    moved := false;
    while true
      invariant Permuted(s0, a[..], lo, hi)
      invariant Zones(a[..], cmp, lo, pa, pb, pc, pd, hi, a[lo])
      decreases pc - pb
    {
      var up, down;
      pa, pb, up := ScanUp(a, cmp, lo, pa, pb, pc, s0, pd, hi);
      pc, pd, down := ScanDown(a, cmp, lo, pb, pc, pd, s0, pa, hi);
      moved := moved || up || down;
      if pb > pc {
        break;
      }
      ghost var s1 := a[..];
      Swap(a, pb, pc, s0, lo, hi);
      ZonesGrow(s1, a[..], cmp, lo, pa, pb, pc, pd, hi);
      moved := true;
      pb := pb + 1;
      pc := pc - 1;
    }
  }

  /** vecswap: exchange two stretches that do not overlap. */
  method VecSwap<T(!new)>(a: array<T>, i: nat, j: nat, n: nat, ghost s0: seq<T>, ghost lo: nat, ghost hi: nat)
    requires lo <= i && i + n <= j && j + n <= hi <= a.Length
    requires |s0| == a.Length && Permuted(s0, a[..], lo, hi)
    modifies a
    ensures Permuted(s0, a[..], lo, hi)
    ensures Exchanged(old(a[..]), a[..], i, j, n)
  {
    ghost var s := a[..];
    var k := 0;
    while k < n
      invariant 0 <= k <= n && Permuted(s0, a[..], lo, hi)
      invariant Exchanged(s, a[..], i, j, k)
    {
      Swap(a, i + k, j + k, s0, lo, hi);
      k := k + 1;
    }
  }

  ghost predicate Exchanged<T>(s: seq<T>, t: seq<T>, i: nat, j: nat, n: nat)
    requires i + n <= j && j + n <= |s|
  {
    && |s| == |t|
    && (forall k :: i <= k < i + n ==> t[k] == s[j + (k - i)])
    && (forall k :: j <= k < j + n ==> t[k] == s[i + (k - j)])
    && (forall k :: 0 <= k < |s| && !(i <= k < i + n) && !(j <= k < j + n) ==> t[k] == s[k])
  }

  /** After the pivot's equals are swapped to the middle: less | equal | greater. */
  ghost predicate Split<T>(s: seq<T>, cmp: (T, T) -> int, lo: nat, eq: nat, gt: nat, hi: nat, p: T)
    requires hi <= |s|
  {
    && lo <= eq < gt <= hi
    && (forall i :: lo <= i < eq ==> cmp(s[i], p) < 0)
    && (forall i :: eq <= i < gt ==> cmp(s[i], p) == 0)
    && (forall i :: gt <= i < hi ==> cmp(s[i], p) > 0)
  }

  function Min(x: int, y: int): int { if x < y then x else y }

  lemma LeftExchange<T(!new)>(s: seq<T>, t: seq<T>, cmp: (T, T) -> int, lo: nat, pa: nat, pb: nat, pc: int, pd: int, hi: nat, p: T, eq: nat)
    requires Zones(s, cmp, lo, pa, pb, pc, pd, hi, p) && pb == pc + 1 && eq == lo + (pb - pa)
    requires Exchanged(s, t, lo, pb - Min(pa - lo, pb - pa), Min(pa - lo, pb - pa))
    ensures forall i :: lo <= i < eq ==> cmp(t[i], p) < 0
    ensures forall i :: eq <= i < pb ==> cmp(t[i], p) == 0
    ensures forall i :: pb <= i < hi ==> t[i] == s[i]
  {
  }

  lemma RightExchange<T(!new)>(s: seq<T>, t: seq<T>, cmp: (T, T) -> int, lo: nat, pb: nat, pd: int, hi: nat, p: T, gt: nat)
    requires lo <= pb <= pd + 1 <= hi <= |s| && gt == hi - (pd + 1 - pb)
    requires forall i :: pb <= i <= pd ==> cmp(s[i], p) > 0
    requires forall i :: pd < i < hi ==> cmp(s[i], p) == 0
    requires Exchanged(s, t, pb, hi - Min(pd + 1 - pb, hi - pd - 1), Min(pd + 1 - pb, hi - pd - 1))
    ensures forall i :: lo <= i < pb ==> t[i] == s[i]
    ensures forall i :: pb <= i < gt ==> cmp(t[i], p) == 0
    ensures forall i :: gt <= i < hi ==> cmp(t[i], p) > 0
  {
  }

  /** The pivot position: middle, median of three, or the pseudo-median of nine. */
  method ChoosePivot<T(!new)>(a: array<T>, lo: nat, n: nat, cmp: (T, T) -> int) returns (pm: nat)
    requires n >= 7 && lo + n <= a.Length
    ensures lo <= pm < lo + n
  {
    pm := lo + n / 2;
    if n > 7 {
      var pl, pn := lo, lo + (n - 1);
      if n > 40 {
        var d := n / 8;
        pl := Med3(a[..], pl, pl + d, pl + 2 * d, cmp);
        pm := Med3(a[..], pm - d, pm, pm + d, cmp);
        pn := Med3(a[..], pn - 2 * d, pn - d, pn, cmp);
      }
      pm := Med3(a[..], pl, pm, pn, cmp);
    }
  }

  /** One turn of the outer loop: either the stretch is sorted outright, or it is
      split around the pivot into a[lo..eq] smaller and a[gt..hi] larger elements. */
  method SortPass<T(!new)>(a: array<T>, lo: nat, hi: nat, cmp: (T, T) -> int) returns (done: bool, eq: nat, gt: nat)
    requires lo <= hi <= a.Length && TotalPreorder(cmp)
    modifies a
    ensures Permuted(old(a[..]), a[..], lo, hi)
    ensures done ==> Sorted(a[..], cmp, lo, hi)
    ensures !done ==> lo <= eq < gt <= hi && Split(a[..], cmp, lo, eq, gt, hi, a[eq])
  {
    var n := hi - lo;
    ghost var s0 := a[..];
    if n < 7 {
      InsertionSort(a, lo, n, cmp, s0);
      return true, lo, lo;
    }
    var pm := ChoosePivot(a, lo, n, cmp);
    Swap(a, lo, pm, s0, lo, hi);
    var pa, pb, pc, pd, moved := Partition(a, lo, n, cmp, s0);
    if !moved {
      InsertionSort(a, lo, n, cmp, s0);
      return true, lo, lo;
    }
    done := false;
    eq, gt := GatherEquals(a, lo, hi, cmp, pa, pb, pc, pd, s0);
  }

  /** The two vecswaps. */
  method GatherEquals<T(!new)>(a: array<T>, lo: nat, pn: nat, cmp: (T, T) -> int, pa: nat, pb: nat, pc: int, pd: int, ghost s0: seq<T>)
    returns (eq: nat, gt: nat)
    requires lo < pn <= a.Length && TotalPreorder(cmp)
    requires |s0| == a.Length && Permuted(s0, a[..], lo, pn)
    requires Zones(a[..], cmp, lo, pa, pb, pc, pd, pn, a[lo]) && pb == pc + 1
    modifies a
    ensures Permuted(s0, a[..], lo, pn)
    ensures lo <= eq < gt <= pn && Split(a[..], cmp, lo, eq, gt, pn, a[eq])
  {
    ghost var s := a[..];
    var r := Min(pa - lo, pb - pa);
    VecSwap(a, lo, pb - r, r, s0, lo, pn);
    ghost var t := a[..];
    r := Min(pd - pc, pn - pd - 1);
    VecSwap(a, pb, pn - r, r, s0, lo, pn);
    eq, gt := lo + (pb - pa), pn - (pd - pc);
    Gathered(s, t, a[..], cmp, lo, pa, pb, pc, pd, pn, eq, gt);
  }

  lemma Gathered<T(!new)>(s: seq<T>, t: seq<T>, u: seq<T>, cmp: (T, T) -> int, lo: nat, pa: nat, pb: nat, pc: int, pd: int, hi: nat,
                          eq: nat, gt: nat)
    requires lo < hi <= |s| && TotalPreorder(cmp)
    requires Zones(s, cmp, lo, pa, pb, pc, pd, hi, s[lo]) && pb == pc + 1
    requires Exchanged(s, t, lo, pb - Min(pa - lo, pb - pa), Min(pa - lo, pb - pa))
    requires Exchanged(t, u, pb, hi - Min(pd - pc, hi - pd - 1), Min(pd - pc, hi - pd - 1))
    requires eq == lo + (pb - pa) && gt == hi - (pd - pc)
    ensures lo <= eq < gt <= hi && Split(u, cmp, lo, eq, gt, hi, u[eq])
  {
    LeftExchange(s, t, cmp, lo, pa, pb, pc, pd, hi, s[lo], eq);
    RightExchange(t, u, cmp, lo, pb, pd, hi, s[lo], gt);
    SplitPivot(u, cmp, lo, eq, gt, hi, s[lo]);
  }

  lemma SplitPivot<T(!new)>(s: seq<T>, cmp: (T, T) -> int, lo: nat, eq: nat, gt: nat, hi: nat, p: T)
    requires hi <= |s| && TotalPreorder(cmp) && Split(s, cmp, lo, eq, gt, hi, p)
    ensures Split(s, cmp, lo, eq, gt, hi, s[eq])
  {
    var p' := s[eq];
    forall i | lo <= i < hi
      ensures cmp(s[i], p) < 0 ==> cmp(s[i], p') < 0
      ensures cmp(s[i], p) > 0 ==> cmp(s[i], p') > 0
      ensures cmp(s[i], p) == 0 ==> cmp(s[i], p') == 0
    {
      assert cmp(p, p') == 0;
      if cmp(s[i], p) <= 0 { Transitive(cmp, s[i], p, p'); }
      if cmp(p, s[i]) <= 0 { Transitive(cmp, p', p, s[i]); }
    }
  }

  // -------------------------------------------------------------- the sort

  /** The elements before `l` are in their final order and below all later ones. */
  ghost predicate Settled<T>(s: seq<T>, cmp: (T, T) -> int, lo: nat, l: nat, hi: nat)
    requires hi <= |s|
  {
    forall i, j :: lo <= i < l && i < j < hi ==> cmp(s[i], s[j]) <= 0
  }

  lemma SettledPermuted<T(!new)>(s: seq<T>, t: seq<T>, cmp: (T, T) -> int, lo: nat, l: nat, hi: nat)
    requires lo <= l <= hi <= |s| && Permuted(s, t, l, hi) && Settled(s, cmp, lo, l, hi)
    ensures Settled(t, cmp, lo, l, hi)
  {
    forall i, j | lo <= i < l && i < j < hi
      ensures cmp(t[i], t[j]) <= 0
    {
      PermutedOutside(s, t, l, hi, i);
      if j < l {
        PermutedOutside(s, t, l, hi, j);
      } else {
        var k := PermutedInside(s, t, l, hi, j);
      }
    }
  }

  lemma SplitPermuted<T(!new)>(s: seq<T>, t: seq<T>, cmp: (T, T) -> int, lo: nat, eq: nat, gt: nat, hi: nat, p: T)
    requires hi <= |s| && Split(s, cmp, lo, eq, gt, hi, p) && Permuted(s, t, lo, eq)
    ensures Split(t, cmp, lo, eq, gt, hi, p)
  {
    forall i | lo <= i < eq
      ensures cmp(t[i], p) < 0
    {
      var k := PermutedInside(s, t, lo, eq, i);
    }
    forall i | eq <= i < hi
      ensures t[i] == s[i]
    {
      PermutedOutside(s, t, lo, eq, i);
    }
  }

  lemma SplitSettles<T(!new)>(s: seq<T>, cmp: (T, T) -> int, lo: nat, l: nat, eq: nat, gt: nat, hi: nat, p: T)
    requires lo <= l && hi <= |s| && TotalPreorder(cmp)
    requires Settled(s, cmp, lo, l, hi) && Split(s, cmp, l, eq, gt, hi, p)
    requires Sorted(s, cmp, l, eq)
    ensures Settled(s, cmp, lo, gt, hi)
  {
    forall i, j | lo <= i < gt && i < j < hi
      ensures cmp(s[i], s[j]) <= 0
    {
      if l <= i && eq <= j {
        assert cmp(p, s[j]) < 0 <==> cmp(s[j], p) > 0;
        assert cmp(s[j], p) < 0 <==> cmp(p, s[j]) > 0;
        Transitive(cmp, s[i], p, s[j]);
      }
    }
  }

  /** qsort on the first `n` elements of `a`. */
  method Qsort<T(!new)>(a: array<T>, n: nat, cmp: (T, T) -> int)
    requires n <= a.Length && TotalPreorder(cmp)
    modifies a
    ensures Permuted(old(a[..]), a[..], 0, n)
    ensures Sorted(a[..], cmp, 0, n)
  {
    QsortRange(a, 0, n, cmp);
  }

  method QsortRange<T(!new)>(a: array<T>, lo: nat, hi: nat, cmp: (T, T) -> int)
    requires lo <= hi <= a.Length && TotalPreorder(cmp)
    modifies a
    ensures Permuted(old(a[..]), a[..], lo, hi)
    ensures Sorted(a[..], cmp, lo, hi)
    decreases hi - lo
  {
    ghost var s0 := a[..];
    var l := lo;
    while true
      invariant lo <= l <= hi
      invariant Permuted(s0, a[..], lo, hi)
      invariant Settled(a[..], cmp, lo, l, hi)
      decreases hi - l
    {
      ghost var s1 := a[..];
      var done, eq, gt := SortPass(a, l, hi, cmp);
      StillSettled(s0, s1, a[..], cmp, lo, l, hi);
      if done {
        return;
      }
      SortSmaller(a, cmp, lo, l, eq, gt, hi, s0);
      l := gt;
      if hi - gt <= 1 {
        return;
      }
    }
  }

  /** The recursive call on the smaller elements, made only for two or more. */
  method SortSmaller<T(!new)>(a: array<T>, cmp: (T, T) -> int, ghost lo: nat, l: nat, eq: nat, ghost gt: nat, ghost hi: nat, ghost s0: seq<T>)
    requires lo <= l <= eq < hi <= a.Length == |s0| && TotalPreorder(cmp)
    requires Permuted(s0, a[..], lo, hi) && Settled(a[..], cmp, lo, l, hi)
    requires Split(a[..], cmp, l, eq, gt, hi, a[eq])
    modifies a
    ensures Permuted(s0, a[..], lo, hi) && Settled(a[..], cmp, lo, gt, hi)
    decreases hi - l, 0
  {
    if eq - l > 1 {
      ghost var s := a[..];
      QsortRange(a, l, eq, cmp);
      SortedLess(s0, s, a[..], cmp, lo, l, eq, gt, hi, s[eq]);
    }
    SplitSettles(a[..], cmp, lo, l, eq, gt, hi, a[eq]);
  }

  lemma StillSettled<T(!new)>(s0: seq<T>, s: seq<T>, t: seq<T>, cmp: (T, T) -> int, lo: nat, l: nat, hi: nat)
    requires lo <= l <= hi <= |s| == |s0|
    requires Permuted(s0, s, lo, hi) && Settled(s, cmp, lo, l, hi) && Permuted(s, t, l, hi)
    ensures Permuted(s0, t, lo, hi) && Settled(t, cmp, lo, l, hi)
  {
    SettledPermuted(s, t, cmp, lo, l, hi);
    PermutedWiden(s, t, l, hi, lo, hi);
    PermutedTrans(s0, s, t, lo, hi);
  }

  /** Sorting the smaller elements disturbs neither what is settled nor the split. */
  lemma SortedLess<T(!new)>(s0: seq<T>, s: seq<T>, t: seq<T>, cmp: (T, T) -> int,
                            lo: nat, l: nat, eq: nat, gt: nat, hi: nat, p: T)
    requires lo <= l <= hi <= |s| == |s0| && TotalPreorder(cmp)
    requires Permuted(s0, s, lo, hi) && Settled(s, cmp, lo, l, hi)
    requires Split(s, cmp, l, eq, gt, hi, p) && p == s[eq]
    requires Permuted(s, t, l, eq)
    ensures Permuted(s0, t, lo, hi) && Settled(t, cmp, lo, l, hi)
    ensures Split(t, cmp, l, eq, gt, hi, p) && p == t[eq]
  {
    SplitPermuted(s, t, cmp, l, eq, gt, hi, p);
    PermutedOutside(s, t, l, eq, eq);
    PermutedWiden(s, t, l, eq, l, hi);
    StillSettled(s0, s, t, cmp, lo, l, hi);
  }
}
