/** The new_pages system call: claim a range of pages one by one, and undo the claim if
    any of them cannot be had. */
module NewPages {
  import opened Basics
  import opened FramePool
  import opened PageDirectory
  import opened AddressSpace

  datatype PageAllocation = PageAllocation(base: nat, len: nat)

  /** From `s`, pages b + lo up to b + hi hold cleared frames off the front of the pool;
      every other page is as it was. */
  ghost predicate Claimed(s: Snapshot, b: nat, lo: nat, hi: nat, t: Snapshot) {
    && lo <= hi <= |s.pool| && b < PAGES && b + hi <= PAGES && (hi > 0 ==> FIRST_USER_PAGE <= b)
    && Balanced(t.pool, t.space)
    && FlatDomain(s.space)
    && (forall pn: nat :: pn < PAGES ==>
          t.space[pn] == if b + lo <= pn < b + hi then Present(s.pool[pn - b], READ_WRITE) else s.space[pn])
    && Owned(t.pool, t.space) == Owned(s.pool, s.space)
    && RamFrame(s.ram, t.ram, Members(s.pool))
    && (forall k :: lo <= k < hi ==> s.pool[k] in t.ram && t.ram[s.pool[k]] == Zeros())
    && (lo == 0 ==> t.pool == s.pool[hi..])
  }

  /** The pages of the range were free. */
  ghost predicate WereFree(m: Flat, b: nat, count: nat) {
    forall pn: nat :: b <= pn < b + count ==> UserPage(pn) && pn in m && m[pn] == Absent(PAGE_UNAVAILABLE)
  }

  lemma FreeNext(m: Flat, b: nat, i: nat)
    requires WereFree(m, b, i) && UserPage(b + i) && b + i in m && m[b + i] == Absent(PAGE_UNAVAILABLE)
    ensures WereFree(m, b, i + 1)
  {
  }

  lemma ClaimNothing(s: Snapshot, b: nat)
    requires Balanced(s.pool, s.space) && b < PAGES
    ensures Claimed(s, b, 0, 0, s) && WereFree(s.space, b, 0)
  {
  }

  /** Offering a page and mapping the next pooled frame there. */
  lemma ClaimNext(s: Snapshot, b: nat, i: nat, t: Snapshot)
    requires Claimed(s, b, 0, i, t) && t.pool != [] && UserPage(b + i) && t.space[b + i] == Absent(PAGE_UNAVAILABLE)
    ensures var m := t.space[b + i := Absent(PAGE_AVAILABLE)];
            var m' := m[b + i := Present(t.pool[0], READ_WRITE)];
            Balanced(t.pool[1..], m') && Claimed(s, b, 0, i + 1, Snapshot(t.pool[1..], m', t.ram[t.pool[0] := Zeros()]))
  {
    var m := t.space[b + i := Absent(PAGE_AVAILABLE)];
    SharedKeeps(t.pool, t.space, b + i, Absent(PAGE_AVAILABLE));
    MapKeeps(t.pool, m, b + i);
    ClaimedRam(s, b, i, t);
    hide Balanced, Owned, Frames, Members, ValidSpace, RamFrame;
    assert t.pool[0] == s.pool[i] && t.pool[1..] == s.pool[i + 1..];
  }

  lemma ClaimedRam(s: Snapshot, b: nat, i: nat, t: Snapshot)
    requires Claimed(s, b, 0, i, t) && t.pool != []
    ensures RamFrame(s.ram, t.ram[t.pool[0] := Zeros()], Members(s.pool))
  {
    assert t.pool[0] == s.pool[i];
    assert s.pool[i] in Members(s.pool);
  }

  /** Unmapping a claimed page and withdrawing the offer. */
  lemma UndoNext(s: Snapshot, b: nat, j: nat, i: nat, t: Snapshot, pool': seq<nat>)
    requires Claimed(s, b, j, i, t) && j < i && FlatDomain(s.space) && s.space[b + j] == Absent(PAGE_UNAVAILABLE)
    requires ValidPool(pool') && Members(pool') == Members(t.pool) + Freed(t.space[b + j].frame)
    ensures var m := t.space[b + j := Absent(PAGE_AVAILABLE)];
            var m' := m[b + j := Absent(PAGE_UNAVAILABLE)];
            Balanced(pool', m') && Claimed(s, b, j + 1, i, Snapshot(pool', m', t.ram))
  {
    var m := t.space[b + j := Absent(PAGE_AVAILABLE)];
    var m' := m[b + j := Absent(PAGE_UNAVAILABLE)];
    hide Claimed, Balanced, Owned, Frames, Members, ValidSpace, RamFrame, ValidPool, Freed;
    UndoPlaces(s, b, j, i, t);
    UnmapKeeps(t.pool, t.space, b + j, pool');
    SharedKeeps(pool', m, b + j, Absent(PAGE_UNAVAILABLE));
    SameOwned(pool', m, m');
    UndoClaimed(s, b, j, i, t, pool', m');
  }

  lemma SameOwned(pool: seq<nat>, m: Flat, m': Flat)
    requires Frames(m') == Frames(m)
    ensures Owned(pool, m') == Owned(pool, m)
  {
  }

  lemma UndoPlaces(s: Snapshot, b: nat, j: nat, i: nat, t: Snapshot)
    requires Claimed(s, b, j, i, t) && j < i
    ensures Balanced(t.pool, t.space) && UserPage(b + j) && b + j in t.space && t.space[b + j].Present?
    ensures var m := t.space[b + j := Absent(PAGE_AVAILABLE)]; b + j in m && !Private(m[b + j])
  {
    hide Owned, Frames, RamFrame, Members;
  }

  /** One page fewer of the claim. */
  lemma UndoClaimed(s: Snapshot, b: nat, j: nat, i: nat, t: Snapshot, pool': seq<nat>, m': Flat)
    requires Claimed(s, b, j, i, t) && j < i && FlatDomain(s.space) && s.space[b + j] == Absent(PAGE_UNAVAILABLE)
    requires Balanced(pool', m') && Owned(pool', m') == Owned(t.pool, t.space)
    requires m' == t.space[b + j := Absent(PAGE_AVAILABLE)][b + j := Absent(PAGE_UNAVAILABLE)]
    ensures Claimed(s, b, j + 1, i, Snapshot(pool', m', t.ram))
  {
    hide Balanced, Owned, Frames, Members, ValidSpace, RamFrame, ValidPool;
  }

  /** Once everything is undone the space and the pool are the ones we started with. */
  lemma AllUndone(s: Snapshot, b: nat, i: nat, t: Snapshot)
    requires Claimed(s, b, i, i, t) && Balanced(s.pool, s.space)
    ensures t.space == s.space && t.pool == s.pool
  {
    assert t.space == s.space;
    assert Members(t.pool) == Owned(t.pool, t.space) - Frames(t.space);
    assert Members(s.pool) == Owned(s.pool, s.space) - Frames(s.space);
    PoolUnique(t.pool, s.pool);
  }

  // -------------------------------------------------------------- one page

  /** Why a page cannot be claimed. */
  ghost predicate Unclaimable(m: Flat, pn: nat, pool: seq<nat>) {
    pool == [] || !UserPage(pn) || pn !in m || m[pn] != Absent(PAGE_UNAVAILABLE)
  }

  /** Make page (b + i) mod PAGES available and map a cleared frame there, or leave it as
      it was. `tables` is the kernel heap's answer for each page table. */
  method ClaimPage(d: PageDir, mem: Memory, b: nat, i: nat, ghost s: Snapshot, tables: nat -> bool) returns (ok: bool)
    requires Sane(d, mem) && Claimed(s, b, 0, i, Now(d, mem))
    modifies d.Repr, mem
    ensures Sane(d, mem) && fresh(d.Repr - old(d.Repr))
    ensures if ok then !Unclaimable(old(d.Space()), b + i, old(mem.allocList)) && Claimed(s, b, 0, i + 1, Now(d, mem))
            else Now(d, mem) == old(Now(d, mem)) && (Refused(old(d.Tables()), tables, b + i) || Unclaimable(old(d.Space()), b + i, old(mem.allocList)))
    ensures ok ==> !Refused(old(d.Tables()), tables, b + i)
    ensures b + i < PAGES ==> Grown(old(d.Tables()), d.Tables(), b + i, tables(TableOf(b + i)))
  {
    hide PageOf, TableOf, Grown, PageDir.Tables, RangePage, Claimed, Balanced, PageDir.Space, PageDir.Valid, PageDir.HasTable, Memory.Valid;
    ghost var t := Now(d, mem);
    var page := RangePage(b, i);
    ClaimSteps(s, b, i, t);
    PageNumber(b, i);
    ok := Offer(d, mem, page, tables(TableOf(b + i)));
    if ok {
      ok := MapOffered(d, mem, page, b + i);
    }
  }

  lemma ClaimSteps(s: Snapshot, b: nat, i: nat, t: Snapshot)
    requires Claimed(s, b, 0, i, t)
    ensures b < PAGES && b + i <= PAGES
    ensures UserPage(b + i) && t.space[b + i] == Absent(PAGE_UNAVAILABLE) ==>
              t.space[b + i := Absent(PAGE_AVAILABLE)][b + i := Absent(PAGE_UNAVAILABLE)] == t.space
    ensures !Unclaimable(t.space, b + i, t.pool) ==>
              var m := t.space[b + i := Absent(PAGE_AVAILABLE)];
              var m' := m[b + i := Present(t.pool[0], READ_WRITE)];
              Balanced(t.pool[1..], m') && Claimed(s, b, 0, i + 1, Snapshot(t.pool[1..], m', t.ram[t.pool[0] := Zeros()]))
  {
    if !Unclaimable(t.space, b + i, t.pool) { ClaimNext(s, b, i, t); }
  }

  /** The address of the i-th page of a range, which may wrap past the top of the
      address space. */
  function RangePage(b: nat, i: nat): nat { (b + i) % PAGES * PAGE_SIZE }

  lemma PageNumber(b: nat, i: nat)
    requires b < PAGES && b + i <= PAGES
    ensures PageOf(RangePage(b, i)) == if b + i < PAGES then b + i else 0
  {
  }

  /** get_availability and set_availability on an unavailable page. */
  method Offer(d: PageDir, mem: Memory, page: nat, grant: bool) returns (ok: bool)
    requires d.Valid() && PageOf(page) < PAGES
    modifies d.Repr
    ensures d.Valid() && fresh(d.Repr - old(d.Repr))
    ensures ok <==> UserPage(PageOf(page)) && old(d.Space())[PageOf(page)] == Absent(PAGE_UNAVAILABLE) && (old(d.HasTable(PageOf(page))) || grant)
    ensures ok ==> d.Space() == old(d.Space())[PageOf(page) := Absent(PAGE_AVAILABLE)] && d.HasTable(PageOf(page))
    ensures !ok ==> d.Space() == old(d.Space())
    ensures Grown(old(d.Tables()), d.Tables(), PageOf(page), grant)
  {
    hide PageOf, TableOf, PageDir.Tables, PageDir.HasTable, PageDir.Space, PageDir.Valid;
    ok := false;
    SpaceEntry(d, PageOf(page));
    var rc, availability := d.GetAvailability(page);
    if rc == 0 && availability == PAGE_UNAVAILABLE {
      var rc2 := d.SetAvailability(page, PAGE_AVAILABLE, grant);
      ok := rc2 == 0;
    }
  }

  /** map_new_frame on the page just offered; on failure the offer is withdrawn. */
  method MapOffered(d: PageDir, mem: Memory, page: nat, ghost pn: nat) returns (ok: bool)
    requires d.Valid() && mem.Valid() && mem !in d.Repr && pn == PageOf(page) && UserPage(pn)
    requires d.Space()[pn] == Absent(PAGE_AVAILABLE) && d.HasTable(pn)
    modifies d.Repr, mem
    ensures d.Valid() && mem.Valid() && mem !in d.Repr && fresh(d.Repr - old(d.Repr))
    ensures ok <==> old(mem.allocList) != []
    ensures ok ==> Now(d, mem) == Snapshot(old(mem.allocList)[1..],
                                          old(d.Space())[pn := Present(old(mem.allocList)[0], READ_WRITE)],
                                          old(mem.ram)[old(mem.allocList)[0] := Zeros()])
    ensures !ok ==> Now(d, mem) == old(Now(d, mem)).(space := old(d.Space())[pn := Absent(PAGE_UNAVAILABLE)])
    ensures d.Tables() == old(d.Tables())
  {
    hide PageOf, TableOf, PageDir.Tables, PageDir.HasTable, PageDir.Space, PageDir.Valid, Memory.Valid;
    var rc := d.MapNewFrame(mem, page, false);
    ok := rc == 0;
    SpaceEntry(d, pn);
    if ok {
      ClearPage(d, mem, page);
    } else {
      var rc2 := d.SetAvailability(page, PAGE_UNAVAILABLE, false);
    }
  }

  // -------------------------------------------------------------- rolling back

  /** Unmap the j-th page of the range and withdraw it. */
  method UndoPage(d: PageDir, mem: Memory, b: nat, j: nat, ghost i: nat, ghost s: Snapshot)
    requires Sane(d, mem) && Claimed(s, b, j, i, Now(d, mem)) && j < i && WereFree(s.space, b, i)
    modifies d.Repr, mem
    ensures Sane(d, mem) && fresh(d.Repr - old(d.Repr))
    ensures Claimed(s, b, j + 1, i, Now(d, mem)) && mem.ram == old(mem.ram)
  {
    hide PageOf, RangePage, Claimed, Balanced, WereFree, PageDir.Space, PageDir.Valid, Memory.Valid;
    ghost var t := Now(d, mem);
    var page := RangePage(b, j);
    UndoFacts(s, b, j, i, t);
    PageNumber(b, j);
    Withdraw(d, mem, page, b + j);
    UndoPool(mem);
    UndoNext(s, b, j, i, t, mem.allocList);
  }

  lemma UndoFacts(s: Snapshot, b: nat, j: nat, i: nat, t: Snapshot)
    requires Claimed(s, b, j, i, t) && j < i && WereFree(s.space, b, i)
    ensures b < PAGES && b + j < PAGES && UserPage(b + j) && FlatDomain(s.space)
    ensures t.space[b + j].Present? && s.space[b + j] == Absent(PAGE_UNAVAILABLE)
  {
  }

  lemma UndoPool(mem: Memory)
    requires mem.Valid()
    ensures ValidPool(mem.allocList)
  {
  }

  /** unmap_frame and set_availability on a mapped page. */
  method Withdraw(d: PageDir, mem: Memory, page: nat, ghost pn: nat)
    requires d.Valid() && mem.Valid() && mem !in d.Repr && pn == PageOf(page) && UserPage(pn) && d.Space()[pn].Present?
    modifies d.Repr, mem`allocList
    ensures d.Valid() && mem.Valid() && mem !in d.Repr && fresh(d.Repr - old(d.Repr))
    ensures d.Space() == old(d.Space())[pn := Absent(PAGE_AVAILABLE)][pn := Absent(PAGE_UNAVAILABLE)]
    ensures Members(mem.allocList) == old(Members(mem.allocList)) + Freed(old(d.Space())[pn].frame)
  {
    hide PageOf, Members, Freed, PageDir.Space, PageDir.HasTable, PageDir.Valid, Memory.Valid;
    SpaceEntry(d, pn);
    var rc := d.UnmapFrame(mem, page, true);
    var rc2 := d.SetAvailability(page, PAGE_UNAVAILABLE, false);
  }

  /** Undo the first i pages of the range. */
  method UndoRange(d: PageDir, mem: Memory, b: nat, i: nat, ghost s: Snapshot)
    requires Sane(d, mem) && Claimed(s, b, 0, i, Now(d, mem)) && WereFree(s.space, b, i) && Balanced(s.pool, s.space)
    modifies d.Repr, mem
    ensures Sane(d, mem) && fresh(d.Repr - old(d.Repr))
    ensures d.Space() == s.space && mem.allocList == s.pool && mem.ram == old(mem.ram)
  {
    hide Claimed, Balanced, WereFree;
    var j := 0;
    while j < i
      invariant 0 <= j <= i && Sane(d, mem) && fresh(d.Repr - old(d.Repr)) && mem.ram == old(mem.ram)
      invariant Claimed(s, b, j, i, Now(d, mem))
    {
      UndoPage(d, mem, b, j, i, s);
      j := j + 1;
    }
    AllUndone(s, b, i, Now(d, mem));
  }

  // ------------------------------------------------------------- the whole call

  /** What handle_new_pages demands of its arguments. */
  predicate GoodRange(base: nat, len: int, machineFrames: nat) {
    && base % PAGE_SIZE == 0 && len > 0 && len % PAGE_SIZE == 0
    && len / PAGE_SIZE < machineFrames - FIRST_USER_PAGE
  }

  /** The call has mapped `count` cleared pages from page b on, all free before. */
  ghost predicate Granted(s: Snapshot, b: nat, count: nat, t: Snapshot) {
    Claimed(s, b, 0, count, t) && WereFree(s.space, b, count)
  }

  /** Nothing has changed but what free frames hold. */
  ghost predicate Restored(s: Snapshot, t: Snapshot) {
    t.space == s.space && t.pool == s.pool && RamFrame(s.ram, t.ram, Members(s.pool))
  }

  /** The loop over the pages of the range. It claims them exactly when they are all free,
      there are frames for them, and no page table that is missing is refused; `tables` is
      the kernel heap's answer for each page table. */
  method ClaimRange(d: PageDir, mem: Memory, b: nat, count: nat, tables: nat -> bool) returns (ok: bool)
    requires Sane(d, mem) && b < PAGES
    modifies d.Repr, mem
    ensures Sane(d, mem) && fresh(d.Repr - old(d.Repr))
    ensures if ok then Granted(old(Now(d, mem)), b, count, Now(d, mem)) else Restored(old(Now(d, mem)), Now(d, mem))
    ensures ok <==> !TableRefused(old(d.Tables()), tables, b, b + count) && WereFree(old(d.Space()), b, count) && |old(mem.allocList)| >= count
  {
    hide Claimed, Balanced, WereFree, Restored, TableRefused, OnlyGranted, PageDir.Space, PageDir.Valid, PageDir.Tables, Memory.Valid;
    ghost var s, there := Now(d, mem), d.Tables();
    ok := true;
    ClaimNothing(s, b);
    NothingAsked(there, tables, b);
    var i := 0;
    while ok && i < count
      invariant 0 <= i <= count && Sane(d, mem) && fresh(d.Repr - old(d.Repr))
      invariant if ok then Claimed(s, b, 0, i, Now(d, mem)) && WereFree(s.space, b, i) else Restored(s, Now(d, mem))
      invariant ok ==> OnlyGranted(there, d.Tables(), tables) && !TableRefused(there, tables, b, b + i)
      invariant !ok ==> TableRefused(there, tables, b, b + count) || !WereFree(s.space, b, count) || |s.pool| < count
    {
      ok := ClaimOrUndo(d, mem, b, i, s, count, there, tables);
      i := i + 1;
    }
    if ok { ClaimedEnough(s, b, count, Now(d, mem)); }
  }

  lemma NothingAsked(there: set<nat>, tables: nat -> bool, b: nat)
    ensures OnlyGranted(there, there, tables) && !TableRefused(there, tables, b, b)
  {
  }

  /** One page more has its table. */
  lemma AskedNext(there: set<nat>, now: set<nat>, tables: nat -> bool, lo: nat, pn: nat, hi: nat)
    requires OnlyGranted(there, now, tables) && !TableRefused(there, tables, lo, pn) && lo <= pn < hi
    ensures !Refused(now, tables, pn) ==> !TableRefused(there, tables, lo, pn + 1)
    ensures Refused(now, tables, pn) ==> TableRefused(there, tables, lo, hi)
  {
    assert Refused(now, tables, pn) ==> Refused(there, tables, pn);
  }

  lemma ClaimedEnough(s: Snapshot, b: nat, count: nat, t: Snapshot)
    requires Claimed(s, b, 0, count, t)
    ensures |s.pool| >= count
  {
  }

  /** One iteration of the loop, with the rollback where it fails. */
  method ClaimOrUndo(d: PageDir, mem: Memory, b: nat, i: nat, ghost s: Snapshot, ghost count: nat, ghost there: set<nat>, tables: nat -> bool) returns (ok: bool)
    requires Sane(d, mem) && Claimed(s, b, 0, i, Now(d, mem)) && WereFree(s.space, b, i) && i < count && Balanced(s.pool, s.space)
    requires OnlyGranted(there, d.Tables(), tables) && !TableRefused(there, tables, b, b + i)
    modifies d.Repr, mem
    ensures Sane(d, mem) && fresh(d.Repr - old(d.Repr))
    ensures if ok then Claimed(s, b, 0, i + 1, Now(d, mem)) && WereFree(s.space, b, i + 1) else Restored(s, Now(d, mem))
    ensures ok ==> OnlyGranted(there, d.Tables(), tables) && !TableRefused(there, tables, b, b + i + 1)
    ensures !ok ==> TableRefused(there, tables, b, b + count) || !WereFree(s.space, b, count) || |s.pool| < count
  {
    hide Claimed, Balanced, WereFree, RamFrame, Unclaimable, TableRefused, Refused, OnlyGranted, Grown, PageDir.Space, PageDir.Valid, PageDir.Tables, Memory.Valid;
    ghost var t, before := Now(d, mem), d.Tables();
    ClaimProgress(s, b, i, count, t);
    AskedNext(there, before, tables, b, b + i, b + count);
    ok := ClaimPage(d, mem, b, i, s, tables);
    if ok {
      ClaimedPage(s, b, i, Now(d, mem));
      GrownGranted(there, before, d.Tables(), b + i, tables);
    } else {
      UndoRange(d, mem, b, i, s);
    }
  }

  lemma ClaimedPage(s: Snapshot, b: nat, i: nat, t: Snapshot)
    requires Claimed(s, b, 0, i + 1, t)
    ensures b + i < PAGES
  {
  }

  lemma ClaimProgress(s: Snapshot, b: nat, i: nat, count: nat, t: Snapshot)
    requires Claimed(s, b, 0, i, t) && WereFree(s.space, b, i) && i < count
    ensures !Unclaimable(t.space, b + i, t.pool) ==> WereFree(s.space, b, i + 1)
    ensures Unclaimable(t.space, b + i, t.pool) ==> !WereFree(s.space, b, count) || |s.pool| < count
    ensures RamFrame(s.ram, t.ram, Members(s.pool))
  {
    if !Unclaimable(t.space, b + i, t.pool) { FreeNext(s.space, b, i); }
  }

  /** handle_new_pages. `list` is the process's list of allocations, `tables` and `node`
      are the kernel heap's answers for page tables and for the list node. The call succeeds
      exactly for a good range that is free, with enough frames in the pool, when the heap
      grants the node and the page tables that are missing; on every failure all is as
      before. */
  method HandleNewPages(d: PageDir, mem: Memory, list: seq<PageAllocation>, base: nat, len: int, machineFrames: nat, tables: nat -> bool, node: bool)
    returns (rc: int, list': seq<PageAllocation>)
    requires Sane(d, mem) && PageOf(base) < PAGES && Sorted(list)
    modifies d.Repr, mem
    ensures Sane(d, mem) && fresh(d.Repr - old(d.Repr)) && Sorted(list')
    ensures rc == 0 || rc == -1
    ensures rc == 0 <==>
              && Claimable(old(Now(d, mem)), base, len, machineFrames) && node
              && !TableRefused(old(d.Tables()), tables, PageOf(base), PageOf(base) + len / PAGE_SIZE)
    ensures rc == 0 ==>
              && Granted(old(Now(d, mem)), PageOf(base), len / PAGE_SIZE, Now(d, mem))
              && multiset(list') == multiset(list) + multiset{PageAllocation(base, len)}
    ensures rc != 0 ==> Restored(old(Now(d, mem)), Now(d, mem)) && list' == list
  {
    hide GoodRange, PageOf, WereFree, Claimed, Balanced, RamFrame, TableRefused, PageDir.Space, PageDir.Valid, Memory.Valid;
    ghost var s := Now(d, mem);
    RestoredSelf(s);
    list' := list;
    var pageCount := if len >= 0 then len / PAGE_SIZE else -(-len / PAGE_SIZE);
    RangeChecks(base, len, machineFrames, pageCount);
    if PageOf(base) * PAGE_SIZE != base {
      return -1, list;
    }
    if !(pageCount > 0 && pageCount < machineFrames - FIRST_USER_PAGE && pageCount * PAGE_SIZE == len) {
      return -1, list;
    }
    var ok := ClaimRange(d, mem, PageOf(base), pageCount, tables);
    if !ok {
      return -1, list;
    }
    if !node {
      GrantedRam(s, PageOf(base), pageCount, Now(d, mem));
      UndoRange(d, mem, PageOf(base), pageCount, s);
      return -1, list;
    }
    list' := InsertAllocation(list, PageAllocation(base, len));
    rc := 0;
  }

  /** A good range whose pages are all free, and frames for it. */
  ghost predicate Claimable(s: Snapshot, base: nat, len: int, machineFrames: nat) {
    && GoodRange(base, len, machineFrames)
    && WereFree(s.space, PageOf(base), len / PAGE_SIZE) && |s.pool| >= len / PAGE_SIZE
  }

  lemma RestoredSelf(s: Snapshot)
    ensures Restored(s, s)
  {
  }

  /** The checks on the arguments, in the order the program makes them. */
  lemma RangeChecks(base: nat, len: int, machineFrames: nat, pageCount: int)
    requires pageCount == if len >= 0 then len / PAGE_SIZE else -(-len / PAGE_SIZE)
    ensures GoodRange(base, len, machineFrames) <==>
              PageOf(base) * PAGE_SIZE == base && pageCount > 0 && pageCount < machineFrames - FIRST_USER_PAGE && pageCount * PAGE_SIZE == len
    ensures GoodRange(base, len, machineFrames) ==> pageCount == len / PAGE_SIZE && len >= 0
  {
  }

  lemma GrantedRam(s: Snapshot, b: nat, count: nat, t: Snapshot)
    requires Granted(s, b, count, t)
    ensures RamFrame(s.ram, t.ram, Members(s.pool))
  {
  }

  ghost predicate Sorted(list: seq<PageAllocation>) {
    forall i :: 1 <= i < |list| ==> list[i - 1].base <= list[i].base
  }

  /** The search of handle_new_pages for the place of a new allocation in the circular
      list, and the insertion before it. */
  method InsertAllocation(list: seq<PageAllocation>, a: PageAllocation) returns (r: seq<PageAllocation>)
    requires Sorted(list)
    ensures Sorted(r) && multiset(r) == multiset(list) + multiset{a}
  {
    if list == [] || list[0].base >= a.base {
      InsertedAt(list, 0, a);
      assert list[..0] + [a] + list[0..] == [a] + list;
      r := [a] + list;
    } else {
      hide Sorted;
      var i := 1;
      while i < |list| && list[i].base < a.base
        invariant 1 <= i <= |list| && list[i - 1].base < a.base
      {
        i := i + 1;
      }
      InsertedAt(list, i, a);
      r := list[..i] + [a] + list[i..];
    }
  }

  lemma InsertedAt(list: seq<PageAllocation>, i: nat, a: PageAllocation)
    requires Sorted(list) && i <= |list|
    requires i > 0 ==> list[i - 1].base <= a.base
    requires i < |list| ==> a.base <= list[i].base
    ensures Sorted(list[..i] + [a] + list[i..])
    ensures multiset(list[..i] + [a] + list[i..]) == multiset(list) + multiset{a}
  {
    InsertedCount(list, i, a);
    var r := list[..i] + [a] + list[i..];
    forall q | 1 <= q < |r|
      ensures r[q - 1].base <= r[q].base
    {
      assert q > i + 1 ==> r[q] == list[q - 1] && r[q - 1] == list[q - 2];
    }
  }

  lemma InsertedCount(list: seq<PageAllocation>, i: nat, a: PageAllocation)
    requires i <= |list|
    ensures multiset(list[..i] + [a] + list[i..]) == multiset(list) + multiset{a}
  {
    assert list == list[..i] + list[i..];
  }

  /** What a successful call means for the program: exactly the pages of the range, in
      full below the top of the address space, become writable zeros, each in a frame of
      its own from the front of the pool; nothing else it sees changes. */
  lemma GrantedMeans(s: Snapshot, b: nat, count: nat, t: Snapshot, pn: nat)
    requires Balanced(s.pool, s.space) && Granted(s, b, count, t) && pn < PAGES && count > 0
    ensures FIRST_USER_PAGE <= b && b + count <= PAGES && count <= |s.pool| && t.pool == s.pool[count..]
    ensures b <= pn < b + count ==>
              && View(s.space, s.ram, pn).None? && View(t.space, t.ram, pn) == Some(Zeros()) && Writable(t.space, pn)
              && t.space[pn].frame == s.pool[pn - b]
    ensures !(b <= pn < b + count) ==> t.space[pn] == s.space[pn] && View(t.space, t.ram, pn) == View(s.space, s.ram, pn)
  {
    if !(b <= pn < b + count) {
      assert Private(s.space[pn]) && UserPage(pn) ==> s.space[pn].frame in Frames(s.space);
    } else {
      assert s.pool[pn - b] in s.pool;
      assert t.ram[s.pool[pn - b]] == Zeros();
    }
  }
}
