/** exec: building a new address space for an executable, and backing off when any step
    fails. Host programs only: their text starts in user memory. */
module Loader {
  import opened Basics
  import opened FramePool
  import opened PageDirectory
  import opened AddressSpace
  import opened UserBytes
  import opened ArgumentStack

  const STACK_PAGE: nat := 0xF_FFC0

  /** A range of addresses, as a 32-bit start and size. */
  datatype Section = Section(addr: nat, size: nat)

  /** The sections of a program, and where the first three are found in its file. */
  datatype Elf = Elf(txt: Section, rodat: Section, dat: Section, bss: Section, txtoff: nat, rodatoff: nat, datoff: nat)

  /** The first page of a range, and the page after its last one. */
  function First(r: Section): nat { r.addr / PAGE_SIZE }

  function End(r: Section): (e: nat)
    ensures First(r) <= e
    ensures r.size > 0 ==> forall n: nat :: First(r) <= n ==> (n < e <==> n * PAGE_SIZE < r.addr + r.size)
  {
    if r.size == 0 then First(r) else (r.addr + r.size - 1) / PAGE_SIZE + 1
  }

  predicate In(pn: nat, r: Section) { First(r) <= pn < End(r) }

  /** The 32-bit address of the n-th page counted from 0, as the vm functions receive it. */
  function Truncated(n: nat): nat { n % PAGES * PAGE_SIZE }

  lemma TruncatedPage(n: nat)
    requires n <= PAGES
    ensures PageOf(Truncated(n)) == if n < PAGES then n else 0
  {
  }

  // ------------------------------------------------------------ ranges of pages

  ghost predicate UserRange(lo: nat, hi: nat) { lo <= hi <= PAGES && (lo < hi ==> FIRST_USER_PAGE <= lo) }

  /** Pages lo to hi have become available; they were not mapped. */
  ghost predicate Offered(m: Flat, m': Flat, lo: nat, hi: nat) {
    && FlatDomain(m) && FlatDomain(m') && UserRange(lo, hi)
    && forall pn: nat :: pn < PAGES ==>
         if lo <= pn < hi then m[pn].Absent? && m'[pn] == Absent(PAGE_AVAILABLE) else m'[pn] == m[pn]
  }

  /** What mapping does to one page: nothing if it is mapped already. */
  ghost predicate MappedPage(e: Pte, e': Pte, zero: bool) {
    if e.Present? then e' == e
    else e == Absent(PAGE_AVAILABLE) && if zero then e' == Present(ZERO_FRAME, READ_ONLY) else Private(e') && e'.rw == READ_WRITE
  }

  ghost predicate MappedRange(m: Flat, m': Flat, lo: nat, hi: nat, zero: bool) {
    && FlatDomain(m) && FlatDomain(m') && UserRange(lo, hi)
    && forall pn: nat :: pn < PAGES ==>
         if lo <= pn < hi then MappedPage(m[pn], m'[pn], zero) else m'[pn] == m[pn]
  }

  ghost predicate AllPrivate(m: Flat, lo: nat, hi: nat) {
    UserRange(lo, hi) && forall pn: nat :: lo <= pn < hi ==> pn in m && Private(m[pn])
  }

  ghost predicate AccessRange(m: Flat, m': Flat, lo: nat, hi: nat, rw: int) {
    && FlatDomain(m) && FlatDomain(m') && UserRange(lo, hi)
    && forall pn: nat :: pn < PAGES ==>
         if lo <= pn < hi then m[pn].Present? && m'[pn] == Present(m[pn].frame, rw) else m'[pn] == m[pn]
  }

  // ------------------------------------------------------------ what can go wrong

  /** change_availability and map_and_clear can deal with every page of a range. */
  ghost predicate CanOffer(m: Flat, pn: nat) { UserPage(pn) && pn in m && m[pn].Absent? }

  ghost predicate Offerable(m: Flat, lo: nat, hi: nat) { forall pn: nat :: lo <= pn < hi ==> CanOffer(m, pn) }

  ghost predicate CanMap(m: Flat, pn: nat) { UserPage(pn) && pn in m && (m[pn].Present? || m[pn] == Absent(PAGE_AVAILABLE)) }

  ghost predicate Mappable(m: Flat, lo: nat, hi: nat) { forall pn: nat :: lo <= pn < hi ==> CanMap(m, pn) }

  /** The pages with frames of their own. */
  ghost function PrivatePages(m: Flat): set<nat> { set pn | pn in m && UserPage(pn) && Private(m[pn]) }

  /** `t` is a space under construction, with one frame of the pool of `s` behind each of
      its private pages; those are among the pages in `need`. */
  ghost predicate Building(s: Snapshot, t: Snapshot, need: set<nat>) {
    Drawn(s, t) && |s.pool| == |t.pool| + |PrivatePages(t.space)| && PrivatePages(t.space) <= need
  }

  /** The same, and what its memory holds. */
  ghost predicate Built(s: Snapshot, t: Snapshot, need: set<nat>, img: Image) { Building(s, t, need) && Shows(t, img) }

  ghost predicate Needs(need: set<nat>, lo: nat, hi: nat) { forall pn: nat :: lo <= pn < hi && UserPage(pn) ==> pn in need }

  /** There are too few frames. */
  ghost predicate Short(s: Snapshot, need: set<nat>) { |s.pool| < |need| }

  /** The page tables of a new space are the kernel's and granted ones, and no table was
      refused to a page that has been offered. `tables` is the kernel heap's answer for each
      page table. */
  ghost predicate Tabled(m: Flat, there: set<nat>, tables: nat -> bool) {
    && FlatDomain(m) && OnlyGranted(KernelTables(), there, tables)
    && forall pn: nat :: UserPage(pn) ==> m[pn] == Absent(PAGE_UNAVAILABLE) || !Refused(KernelTables(), tables, pn)
  }

  ghost predicate Owns(c: PageDir, tables: nat -> bool)
    reads c, c.Repr
    ensures Owns(c, tables) ==> c.Valid()
  {
    c.Valid() && Tabled(c.Space(), c.Tables(), tables)
  }

  /** A page gets another entry: it was offered before, or has a table now. */
  lemma TabledNext(m: Flat, before: set<nat>, after: set<nat>, tables: nat -> bool, n: nat, e: Pte)
    requires Tabled(m, before, tables) && UserPage(n) && Grown(before, after, n, tables(TableOf(n)))
    requires m[n] != Absent(PAGE_UNAVAILABLE) || TableOf(n) in after
    ensures Tabled(m[n := e], after, tables)
  {
    GrownGranted(KernelTables(), before, after, n, tables);
  }

  lemma TabledSame(m: Flat, before: set<nat>, after: set<nat>, tables: nat -> bool, n: nat)
    requires Tabled(m, before, tables) && Grown(before, after, n, tables(TableOf(n)))
    ensures Tabled(m, after, tables)
  {
    GrownGranted(KernelTables(), before, after, n, tables);
  }

  /** For a page that has been offered no table is refused. */
  lemma TabledPage(m: Flat, there: set<nat>, tables: nat -> bool, n: nat)
    requires Tabled(m, there, tables) && UserPage(n)
    ensures m[n] != Absent(PAGE_UNAVAILABLE) ==> TableOf(n) in there || tables(TableOf(n))
    ensures TableOf(n) in there || tables(TableOf(n)) || Refused(KernelTables(), tables, n)
  {
  }

  lemma TabledFresh(tables: nat -> bool)
    ensures Tabled(Fresh(), KernelTables(), tables)
  {
  }

  /** Out of frames with a page still to map: the pool was too small. */
  lemma EmptyIsShort(s: Snapshot, need: set<nat>, t: Snapshot, n: nat)
    requires Building(s, t, need) && UserPage(n) && n in t.space && t.space[n].Absent? && n in need
    ensures t.pool == [] ==> Short(s, need)
  {
    SmallerSet(PrivatePages(t.space), need - {n});
  }

  lemma {:induction false} SmallerSet(a: set<nat>, b: set<nat>)
    requires a <= b
    ensures |a| <= |b|
  {
    if a != {} {
      var x :| x in a;
      SmallerSet(a - {x}, b - {x});
    }
  }

  // --------------------------------------------------------- one page of a range

  lemma OfferNext(s: Snapshot, need: set<nat>, img: Image, m: Flat, t: Snapshot, lo: nat, n: nat)
    requires Built(s, t, need, img) && Offered(m, t.space, lo, n) && UserPage(n) && t.space[n].Absent?
    ensures var t' := t.(space := t.space[n := Absent(PAGE_AVAILABLE)]); Built(s, t', need, img) && Offered(m, t'.space, lo, n + 1)
  {
    hide Shows, ByteAt;
    SharedKeeps(t.pool, t.space, n, Absent(PAGE_AVAILABLE));
    assert PrivatePages(t.space[n := Absent(PAGE_AVAILABLE)]) == PrivatePages(t.space);
    SamePages(t, t.(space := t.space[n := Absent(PAGE_AVAILABLE)]), img);
  }

  lemma MapPresent(m: Flat, m': Flat, lo: nat, n: nat, zero: bool)
    requires MappedRange(m, m', lo, n, zero) && UserPage(n) && m'[n].Present?
    ensures MappedRange(m, m', lo, n + 1, zero)
  {
  }

  /** The page after a mapped range has not been touched. */
  lemma NextUntouched(m: Flat, m': Flat, lo: nat, n: nat, zero: bool)
    requires MappedRange(m, m', lo, n, zero)
    ensures n < PAGES ==> m'[n] == m[n] && n in m
    ensures CanMap(m, n) ==> UserPage(n) && CanMap(m', n)
    ensures n < PAGES && CanMap(m', n) ==> CanMap(m, n)
  {
  }

  lemma MapZeroNext(s: Snapshot, need: set<nat>, img: Image, m: Flat, t: Snapshot, lo: nat, n: nat)
    requires Built(s, t, need, img) && MappedRange(m, t.space, lo, n, true) && UserPage(n) && t.space[n] == Absent(PAGE_AVAILABLE)
    ensures var t' := t.(space := t.space[n := Present(ZERO_FRAME, READ_ONLY)]);
            Built(s, t', need, img) && MappedRange(m, t'.space, lo, n + 1, true)
  {
    hide Shows, ByteAt;
    SharedKeeps(t.pool, t.space, n, Present(ZERO_FRAME, READ_ONLY));
    assert PrivatePages(t.space[n := Present(ZERO_FRAME, READ_ONLY)]) == PrivatePages(t.space);
    SamePages(t, t.(space := t.space[n := Present(ZERO_FRAME, READ_ONLY)]), img);
  }

  lemma MapNewNext(s: Snapshot, need: set<nat>, img: Image, m: Flat, t: Snapshot, lo: nat, n: nat)
    requires Built(s, t, need, img) && MappedRange(m, t.space, lo, n, false) && UserPage(n) && t.space[n] == Absent(PAGE_AVAILABLE)
    requires t.pool != [] && n in need
    ensures var f := t.pool[0];
            var t' := Snapshot(t.pool[1..], t.space[n := Present(f, READ_WRITE)], t.ram[f := Zeros()]);
            Built(s, t', need, img) && MappedRange(m, t'.space, lo, n + 1, false)
  {
    hide Shows, Building;
    BuildingNext(s, need, t, n);
    BuildingBalanced(s, t, need);
    assert t.pool[0] in Members(t.pool) && Pooled(t.pool[0]);
    NewPageShows(t, n, img);
  }

  lemma BuildingBalanced(s: Snapshot, t: Snapshot, need: set<nat>)
    requires Building(s, t, need)
    ensures Balanced(t.pool, t.space)
  {
  }

  lemma BuildingNext(s: Snapshot, need: set<nat>, t: Snapshot, n: nat)
    requires Building(s, t, need) && UserPage(n) && t.space[n].Absent? && t.pool != [] && n in need
    ensures Building(s, Snapshot(t.pool[1..], t.space[n := Present(t.pool[0], READ_WRITE)], t.ram[t.pool[0] := Zeros()]), need)
  {
    assert t.pool[0] in Members(t.pool) && Pooled(t.pool[0]);
    MapKeeps(t.pool, t.space, n);
    assert PrivatePages(t.space[n := Present(t.pool[0], READ_WRITE)]) == PrivatePages(t.space) + {n};
  }

  lemma AccessNext(s: Snapshot, need: set<nat>, img: Image, m: Flat, t: Snapshot, lo: nat, n: nat, rw: int)
    requires Built(s, t, need, img) && AccessRange(m, t.space, lo, n, rw) && UserPage(n) && Private(t.space[n])
    requires rw == READ_ONLY || rw == READ_WRITE
    ensures var t' := t.(space := t.space[n := Present(t.space[n].frame, rw)]); Built(s, t', need, img) && AccessRange(m, t'.space, lo, n + 1, rw)
  {
    hide Shows, Building;
    BuildingAccess(s, need, t, n, rw);
    SamePages(t, t.(space := t.space[n := Present(t.space[n].frame, rw)]), img);
  }

  lemma BuildingAccess(s: Snapshot, need: set<nat>, t: Snapshot, n: nat, rw: int)
    requires Building(s, t, need) && UserPage(n) && Private(t.space[n]) && (rw == READ_ONLY || rw == READ_WRITE)
    ensures Building(s, t.(space := t.space[n := Present(t.space[n].frame, rw)]), need)
  {
    AccessKeeps(t.pool, t.space, n, rw);
    assert PrivatePages(t.space[n := Present(t.space[n].frame, rw)]) == PrivatePages(t.space);
  }

  /** A new page is cleared, and no other page has its frame. */
  lemma NewPageShows(t: Snapshot, n: nat, img: Image)
    requires Balanced(t.pool, t.space) && t.pool != [] && UserPage(n) && t.space[n].Absent? && Shows(t, img)
    ensures Shows(Snapshot(t.pool[1..], t.space[n := Present(t.pool[0], READ_WRITE)], t.ram[t.pool[0] := Zeros()]), img)
  {
    var f := t.pool[0];
    var t' := Snapshot(t.pool[1..], t.space[n := Present(f, READ_WRITE)], t.ram[f := Zeros()]);
    assert f in Members(t.pool);
    forall pn: nat | UserPage(pn)
      ensures PageBytes(t', pn) == PageBytes(t, pn)
    {
      if pn != n && Private(t.space[pn]) { assert t.space[pn].frame in Frames(t.space); }
    }
    SamePages(t, t', img);
  }

  lemma WriteNext(s: Snapshot, need: set<nat>, img: Image, t: Snapshot, a: nat, b: bv8)
    requires Built(s, t, need, img) && UserPage(PageOf(a)) && Private(t.space[PageOf(a)])
    ensures var f := t.space[PageOf(a)].frame;
            Built(s, t.(ram := t.ram[f := Holds(t.ram, f)[a % PAGE_SIZE := b]]), need, Put(img, a, b))
  {
    StoredByte(t, img, a, b);
    assert t.space[PageOf(a)].frame in Frames(t.space);
  }

  // ------------------------------------------------------------------- the loops

  /** change_availability to PAGE_AVAILABLE. */
  method ChangeAvailability(c: PageDir, mem: Memory, r: Section, ghost s: Snapshot, ghost need: set<nat>, ghost img: Image, tables: nat -> bool) returns (ok: bool)
    requires Owns(c, tables) && mem.Valid() && mem !in c.Repr && Built(s, Now(c, mem), need, img) && First(r) < PAGES
    modifies c.Repr
    ensures Owns(c, tables) && fresh(c.Repr - old(c.Repr)) && Built(s, Now(c, mem), need, img)
    ensures ok ==> Offered(old(c.Space()), c.Space(), First(r), End(r))
    ensures !ok ==> TableRefused(KernelTables(), tables, First(r), End(r)) || !Offerable(old(c.Space()), First(r), End(r))
  {
    hide Building, Shows, Tabled, Refused, CanOffer, Offered, PageOf, First, End, Truncated, PageDir.Space, PageDir.Tables, PageDir.Valid, Memory.Valid;
    ghost var m := c.Space();
    var n := First(r);
    ok := true;
    EmptyRanges(m, First(r));
    while ok && n < End(r)
      invariant Owns(c, tables) && fresh(c.Repr - old(c.Repr)) && mem !in c.Repr && Built(s, Now(c, mem), need, img)
      invariant First(r) <= n <= End(r)
      invariant ok ==> n <= PAGES && Offered(m, c.Space(), First(r), n)
      invariant !ok ==> TableRefused(KernelTables(), tables, First(r), End(r)) || !Offerable(m, First(r), End(r))
    {
      ok := OfferPage(c, mem, n, s, need, img, m, First(r), tables);
      n := n + 1;
    }
  }

  method OfferPage(c: PageDir, mem: Memory, n: nat, ghost s: Snapshot, ghost need: set<nat>, ghost img: Image, ghost m: Flat, ghost lo: nat, tables: nat -> bool) returns (ok: bool)
    requires Owns(c, tables) && mem !in c.Repr && Built(s, Now(c, mem), need, img) && n <= PAGES && Offered(m, c.Space(), lo, n)
    modifies c.Repr
    ensures Owns(c, tables) && fresh(c.Repr - old(c.Repr)) && Built(s, Now(c, mem), need, img)
    ensures ok ==> n < PAGES && Offered(m, c.Space(), lo, n + 1)
    ensures !ok ==> Refused(KernelTables(), tables, n) || !CanOffer(m, n)
  {
    hide Building, Shows, Tabled, Refused, Offered, PageOf, Truncated, TableOf, Grown, PageDir.Space, PageDir.Tables, PageDir.Valid, PageDir.HasTable;
    TruncatedPage(n);
    ghost var t, before := Now(c, mem), c.Tables();
    OfferUntouched(m, t.space, lo, n);
    if UserPage(n) {
      TabledPage(t.space, before, tables, n);
      if t.space[n].Absent? { OfferNext(s, need, img, m, t, lo, n); }
    }
    var rc := c.SetAvailability(Truncated(n), PAGE_AVAILABLE, tables(TableOf(n)));
    ok := rc == 0;
    if ok {
      TabledNext(t.space, before, c.Tables(), tables, n, Absent(PAGE_AVAILABLE));
    } else {
      RefusedOffer(c, t.space, before, tables, n);
    }
  }

  /** A refusal changes no page; outside user memory nothing is asked. */
  lemma RefusedOffer(c: PageDir, m: Flat, before: set<nat>, tables: nat -> bool, n: nat)
    requires c.Valid() && c.Space() == m && Tabled(m, before, tables) && n <= PAGES
    requires Grown(before, c.Tables(), if n < PAGES then n else 0, tables(TableOf(n)))
    ensures Owns(c, tables)
  {
    assert TableOf(0) in KernelTables();
  }

  lemma OfferUntouched(m: Flat, m': Flat, lo: nat, n: nat)
    requires Offered(m, m', lo, n)
    ensures n < PAGES ==> m'[n] == m[n] && n in m
  {
  }

  lemma EmptyRanges(m: Flat, lo: nat)
    requires FlatDomain(m) && lo < PAGES
    ensures Offered(m, m, lo, lo) && MappedRange(m, m, lo, lo, true) && MappedRange(m, m, lo, lo, false)
    ensures AccessRange(m, m, lo, lo, READ_ONLY) && AccessRange(m, m, lo, lo, READ_WRITE)
  {
  }

  /** map_and_clear */
  method MapAndClear(c: PageDir, mem: Memory, r: Section, zero: bool, ghost s: Snapshot, ghost need: set<nat>, ghost img: Image, tables: nat -> bool) returns (ok: bool)
    requires Owns(c, tables) && mem.Valid() && mem !in c.Repr && Built(s, Now(c, mem), need, img) && First(r) < PAGES
    requires zero || Needs(need, First(r), End(r))
    modifies c.Repr, mem
    ensures Owns(c, tables) && mem.Valid() && fresh(c.Repr - old(c.Repr)) && Built(s, Now(c, mem), need, img)
    ensures ok ==> MappedRange(old(c.Space()), c.Space(), First(r), End(r), zero)
    ensures !ok ==> Short(s, need) || !Mappable(old(c.Space()), First(r), End(r))
  {
    hide Building, Shows, Short, CanMap, MappedRange, PageOf, First, End, Truncated, Tabled, PageDir.Tables, PageDir.Space, PageDir.Valid, Memory.Valid;
    ghost var m := c.Space();
    var n := First(r);
    ok := true;
    EmptyRanges(m, First(r));
    while ok && n < End(r)
      invariant Owns(c, tables) && mem.Valid() && fresh(c.Repr - old(c.Repr)) && mem !in c.Repr && Built(s, Now(c, mem), need, img)
      invariant First(r) <= n <= End(r)
      invariant ok ==> n <= PAGES && MappedRange(m, c.Space(), First(r), n, zero)
      invariant !ok ==> Short(s, need) || !Mappable(m, First(r), End(r))
    {
      ok := MapPage(c, mem, n, zero, s, need, img, m, First(r), tables);
      n := n + 1;
    }
  }

  /** The body of map_and_clear's loop. */
  method MapPage(c: PageDir, mem: Memory, n: nat, zero: bool, ghost s: Snapshot, ghost need: set<nat>, ghost img: Image, ghost m: Flat, ghost lo: nat, tables: nat -> bool)
    returns (ok: bool)
    requires Owns(c, tables) && mem.Valid() && mem !in c.Repr && Built(s, Now(c, mem), need, img) && n <= PAGES && MappedRange(m, c.Space(), lo, n, zero)
    requires zero || (UserPage(n) ==> n in need)
    modifies c.Repr, mem
    ensures Owns(c, tables) && mem.Valid() && fresh(c.Repr - old(c.Repr)) && Built(s, Now(c, mem), need, img)
    ensures ok ==> n < PAGES && MappedRange(m, c.Space(), lo, n + 1, zero)
    ensures !ok ==> Short(s, need) || !CanMap(m, n)
  {
    hide Building, Shows, Short, MappedRange, PageOf, Truncated, TableOf, Grown, Refused, Tabled, PageDir.Tables, PageDir.Space, PageDir.Valid, PageDir.HasTable, Memory.Valid;
    TruncatedPage(n);
    ghost var before := c.Tables();
    SpaceEntry(c, PageOf(Truncated(n)));
    NextUntouched(m, c.Space(), lo, n, zero);
    var rc, info := c.CheckUserPage(Truncated(n));
    if rc != 0 {
      return false;
    }
    if info == ZeroFrameMapped || info == NewFrameMapped {
      MapPresent(m, c.Space(), lo, n, zero);
      return true;
    }
    var rc2, availability := c.GetAvailability(Truncated(n));
    if availability != PAGE_AVAILABLE {
      return false;
    }
    if zero {
      ghost var t := c.Space();
      TabledPage(t, before, tables, n);
      MapZeroNext(s, need, img, m, Now(c, mem), lo, n);
      var rc3 := c.MapZeroFrame(Truncated(n), tables(TableOf(n)));
      ok := rc3 == 0;
      TabledNext(t, before, c.Tables(), tables, n, Present(ZERO_FRAME, READ_ONLY));
    } else {
      ok := MapNewPage(c, mem, n, s, need, img, m, lo, tables);
    }
  }

  method MapNewPage(c: PageDir, mem: Memory, n: nat, ghost s: Snapshot, ghost need: set<nat>, ghost img: Image, ghost m: Flat, ghost lo: nat, tables: nat -> bool)
    returns (ok: bool)
    requires Owns(c, tables) && mem.Valid() && mem !in c.Repr && Built(s, Now(c, mem), need, img) && UserPage(n) && MappedRange(m, c.Space(), lo, n, false)
    requires c.Space()[n] == Absent(PAGE_AVAILABLE) && n in need
    modifies c.Repr, mem
    ensures Owns(c, tables) && mem.Valid() && fresh(c.Repr - old(c.Repr)) && Built(s, Now(c, mem), need, img)
    ensures ok ==> MappedRange(m, c.Space(), lo, n + 1, false)
    ensures !ok ==> Short(s, need)
  {
    hide Building, Shows, Short, MappedRange, PageOf, Truncated, TableOf, Grown, Refused, Tabled, PageDir.Tables, PageDir.Space, PageDir.Valid, PageDir.HasTable, Memory.Valid;
    TruncatedPage(n);
    ghost var t, before, pool := c.Space(), c.Tables(), mem.allocList;
    TabledPage(t, before, tables, n);
    EmptyIsShort(s, need, Now(c, mem), n);
    if mem.allocList != [] { MapNewNext(s, need, img, m, Now(c, mem), lo, n); }
    var rc := c.MapNewFrame(mem, Truncated(n), tables(TableOf(n)));
    ok := rc == 0;
    TabledSame(t, before, c.Tables(), tables, n);
    if ok {
      TabledNext(t, before, c.Tables(), tables, n, Present(pool[0], READ_WRITE));
      SpaceEntry(c, n);
      ClearPage(c, mem, Truncated(n));
    }
  }

  /** change_access */
  method ChangeAccess(c: PageDir, mem: Memory, r: Section, access: int, ghost s: Snapshot, ghost need: set<nat>, ghost img: Image, ghost tables: nat -> bool) returns (ok: bool)
    requires Owns(c, tables) && mem.Valid() && mem !in c.Repr && Built(s, Now(c, mem), need, img) && First(r) < PAGES
    requires AllPrivate(c.Space(), First(r), End(r)) && (access == READ_ONLY || access == READ_WRITE)
    modifies c.Repr
    ensures Owns(c, tables) && fresh(c.Repr - old(c.Repr)) && Built(s, Now(c, mem), need, img)
    ensures ok && AccessRange(old(c.Space()), c.Space(), First(r), End(r), access)
  {
    hide Building, Shows, AccessRange, AllPrivate, PageOf, First, End, Truncated, Tabled, PageDir.Tables, PageDir.Space, PageDir.Valid, Memory.Valid;
    ghost var m := c.Space();
    var n := First(r);
    ok := true;
    EmptyRanges(m, First(r));
    while ok && n < End(r)
      invariant Owns(c, tables) && fresh(c.Repr - old(c.Repr)) && mem !in c.Repr && Built(s, Now(c, mem), need, img)
      invariant ok && First(r) <= n <= End(r)
      invariant AccessRange(m, c.Space(), First(r), n, access)
    {
      StillPrivate(m, c.Space(), First(r), n, End(r), access);
      ok := AccessPage(c, mem, n, access, s, need, img, m, First(r), tables);
      n := n + 1;
    }
  }

  lemma StillPrivate(m: Flat, m': Flat, lo: nat, n: nat, hi: nat, rw: int)
    requires AllPrivate(m, lo, hi) && AccessRange(m, m', lo, n, rw) && n < hi
    ensures UserPage(n) && Private(m'[n])
  {
  }

  method AccessPage(c: PageDir, mem: Memory, n: nat, access: int, ghost s: Snapshot, ghost need: set<nat>, ghost img: Image, ghost m: Flat, ghost lo: nat, ghost tables: nat -> bool) returns (ok: bool)
    requires Owns(c, tables) && mem !in c.Repr && Built(s, Now(c, mem), need, img) && AccessRange(m, c.Space(), lo, n, access)
    requires UserPage(n) && Private(c.Space()[n]) && (access == READ_ONLY || access == READ_WRITE)
    modifies c.Repr
    ensures Owns(c, tables) && fresh(c.Repr - old(c.Repr)) && Built(s, Now(c, mem), need, img)
    ensures ok && AccessRange(m, c.Space(), lo, n + 1, access)
  {
    hide Building, Shows, AccessRange, PageOf, Truncated, Tabled, PageDir.Tables, PageDir.Space, PageDir.Valid;
    TruncatedPage(n);
    ghost var t, before := c.Space(), c.Tables();
    AccessNext(s, need, img, m, Now(c, mem), lo, n, access);
    var rc := c.SetAccess(Truncated(n), access);
    ok := rc == 0;
    TabledNext(t, before, before, tables, n, Present(t[n].frame, access));
  }

  /** A store by the kernel to a page that has its own frame, whatever its access. */
  method StoreByte(c: PageDir, mem: Memory, a: nat, b: bv8, ghost s: Snapshot, ghost need: set<nat>, ghost img: Image, ghost tables: nat -> bool)
    requires Owns(c, tables) && mem.Valid() && mem !in c.Repr && Built(s, Now(c, mem), need, img)
    requires UserPage(PageOf(a)) && Private(c.Space()[PageOf(a)])
    modifies mem`ram
    ensures mem.Valid() && Owns(c, tables) && c.Space() == old(c.Space()) && Built(s, Now(c, mem), need, Put(img, a, b))
  {
    hide Building, Shows, PageOf, Put, Tabled, PageDir.Tables, PageDir.Space, PageDir.Valid, Memory.Valid;
    SpaceEntry(c, PageOf(a));
    WriteNext(s, need, img, Now(c, mem), a, b);
    var f := c.Entry(PageOf(a)).frame;
    StorePage(c, mem, PageOf(a), mem.At(f)[a % PAGE_SIZE := b]);
  }

  /** memmove, and the loops of push_val. */
  method WriteBytes(c: PageDir, mem: Memory, low: nat, data: seq<bv8>, ghost s: Snapshot, ghost need: set<nat>, ghost img: Image, ghost tables: nat -> bool)
    returns (ghost img': Image)
    requires Owns(c, tables) && mem.Valid() && mem !in c.Repr && Built(s, Now(c, mem), need, img) && PrivateBytes(c.Space(), low, |data|)
    modifies mem`ram
    ensures mem.Valid() && Owns(c, tables) && c.Space() == old(c.Space()) && Built(s, Now(c, mem), need, img') && Written(img, img', low, data)
  {
    hide Building, Shows, PageOf, Put, Written, PrivateBytes, Tabled, PageDir.Tables, PageDir.Space, PageDir.Valid, Memory.Valid;
    var i := 0;
    img' := img;
    NothingWritten(img, low, data);
    while i < |data|
      invariant 0 <= i <= |data| && mem.Valid() && Owns(c, tables) && c.Space() == old(c.Space())
      invariant Built(s, Now(c, mem), need, img') && Written(img, img', low, data[..i])
    {
      PrivateByte(c.Space(), low, |data|, i);
      StoreByte(c, mem, low + i, data[i], s, need, img', tables);
      PutNext(img, img', low, data, i);
      img' := Put(img', low + i, data[i]);
      i := i + 1;
    }
    assert data[..i] == data;
  }

  lemma NothingWritten(img: Image, low: int, data: seq<bv8>)
    ensures Written(img, img, low, data[..0])
  {
  }

  /** Every byte of a range lies on a page with a frame of its own. */
  ghost predicate PrivateBytes(m: Flat, low: nat, size: nat) {
    forall a: nat :: low <= a < low + size ==> UserPage(PageOf(a)) && PageOf(a) in m && Private(m[PageOf(a)])
  }

  lemma PrivateByte(m: Flat, low: nat, size: nat, i: nat)
    requires PrivateBytes(m, low, size) && i < size
    ensures UserPage(PageOf(low + i)) && PageOf(low + i) in m && Private(m[PageOf(low + i)])
  {
  }

  /** A part of a range of such pages. */
  lemma RangeBytes(m: Flat, r: Section, low: nat, size: nat)
    requires AllPrivate(m, First(r), End(r)) && r.addr <= low && low + size <= r.addr + r.size
    ensures PrivateBytes(m, low, size)
  {
    hide Private, UserPage, End;
    forall a: nat | low <= a < low + size
      ensures UserPage(PageOf(a)) && PageOf(a) in m && Private(m[PageOf(a)])
    {
      assert In(PageOf(a), r) by { PageIn(r, a); }
      PrivateAt(m, First(r), End(r), PageOf(a));
    }
  }

  lemma PageIn(r: Section, a: nat)
    requires r.addr <= a < r.addr + r.size
    ensures In(PageOf(a), r)
  {
  }

  lemma PrivateAt(m: Flat, lo: nat, hi: nat, n: nat)
    requires AllPrivate(m, lo, hi) && lo <= n < hi
    ensures UserPage(n) && n in m && Private(m[n])
  {
  }

  // -------------------------------------------------------------------- the stack

  /** The user stack is offered; its pages from `p` on have writable frames of their own. */
  ghost predicate Pushed(m: Flat, p: nat) {
    && FlatDomain(m) && STACK_PAGE <= p <= PAGES
    && forall pn: nat :: UserPage(pn) ==>
         if pn >= p then Private(m[pn]) && m[pn].rw == READ_WRITE
         else m[pn] == Absent(if pn >= STACK_PAGE then PAGE_AVAILABLE else PAGE_UNAVAILABLE)
  }

  /** The address a 32-bit stack pointer stands for: before the first push it has wrapped
      to zero. */
  function Top(esp: nat): nat { if esp == 0 then ADDRESS_END else esp }

  /** The stack pointer after pushing `size` bytes. */
  function Below(esp: nat, size: nat): nat { (esp - size) % ADDRESS_END / 4 * 4 }

  /** The bytes between two stack pointers. */
  function Between(low: nat, esp: nat): Section { Section(low, (esp - low) % ADDRESS_END) }

  predicate StackPointer(esp: nat) { esp < ADDRESS_END && Top(esp) >= STACK_LOW }

  lemma PushArithmetic(esp: nat, size: nat)
    requires StackPointer(esp) && 0 < size <= USER_PAGE_START
    ensures var r := Between(Below(esp, size), esp);
            && Below(esp, size) == (Top(esp) - size) / 4 * 4
            && 0 < Below(esp, size) < Top(esp) && First(r) == Below(esp, size) / PAGE_SIZE < PAGES
            && Top(esp) / PAGE_SIZE <= End(r) <= PAGES && First(r) < End(r)
  {
    var low, r := Below(esp, size), Between(Below(esp, size), esp);
    assert low == (Top(esp) - size) / 4 * 4;
    assert r.size == Top(esp) - low;
    assert End(r) == (Top(esp) - 1) / PAGE_SIZE + 1;
  }

  lemma PushNext(m: Flat, m': Flat, p: nat, lo: nat, hi: nat)
    requires Pushed(m, p) && MappedRange(m, m', lo, hi, false) && p <= hi && lo < hi
    ensures STACK_PAGE <= lo && AllPrivate(m', lo, hi) && Pushed(m', if lo < p then lo else p)
  {
    assert MappedPage(m[lo], m'[lo], false);
  }

  /** A push only fails for want of memory or below the stack. */
  lemma PushFails(m: Flat, p: nat, lo: nat, hi: nat)
    requires Pushed(m, p) && !Mappable(m, lo, hi) && hi <= PAGES
    ensures lo < STACK_PAGE
  {
  }

  lemma StackOffered(m: Flat)
    requires FlatDomain(m) && Offered(Fresh(), m, STACK_PAGE, PAGES)
    ensures Pushed(m, PAGES)
  {
  }

  lemma StackOfferable()
    ensures Offerable(Fresh(), STACK_PAGE, PAGES)
  {
  }

  /** push_val. The values pushed fit in the kernel's heap, which ends below user memory.
      Bytes left over above the value are written with zeros, unless the old pointer has
      wrapped; they hold zeros anyway. */
  method PushVal(c: PageDir, mem: Memory, esp: nat, val: seq<bv8>, ghost s: Snapshot, ghost need: set<nat>, ghost img: Image, tables: nat -> bool)
    returns (ok: bool, esp': nat, ghost img': Image)
    requires Owns(c, tables) && mem.Valid() && mem !in c.Repr && Built(s, Now(c, mem), need, img) && BlankBelow(img, Top(esp))
    requires StackPointer(esp) && Pushed(c.Space(), Top(esp) / PAGE_SIZE) && |val| <= USER_PAGE_START
    requires val != [] ==> Needs(need, Below(esp, |val|) / PAGE_SIZE, PAGES)
    modifies c.Repr, mem
    ensures Owns(c, tables) && mem.Valid() && fresh(c.Repr - old(c.Repr)) && Building(s, Now(c, mem), need)
    ensures ok ==> StackPointer(esp') && Pushed(c.Space(), Top(esp') / PAGE_SIZE) && Built(s, Now(c, mem), need, img')
    ensures ok ==> if val == [] then esp' == esp else esp' == (Top(esp) - |val|) / 4 * 4 > 0
    ensures ok ==> Written(img, img', esp', val)
    ensures !ok ==> Short(s, need) || (Top(esp) - |val|) / 4 * 4 < STACK_LOW
  {
    hide Building, Shows, Short, Needs, Mappable, Pushed, MappedRange, AllPrivate, BlankBelow, Written, PrivateBytes, First, End, Below, Between, Tabled, PageDir.Tables, PageDir.Space, PageDir.Valid, Memory.Valid;
    img' := img;
    if val == [] {
      NothingWritten(img, esp, val);
      return true, esp, img;
    }
    PushArithmetic(esp, |val|);
    PushedPointer(esp, |val|);
    esp' := Below(esp, |val|);
    var r := Between(esp', esp);
    ghost var m := c.Space();
    NeedsLess(need, First(r), End(r));
    ok := MapAndClear(c, mem, r, false, s, need, img, tables);
    if ok {
      PushNext(m, c.Space(), Top(esp) / PAGE_SIZE, First(r), End(r));
      img' := FillPushed(c, mem, esp, esp', val, s, need, img, tables);
    } else if !Mappable(m, First(r), End(r)) {
      PushFails(m, Top(esp) / PAGE_SIZE, First(r), End(r));
    }
  }

  /** The two loops of push_val: the value, and zeros up to the old pointer. */
  method FillPushed(c: PageDir, mem: Memory, esp: nat, low: nat, val: seq<bv8>, ghost s: Snapshot, ghost need: set<nat>, ghost img: Image, ghost tables: nat -> bool)
    returns (ghost img': Image)
    requires Owns(c, tables) && mem.Valid() && mem !in c.Repr && Built(s, Now(c, mem), need, img) && BlankBelow(img, Top(esp))
    requires StackPointer(esp) && 0 < low < ADDRESS_END && low + |val| <= Top(esp)
    requires AllPrivate(c.Space(), First(Between(low, esp)), End(Between(low, esp)))
    modifies mem`ram
    ensures mem.Valid() && Owns(c, tables) && c.Space() == old(c.Space()) && Built(s, Now(c, mem), need, img') && Written(img, img', low, val)
  {
    hide Building, Shows, AllPrivate, BlankBelow, Written, PrivateBytes, First, End, Between, Tabled, PageDir.Tables, PageDir.Space, PageDir.Valid, Memory.Valid;
    PushedBytes(c.Space(), low, esp, |val|);
    img' := WriteBytes(c, mem, low, val, s, need, img, tables);
    if esp != 0 {
      ghost var img1 := img';
      img' := WriteBytes(c, mem, low + |val|, seq(esp - low - |val|, _ => 0), s, need, img1, tables);
      PaddingIsBlank(img, img1, img', low, val, esp - low - |val|, esp);
    }
  }

  lemma PushedBytes(m: Flat, low: nat, esp: nat, size: nat)
    requires StackPointer(esp) && 0 < low < ADDRESS_END && low + size <= Top(esp)
    requires AllPrivate(m, First(Between(low, esp)), End(Between(low, esp)))
    ensures PrivateBytes(m, low, size) && PrivateBytes(m, low + size, Top(esp) - low - size)
  {
    hide AllPrivate, PrivateBytes, First, End;
    var r := Between(low, esp);
    assert r.size == Top(esp) - low;
    RangeBytes(m, r, low, size);
    RangeBytes(m, r, low + size, Top(esp) - low - size);
  }

  lemma NeedsLess(need: set<nat>, lo: nat, hi: nat)
    requires Needs(need, lo, PAGES)
    ensures Needs(need, lo, hi)
  {
  }

  lemma PushedPointer(esp: nat, size: nat)
    requires StackPointer(esp) && 0 < size <= USER_PAGE_START
    ensures 0 < Below(esp, size) <= Top(esp) - size
    ensures Below(esp, size) / PAGE_SIZE <= Top(esp) / PAGE_SIZE
    ensures STACK_PAGE <= Below(esp, size) / PAGE_SIZE <==> STACK_LOW <= Below(esp, size)
    ensures STACK_LOW <= Below(esp, size) ==> StackPointer(Below(esp, size))
  {
    assert Below(esp, size) == (Top(esp) - size) / 4 * 4;
  }

  /** The argument strings with their ends, and their number, fit the kernel's heap. */
  predicate FitsKernelHeap(args: seq<seq<bv8>>) {
    4 * |args| <= USER_PAGE_START && forall i :: 0 <= i < |args| ==> 0 < |args[i]| <= USER_PAGE_START
  }

  /** Whether the stack has room for the arguments. */
  predicate ArgsFit(args: seq<seq<bv8>>) { FinalStack(args) >= STACK_LOW }

  /** Everything load_executable pushes. */
  method PushAll(c: PageDir, mem: Memory, args: seq<seq<bv8>>, ghost s: Snapshot, ghost need: set<nat>, tables: nat -> bool)
    returns (ok: bool, esp: nat, k: Stack, ghost img: Image)
    requires Owns(c, tables) && mem.Valid() && mem !in c.Repr && Built(s, Now(c, mem), need, Blank())
    requires Pushed(c.Space(), PAGES) && FitsKernelHeap(args) && NeedsStack(need, FinalStack(args))
    modifies c.Repr, mem
    ensures Owns(c, tables) && mem.Valid() && fresh(c.Repr - old(c.Repr)) && Building(s, Now(c, mem), need)
    ensures ok ==> 0 < esp && StackPointer(esp) && Pushed(c.Space(), esp / PAGE_SIZE) && k.esp == esp == FinalStack(args)
    ensures ok ==> Built(s, Now(c, mem), need, img) && Started(img, args, k) && BlankBelow(img, esp)
    ensures !ok ==> Short(s, need) || !ArgsFit(args)
  {
    hide Building, Shows, Short, Pushed, NeedsStack, FitsKernelHeap, Placed, Worded, Started, BlankBelow, FinalStack, Tabled, PageDir.Tables, PageDir.Space, PageDir.Valid, Memory.Valid;
    k := Stack(0, 0, []);
    var strings, argv;
    ok, esp, strings, img := PushStrings(c, mem, args, s, need, tables);
    if !ok {
      return;
    }
    ok, esp, argv, img := PushVector(c, mem, esp, args, strings, s, need, img, tables);
    if !ok {
      return;
    }
    k := Stack(esp, argv, strings);
    ghost var ws: seq<int> := [];
    ok, esp, img := PushWord(c, mem, esp, STACK_LOW, args, k, ws, s, need, img, tables);
    ws := [STACK_LOW] + ws;
    if ok { ok, esp, img := PushWord(c, mem, esp, 0, args, k, ws, s, need, img, tables); }
    ws := [0] + ws;
    if ok { ok, esp, img := PushWord(c, mem, esp, argv, args, k, ws, s, need, img, tables); }
    ws := [argv] + ws;
    if ok { ok, esp, img := PushWord(c, mem, esp, |args|, args, k, ws, s, need, img, tables); }
    ws := [|args|] + ws;
    if ok { ok, esp, img := PushWord(c, mem, esp, 0, args, k, ws, s, need, img, tables); }
    ws := [0] + ws;
    assert ws == [0, |args|, argv, 0, STACK_LOW];
    if ok {
      k := k.(esp := esp);
      WordedBlank(img, args, strings, argv, esp, ws);
      WordedStarted(img, args, strings, argv, esp);
    }
  }

  method PushStrings(c: PageDir, mem: Memory, args: seq<seq<bv8>>, ghost s: Snapshot, ghost need: set<nat>, tables: nat -> bool)
    returns (ok: bool, esp: nat, strings: seq<nat>, ghost img: Image)
    requires Owns(c, tables) && mem.Valid() && mem !in c.Repr && Built(s, Now(c, mem), need, Blank())
    requires Pushed(c.Space(), PAGES) && FitsKernelHeap(args) && NeedsStack(need, FinalStack(args))
    modifies c.Repr, mem
    ensures Owns(c, tables) && mem.Valid() && fresh(c.Repr - old(c.Repr)) && Building(s, Now(c, mem), need)
    ensures ok ==> StackPointer(esp) && Pushed(c.Space(), Top(esp) / PAGE_SIZE) && Top(esp) == StackAfter(args, |args|)
    ensures ok ==> Built(s, Now(c, mem), need, img) && Placed(img, args, strings) && |strings| == |args|
    ensures !ok ==> Short(s, need) || !ArgsFit(args)
  {
    hide Building, Shows, Short, Pushed, NeedsStack, Placed, Written, BlankBelow, FinalStack, Tabled, PageDir.Tables, PageDir.Space, PageDir.Valid, Memory.Valid;
    ok, esp, strings, img := true, 0, [], Blank();
    NonePlaced(args);
    var i := 0;
    while ok && i < |args|
      invariant Owns(c, tables) && mem.Valid() && fresh(c.Repr - old(c.Repr)) && mem !in c.Repr && Building(s, Now(c, mem), need)
      invariant 0 <= i <= |args| == |args|
      invariant ok ==> StackPointer(esp) && Pushed(c.Space(), Top(esp) / PAGE_SIZE) && Top(esp) == StackAfter(args, i)
      invariant ok ==> Built(s, Now(c, mem), need, img) && Placed(img, args, strings) && |strings| == i
      invariant !ok ==> Short(s, need) || !ArgsFit(args)
    {
      PlacedBlank(img, args, strings);
      StringRoom(esp, args, i, need);
      ghost var before := img;
      ok, esp, img := PushVal(c, mem, esp, args[i], s, need, before, tables);
      if ok {
        PlacedNext(before, img, args, strings, esp);
        strings := strings + [esp];
      }
      i := i + 1;
    }
  }

  method PushVector(c: PageDir, mem: Memory, esp: nat, args: seq<seq<bv8>>, strings: seq<nat>, ghost s: Snapshot, ghost need: set<nat>, ghost img: Image, tables: nat -> bool)
    returns (ok: bool, esp': nat, argv: nat, ghost img': Image)
    requires Owns(c, tables) && mem.Valid() && mem !in c.Repr && Built(s, Now(c, mem), need, img)
    requires StackPointer(esp) && Pushed(c.Space(), Top(esp) / PAGE_SIZE) && Top(esp) == StackAfter(args, |args|)
    requires Placed(img, args, strings) && |strings| == |args| && FitsKernelHeap(args) && NeedsStack(need, FinalStack(args))
    modifies c.Repr, mem
    ensures Owns(c, tables) && mem.Valid() && fresh(c.Repr - old(c.Repr)) && Building(s, Now(c, mem), need)
    ensures ok ==> StackPointer(esp') && Pushed(c.Space(), Top(esp') / PAGE_SIZE)
    ensures ok ==> Built(s, Now(c, mem), need, img') && Worded(img', args, strings, argv, Top(esp'), [])
    ensures !ok ==> Short(s, need) || !ArgsFit(args)
  {
    hide Building, Shows, Short, Pushed, NeedsStack, Placed, Worded, Written, BlankBelow, FinalStack, StackAfter, Vector, Tabled, PageDir.Tables, PageDir.Space, PageDir.Valid, Memory.Valid;
    if args == [] {
      StackTop(args);
      NoVector(img, args);
      return true, esp, 0, img;
    }
    PlacedBlank(img, args, strings);
    VectorRoom(esp, args, need);
    ok, esp', img' := PushVal(c, mem, esp, Vector(strings), s, need, img, tables);
    argv := esp';
    if ok { VectorPlaced(img, img', args, strings, argv); }
  }

  method PushWord(c: PageDir, mem: Memory, esp: nat, w: int, ghost args: seq<seq<bv8>>, ghost k: Stack, ghost ws: seq<int>,
    ghost s: Snapshot, ghost need: set<nat>, ghost img: Image, tables: nat -> bool)
    returns (ok: bool, esp': nat, ghost img': Image)
    requires Owns(c, tables) && mem.Valid() && mem !in c.Repr && Built(s, Now(c, mem), need, img)
    requires StackPointer(esp) && Pushed(c.Space(), Top(esp) / PAGE_SIZE) && |ws| < 5
    requires Worded(img, args, k.strings, k.argv, Top(esp), ws) && NeedsStack(need, FinalStack(args))
    modifies c.Repr, mem
    ensures Owns(c, tables) && mem.Valid() && fresh(c.Repr - old(c.Repr)) && Building(s, Now(c, mem), need)
    ensures ok ==> 0 < esp' && StackPointer(esp') && Pushed(c.Space(), Top(esp') / PAGE_SIZE)
    ensures ok ==> Built(s, Now(c, mem), need, img') && Worded(img', args, k.strings, k.argv, esp', [w] + ws)
    ensures !ok ==> Short(s, need) || !ArgsFit(args)
  {
    hide Building, Shows, Short, Pushed, NeedsStack, Worded, Written, BlankBelow, FinalStack, WordBytes, Tabled, PageDir.Tables, PageDir.Space, PageDir.Valid, Memory.Valid;
    WordedBlank(img, args, k.strings, k.argv, Top(esp), ws);
    WordRoom(esp, args, ws, need);
    ok, esp', img' := PushVal(c, mem, esp, WordBytes(w), s, need, img, tables);
    if ok { WordedNext(img, img', args, k.strings, k.argv, Top(esp), ws, w); }
  }

  /** A push that stays above the final stack pointer has the pages it needs. */
  lemma PushRoom(esp: nat, size: nat, need: set<nat>, final: int)
    requires StackPointer(esp) && 0 < size <= USER_PAGE_START && NeedsStack(need, final) && final <= (Top(esp) - size) / 4 * 4
    ensures Needs(need, Below(esp, size) / PAGE_SIZE, PAGES)
  {
    PushArithmetic(esp, size);
  }

  lemma StringRoom(esp: nat, args: seq<seq<bv8>>, i: nat, need: set<nat>)
    requires StackPointer(esp) && FitsKernelHeap(args) && i < |args| && Top(esp) == StackAfter(args, i) && NeedsStack(need, FinalStack(args))
    ensures (Top(esp) - |args[i]|) / 4 * 4 == StackAfter(args, i + 1) >= FinalStack(args)
    ensures Needs(need, Below(esp, |args[i]|) / PAGE_SIZE, PAGES)
  {
    hide NeedsStack, Needs, Below, Top;
    AfterDescends(args, i + 1, |args|);
    PushRoom(esp, |args[i]|, need, FinalStack(args));
  }

  lemma VectorRoom(esp: nat, args: seq<seq<bv8>>, need: set<nat>)
    requires StackPointer(esp) && FitsKernelHeap(args) && args != [] && Top(esp) == StackAfter(args, |args|) && NeedsStack(need, FinalStack(args))
    ensures (Top(esp) - 4 * |args|) / 4 * 4 == StackAfter(args, |args|) - 4 * |args| >= FinalStack(args)
    ensures Needs(need, Below(esp, 4 * |args|) / PAGE_SIZE, PAGES)
  {
    hide NeedsStack, Needs, Below, Top, StackAfter;
    AfterDescends(args, |args|, |args|);
    PushRoom(esp, 4 * |args|, need, FinalStack(args));
  }

  lemma WordRoom(esp: nat, args: seq<seq<bv8>>, ws: seq<int>, need: set<nat>)
    requires StackPointer(esp) && |ws| < 5 && Top(esp) + 4 * |ws| == FinalStack(args) + 20 && NeedsStack(need, FinalStack(args))
    ensures (Top(esp) - 4) / 4 * 4 == Top(esp) - 4 >= FinalStack(args)
    ensures Needs(need, Below(esp, 4) / PAGE_SIZE, PAGES)
  {
    hide NeedsStack, Needs, Below, Top, StackAfter;
    AfterDescends(args, |args|, |args|);
    assert FinalStack(args) % 4 == 0;
    PushRoom(esp, 4, need, FinalStack(args));
  }

  /** The pages a stack down to `low` lies in. */
  ghost predicate NeedsStack(need: set<nat>, low: int) { forall pn: nat :: UserPage(pn) && low < (pn + 1) * PAGE_SIZE ==> pn in need }

  // ------------------------------------------------------------------ the sections

  ghost predicate InAny(pn: nat, rs: seq<Section>) { exists i :: 0 <= i < |rs| && In(pn, rs[i]) }

  /** The space while it is laid out: the stack is mapped, with frames of its own from page
      `p` on, the loaded sections have frames of their own, the other offered ones are
      available, and nothing else is. */
  ghost predicate Layout(m: Flat, p: int, offered: seq<Section>, loaded: seq<Section>) {
    && FlatDomain(m)
    && forall pn: nat :: UserPage(pn) ==>
         if pn >= STACK_PAGE then StackEntry(m[pn], pn >= p)
         else if InAny(pn, loaded) then Private(m[pn])
         else m[pn] == Absent(if InAny(pn, offered) then PAGE_AVAILABLE else PAGE_UNAVAILABLE)
  }

  predicate StackEntry(e: Pte, pushed: bool) {
    if pushed then Private(e) && e.rw == READ_WRITE else e == Present(ZERO_FRAME, READ_ONLY)
  }

  /** The start and size of a section, as 32-bit numbers. */
  predicate Bounded(r: Section) { r.addr < ADDRESS_END && r.size < ADDRESS_END }

  /** Where exec takes a section: in user memory below the stack, or empty. */
  predicate SectionFits(r: Section) { First(r) == End(r) || (FIRST_USER_PAGE <= First(r) && End(r) <= STACK_PAGE) }

  /** The same in bytes: sections that overlap the stack, reach past the top of the address
      space or begin below user memory are refused, and with them the whole exec. */
  lemma SectionFitsBytes(r: Section)
    ensures SectionFits(r) <==> r.size == 0 || (USER_PAGE_START <= r.addr && r.addr + r.size <= STACK_LOW)
  {
  }

  lemma FittingRange(r: Section)
    requires Bounded(r)
    ensures First(r) < PAGES && (SectionFits(r) ==> UserRange(First(r), End(r)))
  {
  }

  lemma InAnyNext(pn: nat, rs: seq<Section>, r: Section)
    ensures InAny(pn, rs + [r]) <==> InAny(pn, rs) || In(pn, r)
  {
    if i :| 0 <= i < |rs| && In(pn, rs[i]) { assert (rs + [r])[i] == rs[i]; }
    if In(pn, r) { assert (rs + [r])[|rs|] == r; }
  }

  /** The rest of the stack is mapped to the zero frame. */
  lemma StackReady(m: Flat, m': Flat, esp: int)
    requires 0 < esp && StackPointer(esp) && Pushed(m, esp / PAGE_SIZE)
    requires MappedRange(m, m', First(Between(STACK_LOW, esp)), End(Between(STACK_LOW, esp)), true)
    ensures Layout(m', esp / PAGE_SIZE, [], [])
  {
    var r := Between(STACK_LOW, esp);
    assert r.size == esp - STACK_LOW && First(r) == STACK_PAGE;
    assert End(r) >= esp / PAGE_SIZE;
  }

  lemma StackMappable(m: Flat, esp: int)
    requires 0 < esp && StackPointer(esp) && Pushed(m, esp / PAGE_SIZE)
    ensures First(Between(STACK_LOW, esp)) < PAGES
    ensures Mappable(m, First(Between(STACK_LOW, esp)), End(Between(STACK_LOW, esp)))
  {
    var r := Between(STACK_LOW, esp);
    assert r.size == esp - STACK_LOW && First(r) == STACK_PAGE && End(r) <= PAGES;
  }

  /** With the stack mapped, a section is taken exactly where it fits. */
  lemma OfferSection(m: Flat, m': Flat, p: int, offered: seq<Section>, r: Section)
    requires Layout(m, p, offered, []) && Offered(m, m', First(r), End(r))
    ensures Layout(m', p, offered + [r], []) && SectionFits(r)
  {
    assert First(r) < End(r) ==> m[End(r) - 1].Absent?;
    forall pn: nat
      ensures InAny(pn, offered + [r]) <==> InAny(pn, offered) || In(pn, r)
    {
      InAnyNext(pn, offered, r);
    }
  }

  lemma SectionOfferable(m: Flat, p: int, offered: seq<Section>, r: Section)
    requires Layout(m, p, offered, [])
    ensures SectionFits(r) ==> Offerable(m, First(r), End(r))
  {
  }

  lemma LoadSection(m: Flat, m': Flat, p: int, offered: seq<Section>, loaded: seq<Section>, r: Section)
    requires Layout(m, p, offered, loaded) && SectionFits(r) && MappedRange(m, m', First(r), End(r), false)
    ensures Layout(m', p, offered, loaded + [r]) && AllPrivate(m', First(r), End(r))
  {
    forall pn: nat
      ensures InAny(pn, loaded + [r]) <==> InAny(pn, loaded) || In(pn, r)
    {
      InAnyNext(pn, loaded, r);
    }
  }

  lemma SectionMappable(m: Flat, p: int, offered: seq<Section>, loaded: seq<Section>, r: Section)
    requires Layout(m, p, offered, loaded) && SectionFits(r) && r in offered
    ensures Mappable(m, First(r), End(r))
  {
    assert forall pn :: In(pn, r) ==> InAny(pn, offered);
  }

  lemma ProtectSection(m: Flat, m': Flat, p: int, offered: seq<Section>, loaded: seq<Section>, r: Section, rw: int)
    requires Layout(m, p, offered, loaded) && AccessRange(m, m', First(r), End(r), rw) && SectionFits(r)
    ensures Layout(m', p, offered, loaded)
  {
  }

  lemma LoadedPrivate(m: Flat, p: int, offered: seq<Section>, loaded: seq<Section>, i: nat)
    requires Layout(m, p, offered, loaded) && i < |loaded| && Bounded(loaded[i]) && SectionFits(loaded[i])
    ensures AllPrivate(m, First(loaded[i]), End(loaded[i]))
  {
    FittingRange(loaded[i]);
    assert forall pn :: In(pn, loaded[i]) ==> InAny(pn, loaded);
  }

  /** What a successful exec leaves: the arguments on the stack, from page `p` on, and the
      rest of the stack zeros; writable data, read-only text and constants, the
      zero-initialized data, and nothing else to touch. */
  ghost predicate Loaded(m: Flat, p: int, elf: Elf) {
    && FlatDomain(m)
    && forall pn: nat :: UserPage(pn) ==>
         if pn >= STACK_PAGE then StackEntry(m[pn], pn >= p)
         else if In(pn, elf.dat) then Private(m[pn]) && m[pn].rw == READ_WRITE
         else if In(pn, elf.txt) || In(pn, elf.rodat) then Private(m[pn]) && m[pn].rw == READ_ONLY
         else if In(pn, elf.bss) then m[pn] == Present(ZERO_FRAME, READ_ONLY)
         else m[pn] == Absent(PAGE_UNAVAILABLE)
  }

  function AllSections(elf: Elf): seq<Section> { [elf.txt, elf.rodat, elf.dat, elf.bss] }

  function FileSections(elf: Elf): seq<Section> { [elf.txt, elf.rodat, elf.dat] }

  /** The three changes of access, in the order they are made. */
  ghost predicate Protected(m: Flat, elf: Elf) {
    forall pn: nat :: UserPage(pn) && pn < STACK_PAGE && pn in m ==>
      (In(pn, elf.dat) ==> m[pn].Present? && m[pn].rw == READ_WRITE)
      && (!In(pn, elf.dat) && (In(pn, elf.txt) || In(pn, elf.rodat)) ==> m[pn].Present? && m[pn].rw == READ_ONLY)
  }

  lemma ProtectedInOrder(m0: Flat, m1: Flat, m2: Flat, m3: Flat, elf: Elf)
    requires AccessRange(m0, m1, First(elf.txt), End(elf.txt), READ_ONLY)
    requires AccessRange(m1, m2, First(elf.rodat), End(elf.rodat), READ_ONLY)
    requires AccessRange(m2, m3, First(elf.dat), End(elf.dat), READ_WRITE)
    ensures Protected(m3, elf)
  {
  }

  lemma BssLoaded(m: Flat, m': Flat, p: int, elf: Elf)
    requires Layout(m, p, AllSections(elf), FileSections(elf)) && Protected(m, elf) && SectionFits(elf.bss)
    requires MappedRange(m, m', First(elf.bss), End(elf.bss), true)
    ensures Loaded(m', p, elf)
  {
    forall pn: nat
      ensures InAny(pn, AllSections(elf)) <==> In(pn, elf.txt) || In(pn, elf.rodat) || In(pn, elf.dat) || In(pn, elf.bss)
      ensures InAny(pn, FileSections(elf)) <==> In(pn, elf.txt) || In(pn, elf.rodat) || In(pn, elf.dat)
    {
      InAnySections(pn, elf);
    }
  }

  lemma InAnySections(pn: nat, elf: Elf)
    ensures InAny(pn, AllSections(elf)) <==> In(pn, elf.txt) || In(pn, elf.rodat) || In(pn, elf.dat) || In(pn, elf.bss)
    ensures InAny(pn, FileSections(elf)) <==> In(pn, elf.txt) || In(pn, elf.rodat) || In(pn, elf.dat)
  {
    assert [elf.txt, elf.rodat, elf.dat] == [elf.txt, elf.rodat] + [elf.dat];
    assert [elf.txt, elf.rodat, elf.dat, elf.bss] == [elf.txt, elf.rodat, elf.dat] + [elf.bss];
    InAnyNext(pn, [], elf.txt);
    assert [] + [elf.txt] == [elf.txt];
    InAnyNext(pn, [elf.txt], elf.rodat);
    assert [elf.txt] + [elf.rodat] == [elf.txt, elf.rodat];
    InAnyNext(pn, [elf.txt, elf.rodat], elf.dat);
    InAnyNext(pn, [elf.txt, elf.rodat, elf.dat], elf.bss);
  }

  /** The pages that need a frame: those of the arguments, and of the sections in the file. */
  ghost function Need(elf: Elf, args: seq<seq<bv8>>): set<nat> {
    set pn: nat | pn < PAGES && UserPage(pn) && (FinalStack(args) < (pn + 1) * PAGE_SIZE || In(pn, elf.txt) || In(pn, elf.rodat) || In(pn, elf.dat))
  }

  lemma NeedCovers(elf: Elf, args: seq<seq<bv8>>)
    ensures NeedsStack(Need(elf, args), FinalStack(args))
    ensures forall r :: r in FileSections(elf) ==> Needs(Need(elf, args), First(r), End(r))
  {
  }

  /** The loaded program owns a frame for exactly the pages that need one. */
  lemma LoadedOwns(m: Flat, elf: Elf, args: seq<seq<bv8>>)
    requires ArgsFit(args) && ElfFits(elf) && Loaded(m, FinalStack(args) / PAGE_SIZE, elf)
    ensures PrivatePages(m) == Need(elf, args)
  {
    hide ArgsFit, FinalStack;
    assert STACK_PAGE <= FinalStack(args) / PAGE_SIZE by { StackLimit(args); }
    forall pn: nat
      ensures pn in PrivatePages(m) <==> pn in Need(elf, args)
    {
      assert UserPage(pn) ==> (FinalStack(args) < (pn + 1) * PAGE_SIZE <==> pn >= FinalStack(args) / PAGE_SIZE);
    }
  }

  lemma StackLimit(args: seq<seq<bv8>>)
    requires ArgsFit(args)
    ensures STACK_PAGE <= FinalStack(args) / PAGE_SIZE
  {
  }

  // ---------------------------------------------------------------- load_executable

  predicate ElfBounded(elf: Elf) { Bounded(elf.txt) && Bounded(elf.rodat) && Bounded(elf.dat) && Bounded(elf.bss) }

  predicate ElfFits(elf: Elf) { SectionFits(elf.txt) && SectionFits(elf.rodat) && SectionFits(elf.dat) && SectionFits(elf.bss) }

  /** The stack part: offer it, push the arguments, map the rest to the zero frame. */
  method BuildStack(c: PageDir, mem: Memory, args: seq<seq<bv8>>, ghost s: Snapshot, ghost need: set<nat>, tables: nat -> bool)
    returns (ok: bool, esp: nat, k: Stack, ghost img: Image)
    requires Owns(c, tables) && mem.Valid() && mem !in c.Repr && Built(s, Now(c, mem), need, Blank())
    requires c.Space() == Fresh() && FitsKernelHeap(args) && NeedsStack(need, FinalStack(args))
    modifies c.Repr, mem
    ensures Owns(c, tables) && mem.Valid() && fresh(c.Repr - old(c.Repr)) && Building(s, Now(c, mem), need)
    ensures ok ==> ArgsFit(args) && esp == k.esp == FinalStack(args) && Layout(c.Space(), esp / PAGE_SIZE, [], [])
    ensures ok ==> Built(s, Now(c, mem), need, img) && Started(img, args, k) && BlankBelow(img, esp)
    ensures !ok ==> TableRefused(KernelTables(), tables, STACK_PAGE, PAGES) || Short(s, need) || !ArgsFit(args)
  {
    hide Building, Shows, Short, TableRefused, NeedsStack, Offered, MappedRange, Offerable, Mappable, Pushed, Layout, Started, BlankBelow, FinalStack, Fresh, FitsKernelHeap, First, End, Tabled, PageDir.Tables, PageDir.Space, PageDir.Valid, Memory.Valid;
    esp, k, img := 0, Stack(0, 0, []), Blank();
    StackPages();
    StackOfferable();
    ok := ChangeAvailability(c, mem, Section(STACK_LOW, ADDRESS_END - STACK_LOW), s, need, img, tables);
    if !ok {
      return;
    }
    StackOffered(c.Space());
    ok, esp, k, img := PushAll(c, mem, args, s, need, tables);
    if !ok {
      return;
    }
    ghost var m := c.Space();
    StackMappable(m, esp);
    ok := MapAndClear(c, mem, Between(STACK_LOW, esp), true, s, need, img, tables);
    if ok { StackReady(m, c.Space(), esp); }
  }

  lemma StackPages()
    ensures First(Section(STACK_LOW, ADDRESS_END - STACK_LOW)) == STACK_PAGE
    ensures End(Section(STACK_LOW, ADDRESS_END - STACK_LOW)) == PAGES
  {
  }

  /** Offer the pages of one section. */
  method OfferOne(c: PageDir, mem: Memory, r: Section, ghost p: int, ghost offered: seq<Section>, ghost s: Snapshot, ghost need: set<nat>, ghost img: Image, tables: nat -> bool)
    returns (ok: bool)
    requires Owns(c, tables) && mem.Valid() && mem !in c.Repr && Built(s, Now(c, mem), need, img)
    requires Layout(c.Space(), p, offered, []) && Bounded(r)
    modifies c.Repr
    ensures Owns(c, tables) && fresh(c.Repr - old(c.Repr)) && Built(s, Now(c, mem), need, img)
    ensures ok ==> Layout(c.Space(), p, offered + [r], []) && SectionFits(r)
    ensures !ok ==> TableRefused(KernelTables(), tables, First(r), End(r)) || !SectionFits(r)
  {
    hide Building, Shows, Short, Layout, Offered, Offerable, First, End, Bounded, Tabled, PageDir.Tables, PageDir.Space, PageDir.Valid, Memory.Valid;
    FittingRange(r);
    ghost var m := c.Space();
    SectionOfferable(m, p, offered, r);
    ok := ChangeAvailability(c, mem, r, s, need, img, tables);
    if ok { OfferSection(m, c.Space(), p, offered, r); }
  }

  method OfferSections(c: PageDir, mem: Memory, elf: Elf, ghost p: int, ghost s: Snapshot, ghost need: set<nat>, ghost img: Image, tables: nat -> bool) returns (ok: bool)
    requires Owns(c, tables) && mem.Valid() && mem !in c.Repr && Built(s, Now(c, mem), need, img)
    requires Layout(c.Space(), p, [], []) && ElfBounded(elf)
    modifies c.Repr
    ensures Owns(c, tables) && fresh(c.Repr - old(c.Repr)) && Built(s, Now(c, mem), need, img)
    ensures ok ==> Layout(c.Space(), p, AllSections(elf), []) && ElfFits(elf)
    ensures !ok ==> SectionRefused(elf, tables) || !ElfFits(elf)
  {
    hide Building, Shows, TableRefused, Layout, First, End, Bounded, SectionFits, Tabled, PageDir.Tables, PageDir.Space, PageDir.Valid, Memory.Valid;
    assert [] + [elf.txt] == [elf.txt] && [elf.txt] + [elf.rodat] == [elf.txt, elf.rodat];
    assert [elf.txt, elf.rodat] + [elf.dat] == [elf.txt, elf.rodat, elf.dat] && [elf.txt, elf.rodat, elf.dat] + [elf.bss] == AllSections(elf);
    ok := OfferOne(c, mem, elf.txt, p, [], s, need, img, tables);
    if ok { ok := OfferOne(c, mem, elf.rodat, p, [elf.txt], s, need, img, tables); }
    if ok { ok := OfferOne(c, mem, elf.dat, p, [elf.txt, elf.rodat], s, need, img, tables); }
    if ok { ok := OfferOne(c, mem, elf.bss, p, [elf.txt, elf.rodat, elf.dat], s, need, img, tables); }
  }

  /** getbytes finds the offset in the file: the offset and the size are taken as signed
      32-bit numbers. */
  predicate InFile(file: seq<bv8>, offset: nat, size: nat) { offset < 0x8000_0000 && size < 0x8000_0000 && offset < |file| }

  /** The bytes it copies: fewer than asked for where the file ends. */
  function Chunk(file: seq<bv8>, offset: nat, size: nat): seq<bv8> {
    if offset >= |file| then [] else if size > |file| - offset then file[offset..] else file[offset..offset + size]
  }

  function FileOffsets(elf: Elf): seq<nat> { [elf.txtoff, elf.rodatoff, elf.datoff] }

  /** Map one section and read it from the file, where it may be missing. */
  method LoadOne(c: PageDir, mem: Memory, elf: Elf, i: nat, file: seq<bv8>, ghost p: int, ghost s: Snapshot, ghost need: set<nat>, ghost img: Image,
    tables: nat -> bool)
    returns (ok: bool, ghost img': Image)
    requires Owns(c, tables) && mem.Valid() && mem !in c.Repr && Built(s, Now(c, mem), need, img) && i < 3
    requires Layout(c.Space(), p, AllSections(elf), FileSections(elf)[..i]) && ElfBounded(elf) && ElfFits(elf)
    requires Needs(need, First(FileSections(elf)[i]), End(FileSections(elf)[i]))
    modifies c.Repr, mem
    ensures Owns(c, tables) && mem.Valid() && fresh(c.Repr - old(c.Repr)) && Building(s, Now(c, mem), need)
    ensures ok ==> Layout(c.Space(), p, AllSections(elf), FileSections(elf)[..i + 1]) && SectionInFile(elf, i, file)
    ensures ok ==> Built(s, Now(c, mem), need, img') && Written(img, img', FileSections(elf)[i].addr, SectionChunk(elf, i, file))
    ensures !ok ==> Short(s, need) || !SectionInFile(elf, i, file)
  {
    hide Building, Shows, Short, Needs, Layout, Mappable, MappedRange, AllPrivate, Written, PrivateBytes, First, End, Bounded, SectionFits, Tabled, PageDir.Tables, PageDir.Space, PageDir.Valid, Memory.Valid;
    var r, offset := FileSections(elf)[i], FileOffsets(elf)[i];
    ghost var m, loaded := c.Space(), FileSections(elf)[..i];
    img' := img;
    assert r == AllSections(elf)[i] && loaded + [r] == FileSections(elf)[..i + 1];
    FittingRange(r);
    SectionMappable(m, p, AllSections(elf), loaded, r);
    ok := MapAndClear(c, mem, r, false, s, need, img, tables);
    if !ok {
      return;
    }
    LoadSection(m, c.Space(), p, AllSections(elf), loaded, r);
    if i > 0 && r.size == 0 {
      NothingWritten(img, r.addr, []);
      return;
    }
    if !InFile(file, offset, r.size) {
      return false, img;
    }
    RangeBytes(c.Space(), r, r.addr, |Chunk(file, offset, r.size)|);
    img' := WriteBytes(c, mem, r.addr, Chunk(file, offset, r.size), s, need, img, tables);
  }

  /** What is copied for a section: nothing if it is empty. */
  function SectionChunk(elf: Elf, i: nat, file: seq<bv8>): (chunk: seq<bv8>)
    requires i < 3
    ensures |chunk| <= FileSections(elf)[i].size
  {
    Chunk(file, FileOffsets(elf)[i], FileSections(elf)[i].size)
  }

  /** Whether the file holds a section: empty ones are not read, except for the text. */
  predicate SectionInFile(elf: Elf, i: nat, file: seq<bv8>)
    requires i < 3
  {
    (i > 0 && FileSections(elf)[i].size == 0) || InFile(file, FileOffsets(elf)[i], FileSections(elf)[i].size)
  }

  predicate AllInFile(elf: Elf, file: seq<bv8>) { SectionInFile(elf, 0, file) && SectionInFile(elf, 1, file) && SectionInFile(elf, 2, file) }

  /** The file has the byte a section wants at an address. */
  predicate Supplies(r: Section, offset: nat, file: seq<bv8>, a: int) { r.addr <= a < r.addr + r.size && offset + (a - r.addr) < |file| }

  /** What a program finds below its stack: data before constants before text where they
      overlap, and zeros elsewhere. */
  function FileByte(elf: Elf, file: seq<bv8>, a: int): bv8 {
    if Supplies(elf.dat, elf.datoff, file, a) then file[elf.datoff + (a - elf.dat.addr)]
    else if Supplies(elf.rodat, elf.rodatoff, file, a) then file[elf.rodatoff + (a - elf.rodat.addr)]
    else if Supplies(elf.txt, elf.txtoff, file, a) then file[elf.txtoff + (a - elf.txt.addr)]
    else 0
  }

  ghost predicate Resident(img: Image, elf: Elf, file: seq<bv8>) { forall a: int :: a < STACK_LOW ==> img(a) == FileByte(elf, file, a) }

  /** Copying a chunk writes the bytes the file supplies. */
  lemma ChunkSupplies(elf: Elf, i: nat, file: seq<bv8>, a: int)
    requires i < 3
    ensures var r, offset, chunk := FileSections(elf)[i], FileOffsets(elf)[i], SectionChunk(elf, i, file);
            && (r.addr <= a < r.addr + |chunk| <==> Supplies(r, offset, file, a))
            && (Supplies(r, offset, file, a) ==> chunk[a - r.addr] == file[offset + (a - r.addr)])
  {
  }

  lemma SectionsWritten(img: Image, img1: Image, img2: Image, img3: Image, elf: Elf, file: seq<bv8>)
    requires BlankBelow(img, STACK_LOW) && ElfFits(elf)
    requires Written(img, img1, elf.txt.addr, SectionChunk(elf, 0, file))
    requires Written(img1, img2, elf.rodat.addr, SectionChunk(elf, 1, file))
    requires Written(img2, img3, elf.dat.addr, SectionChunk(elf, 2, file))
    ensures Resident(img3, elf, file) && AgreeFrom(img, img3, STACK_LOW)
  {
    hide SectionFits, SectionChunk, Supplies;
    SectionFitsBytes(elf.txt);
    SectionFitsBytes(elf.rodat);
    SectionFitsBytes(elf.dat);
    forall a: int | a < STACK_LOW
      ensures img3(a) == FileByte(elf, file, a)
    {
      ChunkSupplies(elf, 0, file, a);
      ChunkSupplies(elf, 1, file, a);
      ChunkSupplies(elf, 2, file, a);
    }
  }

  method LoadSections(c: PageDir, mem: Memory, elf: Elf, file: seq<bv8>, ghost p: int, ghost s: Snapshot, ghost need: set<nat>, ghost img: Image, tables: nat -> bool)
    returns (ok: bool, ghost img': Image)
    requires Owns(c, tables) && mem.Valid() && mem !in c.Repr && Built(s, Now(c, mem), need, img) && BlankBelow(img, STACK_LOW)
    requires Layout(c.Space(), p, AllSections(elf), []) && ElfBounded(elf) && ElfFits(elf)
    requires forall r :: r in FileSections(elf) ==> Needs(need, First(r), End(r))
    modifies c.Repr, mem
    ensures Owns(c, tables) && mem.Valid() && fresh(c.Repr - old(c.Repr)) && Building(s, Now(c, mem), need)
    ensures ok ==> Layout(c.Space(), p, AllSections(elf), FileSections(elf)) && AllInFile(elf, file)
    ensures ok ==> Built(s, Now(c, mem), need, img') && Resident(img', elf, file) && AgreeFrom(img, img', STACK_LOW)
    ensures !ok ==> Short(s, need) || !AllInFile(elf, file)
  {
    hide Building, Shows, Short, Needs, Layout, AllSections, First, End, ElfBounded, ElfFits, SectionInFile, SectionChunk, Written, BlankBelow, AgreeFrom, Resident, Tabled, PageDir.Tables, PageDir.Space, PageDir.Valid, Memory.Valid;
    assert FileSections(elf)[..0] == [] && FileSections(elf)[..3] == FileSections(elf);
    ghost var img1, img2 := img, img;
    img' := img;
    ok, img1 := LoadOne(c, mem, elf, 0, file, p, s, need, img, tables);
    if ok { ok, img2 := LoadOne(c, mem, elf, 1, file, p, s, need, img1, tables); }
    if ok { ok, img' := LoadOne(c, mem, elf, 2, file, p, s, need, img2, tables); }
    if ok { SectionsWritten(img, img1, img2, img', elf, file); }
  }

  /** change_access on one loaded section. */
  method ProtectOne(c: PageDir, mem: Memory, elf: Elf, i: nat, rw: int, ghost p: int, ghost s: Snapshot, ghost need: set<nat>, ghost img: Image, ghost tables: nat -> bool) returns (ok: bool)
    requires Owns(c, tables) && mem.Valid() && mem !in c.Repr && Built(s, Now(c, mem), need, img) && i < 3
    requires Layout(c.Space(), p, AllSections(elf), FileSections(elf)) && ElfBounded(elf) && ElfFits(elf)
    requires rw == READ_ONLY || rw == READ_WRITE
    modifies c.Repr
    ensures Owns(c, tables) && fresh(c.Repr - old(c.Repr)) && Built(s, Now(c, mem), need, img)
    ensures ok && Layout(c.Space(), p, AllSections(elf), FileSections(elf))
    ensures AccessRange(old(c.Space()), c.Space(), First(FileSections(elf)[i]), End(FileSections(elf)[i]), rw)
  {
    hide Building, Shows, Layout, AllSections, AccessRange, AllPrivate, First, End, Bounded, SectionFits, Tabled, PageDir.Tables, PageDir.Space, PageDir.Valid, Memory.Valid;
    var r := FileSections(elf)[i];
    FittingRange(r);
    ghost var m := c.Space();
    LoadedPrivate(m, p, AllSections(elf), FileSections(elf), i);
    ok := ChangeAccess(c, mem, r, rw, s, need, img, tables);
    ProtectSection(m, c.Space(), p, AllSections(elf), FileSections(elf), r, rw);
  }

  method ProtectSections(c: PageDir, mem: Memory, elf: Elf, ghost p: int, ghost s: Snapshot, ghost need: set<nat>, ghost img: Image, ghost tables: nat -> bool) returns (ok: bool)
    requires Owns(c, tables) && mem.Valid() && mem !in c.Repr && Built(s, Now(c, mem), need, img)
    requires Layout(c.Space(), p, AllSections(elf), FileSections(elf)) && ElfBounded(elf) && ElfFits(elf)
    modifies c.Repr
    ensures Owns(c, tables) && fresh(c.Repr - old(c.Repr)) && Built(s, Now(c, mem), need, img)
    ensures ok && Layout(c.Space(), p, AllSections(elf), FileSections(elf)) && Protected(c.Space(), elf)
  {
    hide Building, Shows, Layout, Protected, AllSections, AccessRange, ElfBounded, ElfFits, First, End, Tabled, PageDir.Tables, PageDir.Space, PageDir.Valid, Memory.Valid;
    ghost var m0 := c.Space();
    ok := ProtectOne(c, mem, elf, 0, READ_ONLY, p, s, need, img, tables);
    ghost var m1 := c.Space();
    if ok { ok := ProtectOne(c, mem, elf, 1, READ_ONLY, p, s, need, img, tables); }
    ghost var m2 := c.Space();
    if ok { ok := ProtectOne(c, mem, elf, 2, READ_WRITE, p, s, need, img, tables); }
    ProtectedInOrder(m0, m1, m2, c.Space(), elf);
  }

  /** The steps of load_executable on the new directory: they succeed exactly for arguments
      and sections that fit and are there, unless memory runs out. */
  method Build(c: PageDir, mem: Memory, elf: Elf, args: seq<seq<bv8>>, file: seq<bv8>, ghost s: Snapshot, tables: nat -> bool)
    returns (ok: bool, esp: nat, k: Stack, ghost img: Image)
    requires Owns(c, tables) && mem.Valid() && mem !in c.Repr && Built(s, Now(c, mem), Need(elf, args), Blank())
    requires c.Space() == Fresh() && FitsKernelHeap(args) && ElfBounded(elf)
    modifies c.Repr, mem
    ensures Owns(c, tables) && mem.Valid() && fresh(c.Repr - old(c.Repr)) && Building(s, Now(c, mem), Need(elf, args))
    ensures ok ==> Loadable(elf, args, file) && Loaded(c.Space(), FinalStack(args) / PAGE_SIZE, elf)
    ensures ok ==> esp == k.esp && Shows(Now(c, mem), img) && Started(img, args, k) && Resident(img, elf, file)
    ensures !ok ==> LoadRefused(elf, tables) || Short(s, Need(elf, args)) || !Loadable(elf, args, file)
  {
    hide Building, Shows, Short, Layout, Protected, Loaded, Need, Needs, NeedsStack, FinalStack, Mappable, MappedRange, Fresh, AllSections, FileSections, FitsKernelHeap, Bounded, ElfFits, ArgsFit, AllInFile, Started, Resident, BlankBelow, AgreeFrom, First, End, Tabled, PageDir.Tables, PageDir.Space, PageDir.Valid, Memory.Valid;
    ghost var need := Need(elf, args);
    NeedCovers(elf, args);
    ok, esp, k, img := BuildStack(c, mem, args, s, need, tables);
    if !ok {
      return;
    }
    ghost var p := FinalStack(args) / PAGE_SIZE;
    StackAbove(args);
    BlankLess(img, STACK_LOW, esp);
    ok := OfferSections(c, mem, elf, p, s, need, img, tables);
    if ok {
      ghost var before := img;
      ok, img := LoadSections(c, mem, elf, file, p, s, need, before, tables);
      if ok { StillStarted(before, img, args, k); }
    }
    if ok {
      ok := ProtectSections(c, mem, elf, p, s, need, img, tables);
      ok := LoadBss(c, mem, elf, p, s, need, img, tables);
    }
  }

  lemma StackAbove(args: seq<seq<bv8>>)
    ensures ArgsFit(args) ==> STACK_LOW <= FinalStack(args)
  {
  }

  /** The last step: the zero-initialized data. */
  method LoadBss(c: PageDir, mem: Memory, elf: Elf, ghost p: int, ghost s: Snapshot, ghost need: set<nat>, ghost img: Image, tables: nat -> bool) returns (ok: bool)
    requires Owns(c, tables) && mem.Valid() && mem !in c.Repr && Built(s, Now(c, mem), need, img)
    requires Layout(c.Space(), p, AllSections(elf), FileSections(elf)) && Protected(c.Space(), elf) && ElfBounded(elf) && ElfFits(elf)
    modifies c.Repr, mem
    ensures Owns(c, tables) && mem.Valid() && fresh(c.Repr - old(c.Repr)) && Built(s, Now(c, mem), need, img)
    ensures if ok then Loaded(c.Space(), p, elf) else Short(s, need)
  {
    hide Building, Shows, Short, Layout, Protected, Loaded, Mappable, MappedRange, FileSections, Bounded, First, End, SectionFits, Tabled, PageDir.Tables, PageDir.Space, PageDir.Valid, Memory.Valid;
    ghost var m := c.Space();
    FittingRange(elf.bss);
    assert elf.bss == AllSections(elf)[3];
    SectionMappable(m, p, AllSections(elf), FileSections(elf), elf.bss);
    ok := MapAndClear(c, mem, elf.bss, true, s, need, img, tables);
    if ok { BssLoaded(m, c.Space(), p, elf); }
  }

  /** The kernel heap refuses a page table that is needed for the stack, or for a section. */
  ghost predicate LoadRefused(elf: Elf, tables: nat -> bool) {
    TableRefused(KernelTables(), tables, STACK_PAGE, PAGES) || SectionRefused(elf, tables)
  }

  ghost predicate SectionRefused(elf: Elf, tables: nat -> bool) {
    || TableRefused(KernelTables(), tables, First(elf.txt), End(elf.txt)) || TableRefused(KernelTables(), tables, First(elf.rodat), End(elf.rodat))
    || TableRefused(KernelTables(), tables, First(elf.dat), End(elf.dat)) || TableRefused(KernelTables(), tables, First(elf.bss), End(elf.bss))
  }

  /** A loaded program has all the tables it needs. */
  lemma LoadedTables(m: Flat, there: set<nat>, tables: nat -> bool, p: int, elf: Elf)
    requires Tabled(m, there, tables) && Loaded(m, p, elf) && ElfFits(elf)
    ensures !LoadRefused(elf, tables)
  {
    forall pn: nat | pn < PAGES && (pn >= STACK_PAGE || In(pn, elf.txt) || In(pn, elf.rodat) || In(pn, elf.dat) || In(pn, elf.bss))
      ensures !Refused(KernelTables(), tables, pn)
    {
      assert UserPage(pn) && m[pn] != Absent(PAGE_UNAVAILABLE);
    }
  }

  /** A program exec can load: its arguments fit the stack, every section lies in user
      memory below the stack or is empty, and the file holds what is read from it. */
  predicate Loadable(elf: Elf, args: seq<seq<bv8>>, file: seq<bv8>) {
    ArgsFit(args) && ElfFits(elf) && AllInFile(elf, file)
  }

  /** exec has put `t` in the place of `s`: every frame of the old space is in the pool,
      and none of them was written meanwhile. */
  ghost predicate Replaced(s: Snapshot, t: Snapshot) {
    && Balanced(t.pool, t.space)
    && Owned(t.pool, t.space) == Owned(s.pool, s.space)
    && Frames(t.space) !! Frames(s.space)
    && RamFrame(s.ram, t.ram, Members(s.pool))
  }

  lemma BuildingStart(s: Snapshot, need: set<nat>)
    requires Balanced(s.pool, s.space)
    ensures Building(s, s.(space := Fresh()), need)
  {
    FreshOwnsNothing();
    assert PrivatePages(Fresh()) == {};
  }

  lemma BuildingIsDrawn(s: Snapshot, t: Snapshot, need: set<nat>)
    requires Building(s, t, need)
    ensures Drawn(s, t)
  {
  }

  lemma DrawnReplaces(s: Snapshot, t: Snapshot, pool: seq<nat>)
    requires Balanced(s.pool, s.space) && Drawn(s, t)
    requires ValidPool(pool) && Members(pool) == Members(t.pool) + Frames(s.space)
    ensures Replaced(s, t.(pool := pool))
  {
    assert Frames(t.space) <= Members(s.pool);
    assert Members(t.pool) <= Members(s.pool);
  }

  /** A finished program took as many frames as it needs. */
  lemma EnoughFrames(s: Snapshot, t: Snapshot, elf: Elf, args: seq<seq<bv8>>)
    requires Building(s, t, Need(elf, args)) && ArgsFit(args) && ElfFits(elf) && Loaded(t.space, FinalStack(args) / PAGE_SIZE, elf)
    ensures |s.pool| >= |Need(elf, args)|
  {
    LoadedOwns(t.space, elf, args);
  }

  /** load_executable: null on failure, and then the caller's space, the pool and the
      contents of every frame in use are as they were. The kernel heap's answers for the
      directory and for page tables are inputs, and so is whether the header of the file
      and the copies of the arguments could be had. The call succeeds exactly for a loadable
      program with a frame for every page that needs one, when what it asks the heap for is
      granted. The program then finds its arguments on the stack, its sections, and
      otherwise zeros. */
  method LoadExecutable(d: PageDir, mem: Memory, elf: Elf, args: seq<seq<bv8>>, file: seq<bv8>, prepared: bool, dir: nat -> bool, tables: nat -> bool)
    returns (c: PageDir?, esp: nat, k: Stack, ghost img: Image)
    requires Sane(d, mem) && FitsKernelHeap(args) && ElfBounded(elf) && elf.txt.addr >= USER_PAGE_START
    modifies mem
    ensures c == null ==> Sane(d, mem) && d.Space() == old(d.Space()) && mem.allocList == old(mem.allocList)
    ensures c == null ==> RamFrame(old(mem.ram), mem.ram, Members(mem.allocList))
    ensures c != null <==>
              && prepared && Loadable(elf, args, file)
              && (forall i: nat :: i <= 4 ==> dir(i)) && !LoadRefused(elf, tables) && |old(mem.allocList)| >= |Need(elf, args)|
    ensures c != null ==> Sane(c, mem) && fresh(c.Repr) && Loaded(c.Space(), FinalStack(args) / PAGE_SIZE, elf)
    ensures c != null ==> esp == k.esp && Shows(Now(c, mem), img) && Started(img, args, k) && Resident(img, elf, file)
    ensures c != null ==> Replaced(old(Now(d, mem)), Now(c, mem))
  {
    hide Drawn, Building, Shows, Loaded, Need, Loadable, LoadRefused, FinalStack, Fresh, RamFrame, FitsKernelHeap, ElfBounded, Started, Resident, Balanced, ValidPool, Tabled, PageDir.Tables, PageDir.Space, PageDir.Valid;
    ghost var s := Now(d, mem);
    SameRam(s);
    esp, k, img := 0, Stack(0, 0, []), Blank();
    c := PageDir.Construct(dir);
    if c == null {
      return;
    }
    BuildingStart(s, Need(elf, args));
    FreshShows(Now(c, mem));
    TabledFresh(tables);
    var ok := prepared;
    if prepared {
      ok, esp, k, img := Build(c, mem, elf, args, file, s, tables);
    }
    ghost var t := Now(c, mem);
    BuildingIsDrawn(s, t, Need(elf, args));
    if !ok {
      Abandon(c, mem, s);
      c := null;
      return;
    }
    BuiltEnough(s, t, elf, args, file);
    BuiltTables(t, c.Tables(), tables, elf, args, file);
    BalancedSpace(s);
    d.Destruct(mem);
    DrawnReplaces(s, t, mem.allocList);
    PoolShowsNothing(t, mem.allocList, img);
  }

  /** What a space shows does not depend on the pool. */
  lemma PoolShowsNothing(t: Snapshot, pool: seq<nat>, img: Image)
    requires Shows(t, img)
    ensures Shows(t.(pool := pool), img)
  {
    SamePages(t, t.(pool := pool), img);
  }

  lemma BuiltTables(t: Snapshot, there: set<nat>, tables: nat -> bool, elf: Elf, args: seq<seq<bv8>>, file: seq<bv8>)
    requires Tabled(t.space, there, tables) && Loadable(elf, args, file) && Loaded(t.space, FinalStack(args) / PAGE_SIZE, elf)
    ensures !LoadRefused(elf, tables)
  {
    LoadedTables(t.space, there, tables, FinalStack(args) / PAGE_SIZE, elf);
  }

  lemma BuiltEnough(s: Snapshot, t: Snapshot, elf: Elf, args: seq<seq<bv8>>, file: seq<bv8>)
    requires Building(s, t, Need(elf, args)) && Loadable(elf, args, file) && Loaded(t.space, FinalStack(args) / PAGE_SIZE, elf)
    ensures |s.pool| >= |Need(elf, args)|
  {
    EnoughFrames(s, t, elf, args);
  }

  lemma BalancedSpace(s: Snapshot)
    requires Balanced(s.pool, s.space)
    ensures ValidSpace(s.space)
  {
  }
}
