/** The copy of an address space made by fork. */
module ForkSpace {
  import opened Basics
  import opened FramePool
  import opened PageDirectory
  import opened AddressSpace

  /** Page `pn` of the child is what it is in the parent; a private page has a frame of
      its own with the same contents. */
  ghost predicate CopiedPage(s: Snapshot, t: Snapshot, pn: nat)
    requires FlatDomain(s.space) && FlatDomain(t.space) && pn < PAGES
  {
    if Private(s.space[pn]) then
      && Private(t.space[pn]) && t.space[pn].rw == s.space[pn].rw
      && Holds(t.ram, t.space[pn].frame) == Holds(s.ram, s.space[pn].frame)
    else t.space[pn] == s.space[pn]
  }

  /** How many of the user pages below `n` have a frame of their own. */
  ghost function PrivateCount(m: Flat, n: nat): nat
  {
    if n == 0 then 0 else PrivateCount(m, n - 1) + if UserPage(n - 1) && n - 1 in m && Private(m[n - 1]) then 1 else 0
  }

  lemma {:induction false} PrivateCountGrows(m: Flat, n: nat, n': nat)
    requires n <= n'
    ensures PrivateCount(m, n) <= PrivateCount(m, n')
  {
    if n < n' { PrivateCountGrows(m, n, n' - 1); }
  }

  lemma {:induction false} NoPrivate(m: Flat, n: nat, n': nat)
    requires n <= n' && forall pn :: n <= pn < n' && pn in m ==> m[pn].Absent?
    ensures PrivateCount(m, n') == PrivateCount(m, n)
  {
    if n < n' { NoPrivate(m, n, n' - 1); }
  }

  /** `s` is the parent before the fork, `t` the child with its pages below `n` copied
      and the others still untouched. */
  ghost predicate Copying(s: Snapshot, n: nat, t: Snapshot) {
    && n <= PAGES && FlatDomain(s.space) && Balanced(t.pool, t.space)
    && Owned(t.pool, t.space) == Members(s.pool)
    && RamFrame(s.ram, t.ram, Members(s.pool))
    && (forall pn: nat :: UserPage(pn) ==> if pn < n then CopiedPage(s, t, pn) else t.space[pn] == Absent(PAGE_UNAVAILABLE))
    && |s.pool| == |t.pool| + PrivateCount(s.space, n)
  }

  // ------------------------------------------------------------- one page more

  lemma CopyStart(s: Snapshot)
    requires Balanced(s.pool, s.space)
    ensures Copying(s, FIRST_USER_PAGE, s.(space := Fresh()))
  {
    FreshOwnsNothing();
    NoPrivateKernel(s.space, FIRST_USER_PAGE);
  }

  lemma {:induction false} NoPrivateKernel(m: Flat, n: nat)
    requires n <= FIRST_USER_PAGE
    ensures PrivateCount(m, n) == 0
  {
    if n > 0 { NoPrivateKernel(m, n - 1); }
  }

  lemma CopyAbsent(s: Snapshot, n: nat, t: Snapshot)
    requires Copying(s, n, t) && UserPage(n) && ValidSpace(s.space) && s.space[n].Absent?
    ensures Copying(s, n + 1, t.(space := t.space[n := s.space[n]]))
    ensures s.space[n].avail == PAGE_AVAILABLE || s.space[n].avail == PAGE_UNAVAILABLE
  {
    assert ValidEntry(s.space[n]);
    SharedKeeps(t.pool, t.space, n, s.space[n]);
  }

  /** Pages that are unavailable in the parent already are so in the child. */
  lemma CopyUnavailable(s: Snapshot, n: nat, n': nat, t: Snapshot)
    requires Copying(s, n, t) && FIRST_USER_PAGE <= n <= n' <= PAGES
    requires forall pn: nat :: n <= pn < n' ==> s.space[pn] == Absent(PAGE_UNAVAILABLE)
    ensures Copying(s, n', t)
  {
    NoPrivate(s.space, n, n');
  }

  lemma CopyZero(s: Snapshot, n: nat, t: Snapshot)
    requires Copying(s, n, t) && UserPage(n) && s.space[n] == Present(ZERO_FRAME, READ_ONLY)
    ensures Copying(s, n + 1, t.(space := t.space[n := Absent(PAGE_AVAILABLE)][n := s.space[n]]))
  {
    var m := t.space[n := Absent(PAGE_AVAILABLE)];
    SharedKeeps(t.pool, t.space, n, Absent(PAGE_AVAILABLE));
    SharedKeeps(t.pool, m, n, s.space[n]);
  }

  /** After page `n` has been given the first pooled frame, filled, and its access set. */
  ghost function Given(t: Snapshot, n: nat, data: Contents, rw: int): Snapshot
    requires t.pool != []
  {
    var f := t.pool[0];
    Snapshot(t.pool[1..], t.space[n := Present(f, READ_WRITE)][n := Present(f, rw)], t.ram[f := data])
  }

  /** The child after page `n` has been copied. */
  ghost function WithCopy(s: Snapshot, n: nat, t: Snapshot): Snapshot
    requires n in s.space && s.space[n].Present? && t.pool != []
  {
    Given(t.(space := t.space[n := Absent(PAGE_AVAILABLE)]), n, Holds(s.ram, s.space[n].frame), s.space[n].rw)
  }

  lemma CopyPrivate(s: Snapshot, n: nat, t: Snapshot)
    requires Copying(s, n, t) && UserPage(n) && Private(s.space[n]) && ValidEntry(s.space[n]) && t.pool != []
    ensures Copying(s, n + 1, WithCopy(s, n, t))
  {
    hide Balanced, Owned, RamFrame;
    CopyBalanced(s, n, t);
    forall pn: nat | UserPage(pn)
      ensures if pn < n + 1 then CopiedPage(s, WithCopy(s, n, t), pn) else WithCopy(s, n, t).space[pn] == Absent(PAGE_UNAVAILABLE)
    {
      CopyPrivateAt(s, n, t, pn);
    }
  }

  lemma CopyPrivateAt(s: Snapshot, n: nat, t: Snapshot, pn: nat)
    requires Copying(s, n, t) && UserPage(n) && Private(s.space[n]) && ValidEntry(s.space[n]) && t.pool != [] && UserPage(pn)
    ensures var u := WithCopy(s, n, t);
            FlatDomain(u.space) && if pn < n + 1 then CopiedPage(s, u, pn) else u.space[pn] == Absent(PAGE_UNAVAILABLE)
  {
    assert t.pool[0] in Members(t.pool);
    assert Pooled(t.pool[0]);
    if pn < n && Private(s.space[pn]) { assert t.space[pn].frame in Frames(t.space); }
  }

  lemma CopyBalanced(s: Snapshot, n: nat, t: Snapshot)
    requires Copying(s, n, t) && UserPage(n) && Private(s.space[n]) && ValidEntry(s.space[n]) && t.pool != []
    ensures var u := WithCopy(s, n, t);
            && Balanced(u.pool, u.space) && Owned(u.pool, u.space) == Members(s.pool)
            && RamFrame(s.ram, u.ram, Members(s.pool)) && FlatDomain(u.space)
  {
    var f := t.pool[0];
    var m := t.space[n := Absent(PAGE_AVAILABLE)];
    SharedKeeps(t.pool, t.space, n, Absent(PAGE_AVAILABLE));
    MapKeeps(t.pool, m, n);
    assert f in Members(t.pool) && Pooled(f);
    AccessKeeps(t.pool[1..], m[n := Present(f, READ_WRITE)], n, s.space[n].rw);
  }

  /** A complete copy owns only frames that were in the pool, so it shares none with its
      parent. */
  lemma CopyApart(s: Snapshot, n: nat, t: Snapshot)
    requires Balanced(s.pool, s.space) && Copying(s, n, t)
    ensures Balanced(t.pool, s.space) && Balanced(t.pool, t.space) && Frames(s.space) !! Frames(t.space)
  {
    assert Members(t.pool) <= Members(s.pool);
    assert Frames(t.space) <= Members(s.pool);
  }

  // ---------------------------------------------------------------- main result

  /** What a successful fork is for: the child sees exactly the memory its parent saw
      and may write exactly the same pages; the parent sees what it saw before; and
      neither can reach a frame of the other. */
  lemma ForkIsACopy(s: Snapshot, t: Snapshot, pn: nat)
    requires InOrder(s) && Copying(s, PAGES, t) && pn < PAGES
    ensures View(t.space, t.ram, pn) == View(s.space, s.ram, pn)
    ensures Writable(t.space, pn) == Writable(s.space, pn)
    ensures View(s.space, t.ram, pn) == View(s.space, s.ram, pn)
    ensures Frames(s.space) !! Frames(t.space)
    ensures ZERO_FRAME in t.ram && t.ram[ZERO_FRAME] == Zeros()
  {
    CopyApart(s, PAGES, t);
    assert ZERO_FRAME !in Members(s.pool);
    if UserPage(pn) {
      assert CopiedPage(s, t, pn);
      if Private(s.space[pn]) { assert s.space[pn].frame in Frames(s.space); }
    }
  }

  // --------------------------------------------------------------- the copy loop

  /** The virtual address of a page. */
  function Address(n: nat): (vAddr: nat)
    ensures PageOf(vAddr) == n
  {
    n * PAGE_SIZE
  }

  /** The first page of the next page table. */
  function NextTable(n: nat): (r: nat)
    requires n < PAGES
    ensures n < r <= PAGES && forall pn :: n <= pn < r ==> pn / PTE_COUNT == n / PTE_COUNT
  {
    (n / PTE_COUNT + 1) * PTE_COUNT
  }

  /** The child needs a page table for this page; `there` are the tables it has. */
  predicate Lacks(m: Flat, there: set<nat>, tables: nat -> bool, pn: nat) {
    UserPage(pn) && pn in m && m[pn] != Absent(PAGE_UNAVAILABLE) && Refused(there, tables, pn)
  }

  /** The kernel heap refuses the child a page table that it needs. */
  ghost predicate ChildRefused(m: Flat, tables: nat -> bool, lo: nat, hi: nat) {
    exists pn :: lo <= pn < hi && Lacks(m, KernelTables(), tables, pn)
  }

  lemma LacksNothing(m: Flat, tables: nat -> bool, n: nat)
    ensures !ChildRefused(m, tables, n, n) && OnlyGranted(KernelTables(), KernelTables(), tables)
  {
  }

  /** One page more has been dealt with. */
  lemma LacksNext(m: Flat, now: set<nat>, tables: nat -> bool, lo: nat, n: nat, hi: nat)
    requires OnlyGranted(KernelTables(), now, tables) && !ChildRefused(m, tables, lo, n) && lo <= n < hi
    ensures !Lacks(m, now, tables, n) ==> !ChildRefused(m, tables, lo, n + 1)
    ensures Lacks(m, now, tables, n) ==> ChildRefused(m, tables, lo, hi)
  {
    assert Lacks(m, now, tables, n) ==> Lacks(m, KernelTables(), tables, n);
  }

  lemma ChildRefusedWider(m: Flat, tables: nat -> bool, lo: nat, n: nat, n': nat, hi: nat)
    requires lo <= n <= n' <= hi && !ChildRefused(m, tables, lo, n)
    ensures !ChildRefused(m, tables, n, n') ==> !ChildRefused(m, tables, lo, n')
    ensures ChildRefused(m, tables, n, n') ==> ChildRefused(m, tables, lo, hi)
  {
    if pn :| n <= pn < n' && Lacks(m, KernelTables(), tables, pn) { assert lo <= pn < hi; }
  }

  /** Twice the same page. */
  lemma GrownTwice(a: set<nat>, b: set<nat>, c: set<nat>, n: nat, grant: bool)
    requires Grown(a, b, n, grant) && Grown(b, c, n, grant)
    ensures Grown(a, c, n, grant)
  {
  }

  /** A parent, a child being built for it, and the memory they live in. */
  ghost predicate Apart(d: PageDir, c: PageDir, mem: Memory)
    reads d, d.Repr, c, c.Repr, mem
  {
    d.Valid() && c.Valid() && mem.Valid() && d.Repr !! c.Repr && mem !in d.Repr && mem !in c.Repr
  }

  lemma OfferedIsDrawn(s: Snapshot, n: nat, t: Snapshot)
    requires Copying(s, n, t) && UserPage(n)
    ensures Drawn(s, t) && Drawn(s, t.(space := t.space[n := Absent(PAGE_AVAILABLE)])) && t.space[n].Absent?
  {
    SharedKeeps(t.pool, t.space, n, Absent(PAGE_AVAILABLE));
  }

  /** A page with no page table in the parent: the rest of its table is copied at once. */
  method CopyNoTable(d: PageDir, c: PageDir, mem: Memory, n: nat, ghost s: Snapshot, tables: nat -> bool) returns (ok: bool, next: nat)
    requires Apart(d, c, mem) && UserPage(n) && !d.HasTable(n)
    requires d.Space() == s.space && ValidSpace(s.space) && Copying(s, n, Now(c, mem)) && OnlyGranted(KernelTables(), c.Tables(), tables)
    modifies c.Repr
    ensures c.Valid() && fresh(c.Repr - old(c.Repr)) && n < next <= PAGES
    ensures if ok then Copying(s, next, Now(c, mem)) else Drawn(s, Now(c, mem))
    ensures (ok <==> !ChildRefused(s.space, tables, n, next)) && (ok ==> OnlyGranted(KernelTables(), c.Tables(), tables))
  {
    hide Copying, Drawn, Address, ValidSpace, OnlyGranted, ChildRefused, PageDir.Tables, PageDir.Space, PageDir.Valid, PageDir.HasTable, PageDir.Entry;
    next := NextTable(n);
    NoTableEntries(d, s, n, next);
    var rc, availability := d.GetAvailability(Address(n));
    ok := true;
    if availability != PAGE_UNAVAILABLE {
      ok := SpreadAvailability(c, mem, n, next, availability, s, tables);
    } else {
      CopyUnavailable(s, n, next, Now(c, mem));
      NothingToLack(s.space, tables, n, next);
    }
  }

  lemma NothingToLack(m: Flat, tables: nat -> bool, n: nat, next: nat)
    requires forall pn: nat :: n <= pn < next ==> pn in m && m[pn] == Absent(PAGE_UNAVAILABLE)
    ensures !ChildRefused(m, tables, n, next)
  {
  }

  lemma NoTableEntries(d: PageDir, s: Snapshot, n: nat, next: nat)
    requires d.Valid() && UserPage(n) && !d.HasTable(n) && d.Space() == s.space && ValidSpace(s.space)
    requires n <= next <= PAGES && forall pn :: n <= pn < next ==> pn / PTE_COUNT == n / PTE_COUNT
    ensures d.Entry(n).Absent? && forall pn: nat :: n <= pn < next ==> pn in s.space && s.space[pn] == Absent(d.Entry(n).avail)
  {
    assert forall pn: nat :: n <= pn < next ==> d.Entry(pn) == s.space[pn] == d.Entry(n);
  }

  /** The inner loop of that case. */
  method SpreadAvailability(c: PageDir, mem: Memory, n: nat, next: nat, availability: int, ghost s: Snapshot, tables: nat -> bool) returns (ok: bool)
    requires c.Valid() && mem !in c.Repr && FIRST_USER_PAGE <= n < next <= PAGES && Copying(s, n, Now(c, mem))
    requires ValidSpace(s.space) && forall pn: nat :: n <= pn < next ==> s.space[pn] == Absent(availability)
    requires OnlyGranted(KernelTables(), c.Tables(), tables)
    modifies c.Repr
    ensures c.Valid() && fresh(c.Repr - old(c.Repr))
    ensures if ok then Copying(s, next, Now(c, mem)) else Drawn(s, Now(c, mem))
    ensures (ok <==> !ChildRefused(s.space, tables, n, next)) && (ok ==> OnlyGranted(KernelTables(), c.Tables(), tables))
  {
    hide Copying, Drawn, ValidSpace, OnlyGranted, ChildRefused, Lacks, Grown, TableOf, PageDir.Tables, PageDir.Space;
    LacksNothing(s.space, tables, n);
    var i := n;
    while i < next
      invariant n <= i <= next && c.Valid() && fresh(c.Repr - old(c.Repr)) && mem !in c.Repr
      invariant Copying(s, i, Now(c, mem)) && OnlyGranted(KernelTables(), c.Tables(), tables) && !ChildRefused(s.space, tables, n, i)
    {
      ghost var before := c.Tables();
      LacksNext(s.space, before, tables, n, i, next);
      ok := CopyAvailability(c, mem, i, availability, s, tables);
      if !ok {
        return;
      }
      GrownGranted(KernelTables(), before, c.Tables(), i, tables);
      i := i + 1;
    }
    ok := true;
  }

  /** set_availability on one page of the child. */
  method CopyAvailability(c: PageDir, mem: Memory, n: nat, availability: int, ghost s: Snapshot, tables: nat -> bool) returns (ok: bool)
    requires c.Valid() && mem !in c.Repr && UserPage(n) && Copying(s, n, Now(c, mem))
    requires ValidSpace(s.space) && s.space[n] == Absent(availability)
    modifies c.Repr
    ensures c.Valid() && fresh(c.Repr - old(c.Repr))
    ensures if ok then Copying(s, n + 1, Now(c, mem)) else Drawn(s, Now(c, mem))
    ensures ok <==> !Lacks(s.space, old(c.Tables()), tables, n)
    ensures Grown(old(c.Tables()), c.Tables(), n, tables(TableOf(n)))
  {
    hide Copying, Drawn, ValidSpace, Address, PageOf, TableOf, Grown, PageDir.Tables, PageDir.Space, PageDir.Valid, PageDir.HasTable;
    CopyAbsent(s, n, Now(c, mem));
    OfferedIsDrawn(s, n, Now(c, mem));
    InSpace(s, n, Now(c, mem));
    var rc := c.SetAvailability(Address(n), availability, tables(TableOf(n)));
    ok := rc == 0;
  }

  /** A page still to be copied is unavailable in the child. */
  lemma InSpace(s: Snapshot, n: nat, t: Snapshot)
    requires Copying(s, n, t) && UserPage(n)
    ensures n in s.space && t.space[n] == Absent(PAGE_UNAVAILABLE)
  {
  }

  lemma ZeroIsReadOnly(s: Snapshot, n: nat)
    requires ValidSpace(s.space) && UserPage(n) && s.space[n].Present? && s.space[n].frame == ZERO_FRAME
    ensures s.space[n] == Present(ZERO_FRAME, READ_ONLY)
  {
    assert ValidEntry(s.space[n]);
  }

  /** A page mapped to the zero frame. */
  method CopyZeroPage(c: PageDir, mem: Memory, n: nat, ghost s: Snapshot, tables: nat -> bool) returns (ok: bool)
    requires c.Valid() && mem !in c.Repr && UserPage(n) && Copying(s, n, Now(c, mem))
    requires ValidSpace(s.space) && s.space[n].Present? && s.space[n].frame == ZERO_FRAME
    modifies c.Repr
    ensures c.Valid() && fresh(c.Repr - old(c.Repr))
    ensures if ok then Copying(s, n + 1, Now(c, mem)) else Drawn(s, Now(c, mem))
    ensures ok <==> !Lacks(s.space, old(c.Tables()), tables, n)
    ensures Grown(old(c.Tables()), c.Tables(), n, tables(TableOf(n)))
  {
    hide Copying, Drawn, ValidSpace, Address, PageOf, TableOf, Grown, PageDir.Tables, PageDir.Space, PageDir.Valid, PageDir.HasTable;
    ghost var before := c.Tables();
    ZeroIsReadOnly(s, n);
    CopyZero(s, n, Now(c, mem));
    OfferedIsDrawn(s, n, Now(c, mem));
    InSpace(s, n, Now(c, mem));
    var rc := c.SetAvailability(Address(n), PAGE_AVAILABLE, tables(TableOf(n)));
    ok := rc == 0;
    if ok {
      ghost var between := c.Tables();
      var rc2 := c.MapZeroFrame(Address(n), tables(TableOf(n)));
      ok := rc2 == 0;
      GrownTwice(before, between, c.Tables(), n, tables(TableOf(n)));
    }
  }

  /** A page with a frame of its own: map a frame in the child, copy the contents through
      the buffer, and give it the parent's access. */
  method CopyPrivatePage(d: PageDir, c: PageDir, mem: Memory, n: nat, ghost s: Snapshot, tables: nat -> bool) returns (ok: bool)
    requires Apart(d, c, mem) && UserPage(n) && Copying(s, n, Now(c, mem)) && Private(d.Entry(n))
    requires d.Space() == s.space && Balanced(s.pool, s.space)
    modifies c.Repr, mem
    ensures c.Valid() && mem.Valid() && fresh(c.Repr - old(c.Repr))
    ensures if ok then Copying(s, n + 1, Now(c, mem)) else Drawn(s, Now(c, mem))
    ensures ok ==> !Lacks(s.space, old(c.Tables()), tables, n)
    ensures !ok ==> Lacks(s.space, old(c.Tables()), tables, n) || |s.pool| < PrivateCount(s.space, n + 1)
    ensures Grown(old(c.Tables()), c.Tables(), n, tables(TableOf(n)))
  {
    hide Copying, Drawn, Balanced, ValidEntry, PrivateCount, Holds, Given, TableOf, Grown, PageDir.Tables, PageDir.Space, PageDir.Entry, PageDir.HasTable, PageDir.Valid, Memory.Valid;
    ghost var t, before := Now(c, mem), c.Tables();
    EntryFacts(d, s, n);
    OfferedIsDrawn(s, n, t);
    InSpace(s, n, t);
    PrivateSteps(s, n, t);
    ok := OfferCopy(c, mem, n, tables(TableOf(n)));
    if ok {
      ghost var between := c.Tables();
      ok := MapCopy(d, c, mem, n, tables(TableOf(n)));
      GrownTwice(before, between, c.Tables(), n, tables(TableOf(n)));
    }
  }

  lemma PrivateSteps(s: Snapshot, n: nat, t: Snapshot)
    requires Copying(s, n, t) && UserPage(n) && Balanced(s.pool, s.space) && Private(s.space[n])
    ensures s.space[n].rw == READ_ONLY || s.space[n].rw == READ_WRITE
    ensures Holds(t.ram, s.space[n].frame) == Holds(s.ram, s.space[n].frame)
    ensures t.pool != [] ==> Copying(s, n + 1, WithCopy(s, n, t))
    ensures t.pool == [] ==> |s.pool| < PrivateCount(s.space, n + 1)
  {
    assert ValidEntry(s.space[n]);
    assert s.space[n].frame in Frames(s.space);
    if t.pool != [] { CopyPrivate(s, n, t); }
  }

  /** set_availability on a page of the child still to be copied. */
  method OfferCopy(c: PageDir, mem: Memory, n: nat, grant: bool) returns (ok: bool)
    requires c.Valid() && UserPage(n) && c.Space()[n] == Absent(PAGE_UNAVAILABLE) && mem !in c.Repr
    modifies c.Repr
    ensures c.Valid() && fresh(c.Repr - old(c.Repr))
    ensures Now(c, mem) == if ok then old(Now(c, mem)).(space := old(c.Space())[n := Absent(PAGE_AVAILABLE)]) else old(Now(c, mem))
    ensures ok <==> TableOf(n) in old(c.Tables()) || grant
    ensures ok ==> c.HasTable(n)
    ensures Grown(old(c.Tables()), c.Tables(), n, grant)
  {
    hide Address, PageOf, TableOf, Grown, PageDir.Tables, PageDir.Space, PageDir.Valid, PageDir.HasTable;
    var rc := c.SetAvailability(Address(n), PAGE_AVAILABLE, grant);
    ok := rc == 0;
  }

  /** The part of that case after the page has been offered. */
  method MapCopy(d: PageDir, c: PageDir, mem: Memory, n: nat, grant: bool) returns (ok: bool)
    requires Apart(d, c, mem) && UserPage(n) && d.Entry(n).Present? && c.Space()[n].Absent?
    requires (d.Entry(n).rw == READ_ONLY || d.Entry(n).rw == READ_WRITE) && c.HasTable(n)
    modifies c.Repr, mem
    ensures c.Valid() && mem.Valid() && fresh(c.Repr - old(c.Repr))
    ensures !ok ==> Now(c, mem) == old(Now(c, mem)) && mem.allocList == []
    ensures Grown(old(c.Tables()), c.Tables(), n, grant)
    ensures ok ==> old(mem.allocList) != []
                   && Now(c, mem) == Given(old(Now(c, mem)), n, old(Holds(mem.ram, d.Entry(n).frame)), old(d.Entry(n).rw))
  {
    hide Address, PageOf, TableOf, PageDir.Tables, PageDir.Space, PageDir.Valid, PageDir.HasTable, Memory.Valid, ValidPool;
    PoolHead(mem);
    var rc := c.MapNewFrame(mem, Address(n), grant);
    ok := rc == 0;
    if ok {
      FillCopy(d, c, mem, n);
      var rc2, access := d.GetAccess(Address(n));
      var rc3 := c.SetAccess(Address(n), access);
    }
  }

  lemma PoolHead(mem: Memory)
    requires mem.Valid()
    ensures mem.allocList != [] ==> mem.allocList[0] != ZERO_FRAME
  {
    assert mem.allocList != [] ==> mem.allocList[0] in mem.allocList && Pooled(mem.allocList[0]);
  }

  /** The two memmoves, out of the parent's page and into the child's. */
  method FillCopy(d: PageDir, c: PageDir, mem: Memory, n: nat)
    requires Apart(d, c, mem) && UserPage(n) && d.Entry(n).Present? && Private(c.Space()[n])
    modifies mem`ram
    ensures c.Valid() && d.Valid() && mem.Valid()
    ensures Now(c, mem) == old(Now(c, mem)).(ram := old(mem.ram)[old(c.Space())[n].frame := Holds(old(mem.ram), old(d.Entry(n)).frame)])
    ensures c.Tables() == old(c.Tables())
  {
    assert c.Entry(n) == c.Space()[n];
    var buf := mem.At(d.Entry(n).frame);
    StorePage(c, mem, n, buf);
  }

  // -------------------------------------------------------------- the whole copy

  lemma EntryFacts(d: PageDir, s: Snapshot, n: nat)
    requires d.Valid() && UserPage(n) && d.Space() == s.space && Balanced(s.pool, s.space)
    ensures ValidSpace(s.space) && d.Entry(n) == s.space[n]
    ensures s.space[n].Present? && s.space[n].frame != ZERO_FRAME ==> s.space[n].rw == READ_ONLY || s.space[n].rw == READ_WRITE
  {
    assert ValidEntry(s.space[n]);
  }

  /** One turn of the loop in fork_ctrl_blk; `tables` is the kernel heap's answer for each
      page table of the child. */
  method CopyNext(d: PageDir, c: PageDir, mem: Memory, n: nat, ghost s: Snapshot, tables: nat -> bool) returns (ok: bool, next: nat)
    requires Apart(d, c, mem) && UserPage(n) && Copying(s, n, Now(c, mem))
    requires d.Space() == s.space && Balanced(s.pool, s.space) && OnlyGranted(KernelTables(), c.Tables(), tables)
    modifies c.Repr, mem
    ensures c.Valid() && mem.Valid() && fresh(c.Repr - old(c.Repr)) && n < next <= PAGES
    ensures if ok then Copying(s, next, Now(c, mem)) else Drawn(s, Now(c, mem))
    ensures ok ==> !ChildRefused(s.space, tables, n, next) && OnlyGranted(KernelTables(), c.Tables(), tables)
    ensures !ok ==> ChildRefused(s.space, tables, n, next) || |s.pool| < PrivateCount(s.space, n + 1)
  {
    hide Copying, Drawn, Balanced, ValidSpace, ValidEntry, PrivateCount, OnlyGranted, ChildRefused, Lacks, Grown, TableOf, Address, PageOf, PageDir.Tables, PageDir.Space, PageDir.Entry, PageDir.HasTable, PageDir.Valid, Memory.Valid;
    EntryFacts(d, s, n);
    ghost var before := c.Tables();
    LacksNothing(s.space, tables, n);
    LacksNext(s.space, before, tables, n, n, n + 1);
    next := n + 1;
    var rc, info := d.CheckUserPage(Address(n));
    if info == PdeNotPresent {
      ok, next := CopyNoTable(d, c, mem, n, s, tables);
    } else {
      match info {
        case PteNotPresent =>
          var rc2, availability := d.GetAvailability(Address(n));
          ok := CopyAvailability(c, mem, n, availability, s, tables);
        case ZeroFrameMapped =>
          ok := CopyZeroPage(c, mem, n, s, tables);
        case NewFrameMapped =>
          ok := CopyPrivatePage(d, c, mem, n, s, tables);
      }
      GrownGranted(KernelTables(), before, c.Tables(), n, tables);
    }
  }

  /** The loop of fork_ctrl_blk over all user pages: it copies them all exactly when there is
      a frame for every private one, and no page table that the child needs is refused. */
  method CopyPages(d: PageDir, c: PageDir, mem: Memory, tables: nat -> bool) returns (ok: bool)
    requires Apart(d, c, mem) && Balanced(mem.allocList, d.Space()) && c.Space() == Fresh() && c.Tables() == KernelTables()
    modifies c.Repr, mem
    ensures c.Valid() && mem.Valid() && fresh(c.Repr - old(c.Repr))
    ensures if ok then Copying(old(Now(d, mem)), PAGES, Now(c, mem)) else Drawn(old(Now(d, mem)), Now(c, mem))
    ensures ok <==> !ChildRefused(d.Space(), tables, FIRST_USER_PAGE, PAGES) && |old(mem.allocList)| >= PrivateCount(d.Space(), PAGES)
  {
    hide Copying, Drawn, Balanced, PrivateCount, Fresh, OnlyGranted, ChildRefused, PageDir.Tables, PageDir.Space, PageDir.Valid, Memory.Valid;
    ghost var s := Now(d, mem);
    ok := true;
    CopyStart(s);
    LacksNothing(s.space, tables, FIRST_USER_PAGE);
    var n := FIRST_USER_PAGE;
    while ok && n < PAGES
      invariant FIRST_USER_PAGE <= n <= PAGES && Apart(d, c, mem) && fresh(c.Repr - old(c.Repr))
      invariant if ok then Copying(s, n, Now(c, mem)) else Drawn(s, Now(c, mem))
      invariant ok ==> OnlyGranted(KernelTables(), c.Tables(), tables) && !ChildRefused(s.space, tables, FIRST_USER_PAGE, n)
      invariant !ok ==> ChildRefused(s.space, tables, FIRST_USER_PAGE, PAGES) || |s.pool| < PrivateCount(s.space, PAGES)
    {
      PrivateCountGrows(s.space, n + 1, PAGES);
      ghost var n0 := n;
      ok, n := CopyNext(d, c, mem, n, s, tables);
      ChildRefusedWider(s.space, tables, FIRST_USER_PAGE, n0, n, PAGES);
    }
    if ok { CopyingIsDrawn(s, PAGES, Now(c, mem)); }
  }

  /** The address-space part of fork_ctrl_blk: null on failure. The kernel heap's answers
      are inputs: for the child's directory, for each of its page tables, for the buffer, and
      for the control blocks with the copy of the allocation list. Fork succeeds exactly when
      they are granted, as far as they are asked for, and there is a frame for every private
      page. */
  method Fork(d: PageDir, mem: Memory, dir: nat -> bool, tables: nat -> bool, buffer: bool, blocks: bool) returns (c: PageDir?)
    requires Sane(d, mem)
    modifies mem
    ensures Sane(d, mem) && d.Space() == old(d.Space())
    ensures c != null ==>
              && Sane(c, mem) && fresh(c.Repr) && c.Repr !! d.Repr
              && Copying(old(Now(d, mem)), PAGES, Now(c, mem))
    ensures c == null ==> mem.allocList == old(mem.allocList) && RamFrame(old(mem.ram), mem.ram, Members(mem.allocList))
    ensures c != null <==>
              && (forall i: nat :: i <= 4 ==> dir(i)) && buffer && blocks
              && !ChildRefused(d.Space(), tables, FIRST_USER_PAGE, PAGES) && |old(mem.allocList)| >= PrivateCount(d.Space(), PAGES)
  {
    hide Copying, Drawn, Balanced, Fresh, RamFrame, ChildRefused, PageDir.Tables, PageDir.Space, PageDir.Valid, Memory.Valid, PrivateCount;
    ghost var s := Now(d, mem);
    SameRam(s);
    c := PageDir.Construct(dir);
    if c == null {
      return;
    }
    if !buffer {
      return null;
    }
    var ok := CopyPages(d, c, mem, tables);
    if !ok || !blocks {
      if ok { CopyingIsDrawn(s, PAGES, Now(c, mem)); }
      Abandon(c, mem, s);
      return null;
    }
    CopyingIsDrawn(s, PAGES, Now(c, mem));
    CopyApart(s, PAGES, Now(c, mem));
  }

  lemma CopyingIsDrawn(s: Snapshot, n: nat, t: Snapshot)
    requires Copying(s, n, t)
    ensures Drawn(s, t) && |s.pool| >= PrivateCount(s.space, n)
  {
  }
}
