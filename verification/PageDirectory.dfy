/** Two-level page directories in the 32-bit paging format of section 4.3 of the
    Intel SDM, volume 3A, with page tables created on demand. An absent directory
    entry stands for 1024 absent pages through its available bits. */
module PageDirectory {
  import opened Basics
  import opened FramePool

  const PTE_COUNT: nat := 1024
  const PDE_COUNT: nat := 1024
  const PAGES: nat := 0x10_0000
  const FIRST_USER_PAGE: nat := 0x1000

  // available bits of absent entries
  const PAGE_UNAVAILABLE: int := 0
  const PAGE_AVAILABLE: int := 1

  // read/write bit
  const READ_ONLY: int := 0
  const READ_WRITE: int := 1

  /** A page table entry; `frame` is the frame's address. */
  datatype Pte = Absent(avail: int) | Present(frame: nat, rw: int)

  datatype Pde = NoTable(avail: int) | Table(pt: array<Pte>)

  datatype MappingInfo = PdeNotPresent | PteNotPresent | ZeroFrameMapped | NewFrameMapped

  /** A flat address space: one entry for every page number. */
  type Flat = map<nat, Pte>

  predicate UserPage(pn: nat) { FIRST_USER_PAGE <= pn < PAGES }

  ghost predicate FlatDomain(m: Flat) {
    forall pn: nat :: pn in m <==> pn < PAGES
  }

  /** The page holding an address. */
  function PageOf(vAddr: nat): nat { vAddr / PAGE_SIZE }

  /** The page table that a page's entry is in. */
  function TableOf(pn: nat): nat { pn / PTE_COUNT }

  /** At most the page table of page `pn` has been added, and only if it was granted. */
  ghost predicate Grown(before: set<nat>, after: set<nat>, pn: nat, grant: bool) {
    before <= after && forall i :: i in after ==> i in before || (grant && i == TableOf(pn))
  }

  /** The tables of the kernel pages. */
  function KernelTables(): set<nat> { {0, 1, 2, 3} }

  /** The entry kernel_page_count gives a kernel page: mapped to itself. */
  function KernelEntry(pn: nat): Pte { Present(pn * PAGE_SIZE, READ_WRITE) }

  /** In addresses: the first 16 megabytes are mapped to themselves for reading and writing,
      and nothing above. */
  lemma FreshMeans(pn: nat)
    requires pn < 0x10_0000
    ensures pn in Fresh() && Fresh()[pn] == if pn * 0x1000 < 0x100_0000 then Present(pn * 0x1000, 1) else Absent(0)
  {
  }

  /** What construct_page_dir maps. */
  ghost function Fresh(): Flat
  {
    map pn: nat | pn < PAGES :: if pn < FIRST_USER_PAGE then KernelEntry(pn) else Absent(PAGE_UNAVAILABLE)
  }

  /** A page with a frame of its own. */
  predicate Private(e: Pte) { e.Present? && e.frame != ZERO_FRAME }

  /** The frames an address space owns. */
  ghost function Frames(m: Flat): set<nat>
  {
    set pn | pn in m && UserPage(pn) && Private(m[pn]) :: m[pn].frame
  }

  predicate ValidEntry(e: Pte) {
    match e
    case Absent(a) => a == PAGE_AVAILABLE || a == PAGE_UNAVAILABLE
    case Present(f, rw) =>
      if f == ZERO_FRAME then rw == READ_ONLY
      else Pooled(f) && (rw == READ_ONLY || rw == READ_WRITE)
  }

  /** What every address space keeps: the zero frame is shared read-only, every other
      mapped frame is a managed one, and no frame is mapped twice. */
  ghost predicate ValidSpace(m: Flat) {
    && FlatDomain(m)
    && (forall pn :: pn in m && UserPage(pn) ==> ValidEntry(m[pn]))
    && (forall p, q :: p in m && q in m && UserPage(p) && UserPage(q) && p != q && Private(m[p]) && Private(m[q]) ==>
          m[p].frame != m[q].frame)
  }

  class PageDir {
    const pdes: array<Pde>
    ghost var Repr: set<object>

    /** A directory with no page tables. */
    constructor ()
      ensures Valid() && fresh(Repr)
      ensures forall i :: 0 <= i < PDE_COUNT ==> pdes[i] == NoTable(PAGE_UNAVAILABLE)
    {
      pdes := new Pde[PDE_COUNT](_ => NoTable(PAGE_UNAVAILABLE));
      new;
      Repr := {this, pdes};
    }

    /** construct_page_dir: direct mapping below the user pages, nothing above. Of the
        kernel heap's answers `grants`, the first is for the directory, the others for its
        page tables. */
    static method Construct(grants: nat -> bool) returns (d: PageDir?)
      ensures d != null <==> forall i: nat :: i <= 4 ==> grants(i)
      ensures d != null ==> d.Valid() && fresh(d.Repr) && d.Space() == Fresh() && d.Tables() == KernelTables()
    {
      if !grants(0) {
        return null;
      }
      d := new PageDir();
      var i := 0;
      while i < (FIRST_USER_PAGE + PTE_COUNT - 1) / PTE_COUNT
        invariant 0 <= i <= 4 && d.Valid() && fresh(d.Repr) && forall k: nat :: k <= i ==> grants(k)
        invariant forall pn: nat :: pn < PTE_COUNT * i ==> d.Entry(pn) == KernelEntry(pn)
        invariant forall k :: i <= k < PDE_COUNT ==> d.pdes[k] == NoTable(PAGE_UNAVAILABLE)
        invariant forall k :: 0 <= k < i ==> d.pdes[k].Table?
      {
        var pt := KernelTable(i, grants(i + 1));
        if pt == null {
          return null;
        }
        d.pdes[i] := Table(pt);
        d.Repr := d.Repr + {pt};
        i := i + 1;
      }
    }

    /** One page table of the direct mapping; entries past it are absent. */
    static method KernelTable(i: nat, grant: bool) returns (pt: array?<Pte>)
      ensures pt != null <==> grant
      ensures pt != null ==>
                && fresh(pt) && pt.Length == PTE_COUNT
                && forall j :: 0 <= j < PTE_COUNT ==>
                     pt[j] == if i * PTE_COUNT + j < FIRST_USER_PAGE then KernelEntry(i * PTE_COUNT + j) else Absent(PAGE_UNAVAILABLE)
    {
      if !grant {
        return null;
      }
      pt := new Pte[PTE_COUNT];
      var j := 0;
      while j < PTE_COUNT
        invariant 0 <= j <= PTE_COUNT
        invariant forall k :: 0 <= k < j ==>
                    pt[k] == if i * PTE_COUNT + k < FIRST_USER_PAGE then KernelEntry(i * PTE_COUNT + k) else Absent(PAGE_UNAVAILABLE)
      {
        var pageIdx := i * PTE_COUNT + j;
        pt[j] := if pageIdx < FIRST_USER_PAGE then KernelEntry(pageIdx) else Absent(PAGE_UNAVAILABLE);
        j := j + 1;
      }
    }

    /** destruct_page_dir, with every list node granted: every frame the directory owns goes back to the pool. */
    method Destruct(mem: Memory)
      requires Valid() && mem.Valid() && mem !in Repr && ValidSpace(Space())
      modifies mem`allocList
      ensures mem.Valid()
      ensures Members(mem.allocList) == old(Members(mem.allocList)) + Frames(Space())
    {
      ghost var m, pool := Space(), Members(mem.allocList);
      FramesBelowAll(m);
      assert FramesBelow(m, 0) == {};
      hide ValidSpace, FramesBelow, Frames;
      var i := 0;
      ghost var base := 0;
      while i < PDE_COUNT
        invariant 0 <= i <= PDE_COUNT && base == i * PTE_COUNT && mem.Valid()
        invariant Members(mem.allocList) == pool + FramesBelow(m, base)
      {
        if pdes[i].Table? {
          DestructTable(mem, i, base, pool);
        } else {
          assert forall pn: nat :: base <= pn < base + PTE_COUNT ==> pn / PTE_COUNT == i;
          FramesSkip(m, base, base + PTE_COUNT);
        }
        i := i + 1;
        base := base + PTE_COUNT;
      }
    }

    /** The inner loop of destruct_page_dir, over one page table. */
    method DestructTable(mem: Memory, i: nat, ghost base: nat, ghost pool: set<nat>)
      requires Valid() && mem.Valid() && mem !in Repr && ValidSpace(Space())
      requires i < PDE_COUNT && base == i * PTE_COUNT && pdes[i].Table?
      requires Members(mem.allocList) == pool + FramesBelow(Space(), base)
      modifies mem`allocList
      ensures mem.Valid()
      ensures Members(mem.allocList) == pool + FramesBelow(Space(), base + PTE_COUNT)
    {
      hide ValidSpace, FramesBelow, Members, Entry, Space, Memory.Valid;
      var j := 0;
      while j < PTE_COUNT
        invariant 0 <= j <= PTE_COUNT && mem.Valid()
        invariant Members(mem.allocList) == pool + FramesBelow(Space(), base + j)
      {
        ReleaseAt(mem, i, j, base + j, pool);
        j := j + 1;
      }
    }

    /** One step of that loop. */
    method ReleaseAt(mem: Memory, i: nat, j: nat, ghost n: nat, ghost pool: set<nat>)
      requires Valid() && mem.Valid() && mem !in Repr && ValidSpace(Space())
      requires i < PDE_COUNT && pdes[i].Table? && j < PTE_COUNT && n == i * PTE_COUNT + j
      requires Members(mem.allocList) == pool + FramesBelow(Space(), n)
      modifies mem`allocList
      ensures mem.Valid()
      ensures Members(mem.allocList) == pool + FramesBelow(Space(), n + 1)
    {
      assert n < PAGES && n / PTE_COUNT == i && n % PTE_COUNT == j;
      assert Space()[n] == pdes[i].pt[j];
      hide ValidSpace, FramesBelow, Members;
      Release(mem, i * PTE_COUNT + j, pdes[i].pt[j], Space(), pool);
    }

    /** destruct_page_dir on one entry. */
    static method Release(mem: Memory, n: nat, e: Pte, ghost m: Flat, ghost pool: set<nat>)
      requires mem.Valid() && ValidSpace(m) && n < PAGES && e == m[n]
      requires Members(mem.allocList) == pool + FramesBelow(m, n)
      modifies mem`allocList
      ensures mem.Valid()
      ensures Members(mem.allocList) == pool + FramesBelow(m, n + 1)
    {
      FramesNext(m, n);
      if e.Present? && n >= FIRST_USER_PAGE {
        var rc := mem.FreeFrame(e.frame, true);
      }
    }

    ghost predicate Valid()
      reads this, Repr
      ensures Valid() ==> this in Repr
    {
      && this in Repr && pdes in Repr && pdes.Length == PDE_COUNT
      && (forall i :: 0 <= i < PDE_COUNT && pdes[i].Table? ==>
            pdes[i].pt in Repr && pdes[i].pt.Length == PTE_COUNT)
      && (forall i, j :: 0 <= i < j < PDE_COUNT && pdes[i].Table? && pdes[j].Table? ==> pdes[i].pt != pdes[j].pt)
    }

    /** Page `pn` lies in a region that has a page table. */
    predicate HasTable(pn: nat)
      requires Valid() && pn < PAGES
      reads this, Repr
    {
      pdes[pn / PTE_COUNT].Table?
    }

    /** The page tables there are. */
    ghost function Tables(): (r: set<nat>)
      requires Valid()
      reads this, Repr
      ensures forall pn: nat :: pn < PAGES ==> (TableOf(pn) in r <==> HasTable(pn))
    {
      set i | 0 <= i < PDE_COUNT && pdes[i].Table?
    }

    /** The entry the hardware, or the available bits, give page `pn`. */
    function Entry(pn: nat): Pte
      requires Valid() && pn < PAGES
      reads this, Repr
    {
      match pdes[pn / PTE_COUNT]
      case NoTable(a) => Absent(a)
      case Table(pt) => pt[pn % PTE_COUNT]
    }

    /** The directory read as a flat address space. */
    ghost function Space(): (m: Flat)
      requires Valid()
      reads this, Repr
      ensures FlatDomain(m)
    {
      map pn: nat | pn < PAGES :: Entry(pn)
    }

    /** smemalign for a page table, where `grant` is the kernel heap's answer, and the
        initialization: the new entries inherit the available bits of the directory entry they replace. */
    method NewTable(avail: int, grant: bool) returns (pt: array?<Pte>)
      ensures pt != null <==> grant
      ensures pt != null ==> fresh(pt) && pt.Length == PTE_COUNT && forall i :: 0 <= i < PTE_COUNT ==> pt[i] == Absent(avail)
    {
      if !grant {
        return null;
      }
      pt := new Pte[PTE_COUNT];
      var i := 0;
      while i < PTE_COUNT
        invariant 0 <= i <= PTE_COUNT
        invariant forall j :: 0 <= j < i ==> pt[j] == Absent(avail)
      {
        pt[i] := Absent(avail);
        i := i + 1;
      }
    }

    /** Make sure page `pn` has a page table; `grant` is the kernel heap's answer if it has
        to be asked. Whether or not that succeeds, the address space is the same. */
    method EnsureTable(pn: nat, grant: bool) returns (pt: array?<Pte>)
      requires Valid() && pn < PAGES
      modifies Repr
      ensures Valid() && fresh(Repr - old(Repr)) && Space() == old(Space())
      ensures pt != null <==> old(HasTable(pn)) || grant
      ensures pt != null ==> HasTable(pn)
      ensures old(HasTable(pn)) ==> HasTable(pn)
      ensures Grown(old(Tables()), Tables(), pn, grant)
    {
      match pdes[pn / PTE_COUNT]
      case Table(t) => pt := t;
      case NoTable(a) =>
        pt := NewTable(a, grant);
        if pt != null {
          ghost var before := Space();
          pdes[pn / PTE_COUNT] := Table(pt);
          Repr := Repr + {pt};
          assert forall q: nat :: q < PAGES ==> before[q] == Entry(q);
        }
    }

    /** Overwrite the entry of a page that has a table. */
    method WriteEntry(pn: nat, e: Pte)
      requires Valid() && pn < PAGES && HasTable(pn)
      modifies Repr
      ensures Valid() && Repr == old(Repr) && Space() == old(Space())[pn := e]
      ensures HasTable(pn) && Tables() == old(Tables())
    {
      ghost var before := Space();
      pdes[pn / PTE_COUNT].pt[pn % PTE_COUNT] := e;
      assert forall q: nat :: q < PAGES ==> Entry(q) == if q == pn then e else before[q];
    }

    /** map_new_frame. It succeeds exactly on an unmapped user page, with a frame in the
        pool and a page table or the kernel heap's grant of one; on failure the address
        space and the pool are as before. */
    method MapNewFrame(mem: Memory, vAddr: nat, grant: bool) returns (rc: int)
      requires Valid() && mem.Valid() && mem !in Repr && PageOf(vAddr) < PAGES
      modifies Repr, mem`allocList
      ensures Valid() && fresh(Repr - old(Repr)) && mem.Valid()
      ensures rc == 0 ==> HasTable(PageOf(vAddr))
      ensures Grown(old(Tables()), Tables(), PageOf(vAddr), grant)
      ensures old(HasTable(PageOf(vAddr))) ==> HasTable(PageOf(vAddr))
      ensures rc == if UserPage(PageOf(vAddr)) && old(Space())[PageOf(vAddr)].Absent? && old(mem.allocList) != []
                       && (old(HasTable(PageOf(vAddr))) || grant) then 0 else -1
      ensures rc == 0 ==>
                && Space() == old(Space())[PageOf(vAddr) := Present(old(mem.allocList[0]), READ_WRITE)]
                && mem.allocList == old(mem.allocList[1..])
      ensures rc != 0 ==> Space() == old(Space()) && mem.allocList == old(mem.allocList)
    {
      var pn := PageOf(vAddr);
      if pn * PAGE_SIZE < USER_PAGE_START {
        return -1;
      }
      if Entry(pn).Present? {
        return -1;
      }
      var pt := EnsureTable(pn, grant);
      if pt == null {
        return -1;
      }
      var f := mem.AllocFrame();
      if f.None? {
        return -1;
      }
      WriteEntry(pn, Present(f.value, READ_WRITE));
      rc := 0;
    }

    /** map_zero_frame */
    method MapZeroFrame(vAddr: nat, grant: bool) returns (rc: int)
      requires Valid() && PageOf(vAddr) < PAGES
      modifies Repr
      ensures Valid() && fresh(Repr - old(Repr))
      ensures rc == 0 ==> HasTable(PageOf(vAddr))
      ensures Grown(old(Tables()), Tables(), PageOf(vAddr), grant)
      ensures old(HasTable(PageOf(vAddr))) ==> HasTable(PageOf(vAddr))
      ensures rc == if UserPage(PageOf(vAddr)) && old(Space())[PageOf(vAddr)].Absent?
                       && (old(HasTable(PageOf(vAddr))) || grant) then 0 else -1
      ensures rc == 0 ==> Space() == old(Space())[PageOf(vAddr) := Present(ZERO_FRAME, READ_ONLY)]
      ensures rc != 0 ==> Space() == old(Space())
    {
      var pn := PageOf(vAddr);
      if pn * PAGE_SIZE < USER_PAGE_START {
        return -1;
      }
      if Entry(pn).Present? {
        return -1;
      }
      var pt := EnsureTable(pn, grant);
      if pt == null {
        return -1;
      }
      WriteEntry(pn, Present(ZERO_FRAME, READ_ONLY));
      rc := 0;
    }

    /** check_user_page */
    method CheckUserPage(vAddr: nat) returns (rc: int, info: MappingInfo)
      requires Valid() && PageOf(vAddr) < PAGES
      ensures rc == if UserPage(PageOf(vAddr)) then 0 else -1
      ensures rc == 0 ==> match info
                          case PdeNotPresent => !HasTable(PageOf(vAddr)) && Entry(PageOf(vAddr)).Absent?
                          case PteNotPresent => HasTable(PageOf(vAddr)) && Entry(PageOf(vAddr)).Absent?
                          case ZeroFrameMapped => Entry(PageOf(vAddr)).Present? && Entry(PageOf(vAddr)).frame == ZERO_FRAME
                          case NewFrameMapped => Entry(PageOf(vAddr)).Present? && Entry(PageOf(vAddr)).frame != ZERO_FRAME
    {
      var pn := PageOf(vAddr);
      info := PdeNotPresent;
      if pn * PAGE_SIZE < USER_PAGE_START {
        return -1, info;
      }
      rc := 0;
      match pdes[pn / PTE_COUNT]
      case NoTable(_) =>
      case Table(pt) =>
        info := match pt[pn % PTE_COUNT]
                case Absent(_) => PteNotPresent
                case Present(f, _) => if f == ZERO_FRAME then ZeroFrameMapped else NewFrameMapped;
    }

    /** unmap_frame: the page becomes available again and its frame, unless it is the zero
        frame, goes back to the pool. `node` is the kernel heap's answer for the list node; a
        refusal, which loses the frame, is not reported. */
    method UnmapFrame(mem: Memory, vAddr: nat, node: bool) returns (rc: int)
      requires Valid() && mem.Valid() && mem !in Repr && PageOf(vAddr) < PAGES
      modifies Repr, mem`allocList
      ensures Valid() && Repr == old(Repr) && mem.Valid()
      ensures Tables() == old(Tables())
      ensures old(HasTable(PageOf(vAddr))) ==> HasTable(PageOf(vAddr))
      ensures rc == if UserPage(PageOf(vAddr)) && old(Space())[PageOf(vAddr)].Present? then 0 else -1
      ensures rc == 0 ==>
                && Space() == old(Space())[PageOf(vAddr) := Absent(PAGE_AVAILABLE)]
                && Members(mem.allocList) == old(Members(mem.allocList)) + (if node then Freed(old(Space())[PageOf(vAddr)].frame) else {})
      ensures rc != 0 ==> Space() == old(Space()) && mem.allocList == old(mem.allocList)
    {
      var pn := PageOf(vAddr);
      if pn * PAGE_SIZE < USER_PAGE_START {
        return -1;
      }
      var e := Entry(pn);
      if e.Absent? {
        return -1;
      }
      WriteEntry(pn, Absent(PAGE_AVAILABLE));
      rc := mem.FreeFrame(e.frame, node);
      rc := 0;
    }

    /** set_access */
    method SetAccess(vAddr: nat, access: int) returns (rc: int)
      requires Valid() && PageOf(vAddr) < PAGES
      modifies Repr
      ensures Valid() && Repr == old(Repr)
      ensures Tables() == old(Tables())
      ensures old(HasTable(PageOf(vAddr))) ==> HasTable(PageOf(vAddr))
      ensures rc == if UserPage(PageOf(vAddr)) && old(Space())[PageOf(vAddr)].Present? && (access == READ_ONLY || access == READ_WRITE)
                    then 0 else -1
      ensures rc == 0 ==> Space() == old(Space())[PageOf(vAddr) := Present(old(Space())[PageOf(vAddr)].frame, access)]
      ensures rc != 0 ==> Space() == old(Space())
    {
      var pn := PageOf(vAddr);
      if pn * PAGE_SIZE < USER_PAGE_START {
        return -1;
      }
      var e := Entry(pn);
      if e.Absent? {
        return -1;
      }
      if access != READ_ONLY && access != READ_WRITE {
        return -1;
      }
      WriteEntry(pn, e.(rw := access));
      rc := 0;
    }

    /** get_access */
    method GetAccess(vAddr: nat) returns (rc: int, access: int)
      requires Valid() && PageOf(vAddr) < PAGES
      ensures rc == if UserPage(PageOf(vAddr)) && Entry(PageOf(vAddr)).Present? then 0 else -1
      ensures rc == 0 ==> access == Entry(PageOf(vAddr)).rw
    {
      var pn := PageOf(vAddr);
      access := 0;
      if pn * PAGE_SIZE < USER_PAGE_START || Entry(pn).Absent? {
        return -1, access;
      }
      return 0, Entry(pn).rw;
    }

    /** set_availability */
    method SetAvailability(vAddr: nat, availability: int, grant: bool) returns (rc: int)
      requires Valid() && PageOf(vAddr) < PAGES
      modifies Repr
      ensures Valid() && fresh(Repr - old(Repr))
      ensures Grown(old(Tables()), Tables(), PageOf(vAddr), grant)
      ensures old(HasTable(PageOf(vAddr))) ==> HasTable(PageOf(vAddr))
      ensures rc == if UserPage(PageOf(vAddr)) && old(Space())[PageOf(vAddr)].Absent?
                       && (availability == PAGE_AVAILABLE || availability == PAGE_UNAVAILABLE)
                       && (old(HasTable(PageOf(vAddr))) || grant || old(Space())[PageOf(vAddr)] == Absent(availability)) then 0 else -1
      ensures rc == 0 ==> Space() == old(Space())[PageOf(vAddr) := Absent(availability)]
      ensures rc != 0 ==> Space() == old(Space())
      ensures rc == 0 && old(Space())[PageOf(vAddr)] != Absent(availability) ==> HasTable(PageOf(vAddr))
    {
      if !(availability == PAGE_AVAILABLE || availability == PAGE_UNAVAILABLE) {
        return -1;
      }
      var pn := PageOf(vAddr);
      if pn * PAGE_SIZE < USER_PAGE_START {
        return -1;
      }
      if pdes[pn / PTE_COUNT].NoTable? && pdes[pn / PTE_COUNT].avail == availability {
        assert Entry(pn) == Absent(availability);
        assert Space() == Space()[pn := Absent(availability)];
        return 0;
      }
      if Entry(pn).Present? {
        return -1;
      }
      var pt := EnsureTable(pn, grant);
      if pt == null {
        return -1;
      }
      WriteEntry(pn, Absent(availability));
      rc := 0;
    }

    /** get_availability */
    method GetAvailability(vAddr: nat) returns (rc: int, availability: int)
      requires Valid() && PageOf(vAddr) < PAGES
      ensures rc == if UserPage(PageOf(vAddr)) && Entry(PageOf(vAddr)).Absent? then 0 else -1
      ensures rc == 0 ==> availability == Entry(PageOf(vAddr)).avail
    {
      var pn := PageOf(vAddr);
      availability := 0;
      if pn * PAGE_SIZE < USER_PAGE_START {
        return -1, availability;
      }
      match Entry(pn)
      case Absent(a) => return 0, a;
      case Present(_, _) => return -1, availability;
    }
  }

  /** What free_frame adds to the pool. */
  function Freed(f: nat): set<nat>
  {
    if Pooled(f / PAGE_SIZE * PAGE_SIZE) then {f / PAGE_SIZE * PAGE_SIZE} else {}
  }

  /** The frames owned by the pages below `n`. */
  ghost function FramesBelow(m: Flat, n: nat): set<nat>
  {
    set pn | pn in m && pn < n && UserPage(pn) && Private(m[pn]) :: m[pn].frame
  }

  lemma FramesBelowAll(m: Flat)
    ensures FramesBelow(m, PAGES) == Frames(m)
  {
  }

  lemma FramesNext(m: Flat, n: nat)
    requires ValidSpace(m) && n < PAGES
    ensures FramesBelow(m, n + 1) == FramesBelow(m, n) + if UserPage(n) && m[n].Present? then Freed(m[n].frame) else {}
  {
    if UserPage(n) && m[n].Present? {
      assert ValidEntry(m[n]);
      assert m[n].frame / PAGE_SIZE * PAGE_SIZE == m[n].frame;
    }
    forall f
      ensures f in FramesBelow(m, n + 1) <==> f in FramesBelow(m, n) || (UserPage(n) && Private(m[n]) && f == m[n].frame)
    {
    }
  }

  lemma FramesSkip(m: Flat, n: nat, n': nat)
    requires n <= n' && FlatDomain(m)
    requires forall pn :: n <= pn < n' && pn in m ==> m[pn].Absent?
    ensures FramesBelow(m, n') == FramesBelow(m, n)
  {
  }
}
