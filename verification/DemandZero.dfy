/** Demand-zero memory: the page fault handler, and the proof that user code running
    over it sees flat memory. */
module DemandZero {
  import opened Basics
  import opened FramePool
  import opened PageDirectory
  import opened AddressSpace

  /** User code may read the page. */
  predicate Readable(m: Flat, pn: nat) {
    pn in m && UserPage(pn) && (m[pn].Present? || m[pn].avail == PAGE_AVAILABLE)
  }

  /** User code may read and write the same pages in both spaces. */
  ghost predicate SamePermissions(m: Flat, m': Flat) {
    forall pn :: (Readable(m', pn) <==> Readable(m, pn)) && (Writable(m', pn) <==> Writable(m, pn))
  }

  /** What faults may do: move frames between the pool and the space, and write frames
      taken from the pool, so that the program sees the same memory. */
  ghost predicate Unseen(s: Snapshot, t: Snapshot) {
    && InOrder(t)
    && Owned(t.pool, t.space) == Owned(s.pool, s.space)
    && Views(t.space, t.ram) == Views(s.space, s.ram)
    && SamePermissions(s.space, t.space)
    && RamFrame(s.ram, t.ram, Members(s.pool))
  }

  /** The outcome of mapping page `pn`, for reading or for writing. */
  ghost predicate Mapped(m: Flat, pn: nat, wr: int) {
    pn in m && if wr == 0 then m[pn] == Present(ZERO_FRAME, READ_ONLY) else Private(m[pn]) && m[pn].rw == READ_WRITE
  }

  // ------------------------------------------------------------- single steps

  /** map_zero_frame on an available page; `grant` is the kernel heap's answer should a
      page table be needed. */
  method MapZeroPage(d: PageDir, mem: Memory, vAddr: nat, ghost pn: nat, grant: bool) returns (ok: bool)
    requires Sane(d, mem) && pn == PageOf(vAddr) && UserPage(pn) && d.Entry(pn) == Absent(PAGE_AVAILABLE)
    modifies d.Repr
    ensures Sane(d, mem) && fresh(d.Repr - old(d.Repr)) && Unseen(old(Now(d, mem)), Now(d, mem))
    ensures ok <==> old(d.HasTable(pn)) || grant
    ensures if ok then Mapped(d.Space(), pn, 0) else Now(d, mem) == old(Now(d, mem))
    ensures old(d.Tables()) <= d.Tables()
  {
    hide Balanced, Unseen, PageOf, PageDir.HasTable, PageDir.Tables, PageDir.Space, PageDir.Valid, PageDir.Entry;
    SpaceEntry(d, pn);
    ZeroStep(Now(d, mem), pn);
    var rc := d.MapZeroFrame(vAddr, grant);
    ok := rc == 0;
  }

  lemma ZeroStep(s: Snapshot, pn: nat)
    requires InOrder(s) && UserPage(pn) && s.space[pn] == Absent(PAGE_AVAILABLE)
    ensures var m' := s.space[pn := Present(ZERO_FRAME, READ_ONLY)];
            Balanced(s.pool, m') && Unseen(s, s.(space := m')) && Unseen(s, s)
  {
    SharedKeeps(s.pool, s.space, pn, Present(ZERO_FRAME, READ_ONLY));
    ZeroPageView(s.space, s.ram, pn);
  }

  /** map_new_frame followed by clearing the page, on an available page. */
  method MapCleared(d: PageDir, mem: Memory, vAddr: nat, ghost pn: nat, grant: bool) returns (ok: bool)
    requires Sane(d, mem) && pn == PageOf(vAddr) && UserPage(pn) && d.Entry(pn) == Absent(PAGE_AVAILABLE)
    modifies d.Repr, mem
    ensures Sane(d, mem) && fresh(d.Repr - old(d.Repr)) && Unseen(old(Now(d, mem)), Now(d, mem))
    ensures ok <==> old(mem.allocList) != [] && (old(d.HasTable(pn)) || grant)
    ensures if ok then Mapped(d.Space(), pn, 1) && mem.allocList == old(mem.allocList)[1..] else Now(d, mem) == old(Now(d, mem))
    ensures old(d.Tables()) <= d.Tables()
  {
    hide Balanced, Unseen, PageOf, PageDir.HasTable, PageDir.Tables, PageDir.Space, PageDir.Valid, PageDir.Entry;
    SpaceEntry(d, pn);
    ClearedStep(Now(d, mem), pn);
    var rc := d.MapNewFrame(mem, vAddr, grant);
    ok := rc == 0;
    SpaceEntry(d, pn);
    if ok {
      ClearPage(d, mem, vAddr);
    }
  }

  /** Mapping the first pooled frame and clearing it is unseen. */
  lemma ClearedStep(s: Snapshot, pn: nat)
    requires InOrder(s) && UserPage(pn) && s.space[pn] == Absent(PAGE_AVAILABLE)
    ensures Unseen(s, s)
    ensures s.pool != [] ==>
              var f := s.pool[0]; var m' := s.space[pn := Present(f, READ_WRITE)];
              Private(m'[pn]) && Balanced(s.pool[1..], m') && Unseen(s, Snapshot(s.pool[1..], m', s.ram[f := Zeros()]))
  {
    if s.pool != [] {
      var f := s.pool[0];
      MapKeeps(s.pool, s.space, pn);
      assert f in Members(s.pool) && Pooled(f);
      ClearedView(s.space, s.ram, pn, f, Members(s.pool));
    }
  }

  /** unmap_frame on a page mapped to the zero frame. */
  method UnmapZero(d: PageDir, mem: Memory, vAddr: nat, ghost pn: nat)
    requires Sane(d, mem) && pn == PageOf(vAddr) && UserPage(pn) && pn < PAGES
    requires d.Entry(pn).Present? && d.Entry(pn).frame == ZERO_FRAME
    modifies d.Repr, mem`allocList
    ensures Sane(d, mem) && d.Repr == old(d.Repr) && Unseen(old(Now(d, mem)), Now(d, mem))
    ensures mem.allocList == old(mem.allocList) && d.Entry(pn) == Absent(PAGE_AVAILABLE) && d.HasTable(pn)
    ensures old(d.Tables()) <= d.Tables()
  {
    hide Unseen, PageOf, PageDir.HasTable, PageDir.Tables, PageDir.Space, PageDir.Valid, PageDir.Entry;
    ghost var s := Now(d, mem);
    SpaceEntry(d, pn);
    UnmapStep(s, pn);
    var rc := d.UnmapFrame(mem, vAddr, true);
    PoolUnique(s.pool, mem.allocList);
    SpaceEntry(d, pn);
  }

  lemma UnmapStep(s: Snapshot, pn: nat)
    requires InOrder(s) && UserPage(pn) && s.space[pn].Present? && s.space[pn].frame == ZERO_FRAME
    ensures var m' := s.space[pn := Absent(PAGE_AVAILABLE)];
            Balanced(s.pool, m') && Unseen(s, s.(space := m'))
  {
    SharedKeeps(s.pool, s.space, pn, Absent(PAGE_AVAILABLE));
    UnmapZeroView(s.space, s.ram, pn);
  }

  lemma UnseenTrans(s: Snapshot, t: Snapshot, u: Snapshot)
    requires Unseen(s, t) && Unseen(t, u) && s.pool == t.pool
    ensures Unseen(s, u)
  {
  }

  /** Unmapping the zero frame and mapping a cleared frame instead: possible exactly while
      there is a frame in the pool, since the page has a page table. */
  method ReplaceZeroPage(d: PageDir, mem: Memory, vAddr: nat, ghost pn: nat, grant: bool) returns (ok: bool)
    requires Sane(d, mem) && pn == PageOf(vAddr) && UserPage(pn)
    requires d.Entry(pn).Present? && d.Entry(pn).frame == ZERO_FRAME
    modifies d.Repr, mem
    ensures Sane(d, mem) && fresh(d.Repr - old(d.Repr)) && Unseen(old(Now(d, mem)), Now(d, mem))
    ensures ok <==> old(mem.allocList) != []
    ensures if ok then Mapped(d.Space(), pn, 1) && mem.allocList == old(mem.allocList)[1..] else mem.allocList == []
    ensures old(d.Tables()) <= d.Tables()
  {
    hide Balanced, Unseen, PageOf, PageDir.HasTable, PageDir.Tables, PageDir.Space, PageDir.Valid, Memory.Valid, PageDir.Entry;
    ghost var s := Now(d, mem);
    UnmapZero(d, mem, vAddr, pn);
    ghost var t := Now(d, mem);
    ok := MapCleared(d, mem, vAddr, pn, grant);
    UnseenTrans(s, t, Now(d, mem));
  }

  lemma ZeroPageView(m: Flat, ram: map<nat, Contents>, pn: nat)
    requires FlatDomain(m) && UserPage(pn) && m[pn] == Absent(PAGE_AVAILABLE)
    requires ZERO_FRAME in ram && ram[ZERO_FRAME] == Zeros()
    ensures Views(m[pn := Present(ZERO_FRAME, READ_ONLY)], ram) == Views(m, ram)
  {
  }

  lemma UnmapZeroView(m: Flat, ram: map<nat, Contents>, pn: nat)
    requires FlatDomain(m) && UserPage(pn) && m[pn].Present? && m[pn].frame == ZERO_FRAME
    requires ZERO_FRAME in ram && ram[ZERO_FRAME] == Zeros()
    ensures Views(m[pn := Absent(PAGE_AVAILABLE)], ram) == Views(m, ram)
  {
  }

  /** A cleared frame from the pool shows the zeros the page already stood for, and no
      other page of the space sees it. */
  lemma ClearedView(m: Flat, ram: map<nat, Contents>, pn: nat, f: nat, pool: set<nat>)
    requires ValidSpace(m) && UserPage(pn) && m[pn] == Absent(PAGE_AVAILABLE)
    requires f in pool && pool !! Frames(m) && f != ZERO_FRAME
    ensures Views(m[pn := Present(f, READ_WRITE)], ram[f := Zeros()]) == Views(m, ram)
    ensures RamFrame(ram, ram[f := Zeros()], pool)
  {
    var m', ram' := m[pn := Present(f, READ_WRITE)], ram[f := Zeros()];
    forall q: nat | q < PAGES
      ensures View(m', ram', q) == View(m, ram, q)
    {
      if q != pn && UserPage(q) && Private(m[q]) { assert m[q].frame in Frames(m); }
    }
  }

  // ------------------------------------------------------------- the handler

  /** The faults the handler repairs: on an available unmapped page with a page table, or
      the grant of one, and for writing a frame in the pool; and on a page mapped to the
      zero frame with a frame in the pool. */
  ghost predicate Repairable(s: Snapshot, pn: nat, p: int, wr: int, table: bool) {
    && pn in s.space && UserPage(pn)
    && if p == 0 then s.space[pn] == Absent(PAGE_AVAILABLE) && table && (wr == 0 || s.pool != [])
       else s.space[pn].Present? && s.space[pn].frame == ZERO_FRAME && s.pool != []
  }

  /** handle_page_fault. `p` is the protection bit of the error code and `wr` the write
      bit; the handler repairs the page exactly when it can be repaired, and kills the
      thread otherwise. */
  method HandlePageFault(d: PageDir, mem: Memory, vAddr: nat, p: int, wr: int, ghost pn: nat, grant: bool) returns (handled: bool)
    requires Sane(d, mem) && pn == PageOf(vAddr) && pn < PAGES
    requires UserPage(pn) ==> (p == 0 <==> d.Entry(pn).Absent?)
    modifies d.Repr, mem
    ensures Sane(d, mem) && fresh(d.Repr - old(d.Repr)) && Unseen(old(Now(d, mem)), Now(d, mem))
    ensures handled <==> Repairable(old(Now(d, mem)), pn, p, wr, old(d.HasTable(pn)) || grant)
    ensures handled ==> Mapped(d.Space(), pn, if p == 0 then wr else 1)
    ensures mem.allocList == if handled && (p != 0 || wr != 0) then old(mem.allocList)[1..] else old(mem.allocList)
    ensures old(d.Tables()) <= d.Tables()
  {
    hide Balanced, Unseen, View, PageOf, PageDir.HasTable, PageDir.Tables, PageDir.Space, PageDir.Valid, PageDir.Entry;
    SpaceEntry(d, pn);
    UnseenSelf(Now(d, mem));
    if p == 0 {
      handled := AbsentFault(d, mem, vAddr, wr, pn, grant);
    } else {
      handled := false;
      var rc, info := d.CheckUserPage(vAddr);
      if rc == 0 && info == ZeroFrameMapped {
        handled := ReplaceZeroPage(d, mem, vAddr, pn, grant);
      }
    }
  }

  lemma UnseenSelf(s: Snapshot)
    requires InOrder(s)
    ensures Unseen(s, s)
  {
  }

  /** The handler on a page that is not mapped. */
  method AbsentFault(d: PageDir, mem: Memory, vAddr: nat, wr: int, ghost pn: nat, grant: bool) returns (handled: bool)
    requires Sane(d, mem) && pn == PageOf(vAddr) && pn < PAGES
    requires UserPage(pn) ==> d.Entry(pn).Absent?
    modifies d.Repr, mem
    ensures Sane(d, mem) && fresh(d.Repr - old(d.Repr)) && Unseen(old(Now(d, mem)), Now(d, mem))
    ensures handled <==> Repairable(old(Now(d, mem)), pn, 0, wr, old(d.HasTable(pn)) || grant)
    ensures handled ==> Mapped(d.Space(), pn, wr)
    ensures mem.allocList == if handled && wr != 0 then old(mem.allocList)[1..] else old(mem.allocList)
    ensures old(d.Tables()) <= d.Tables()
  {
    hide Balanced, Unseen, View, PageOf, PageDir.HasTable, PageDir.Tables, PageDir.Space, PageDir.Valid, PageDir.Entry;
    SpaceEntry(d, pn);
    UnseenSelf(Now(d, mem));
    handled := false;
    var rc, availability := d.GetAvailability(vAddr);
    if rc == 0 && availability == PAGE_AVAILABLE {
      if wr == 0 {
        handled := MapZeroPage(d, mem, vAddr, pn, grant);
      } else {
        handled := MapCleared(d, mem, vAddr, pn, grant);
      }
    }
  }

  // ------------------------------------------------------------ user accesses

  /** User-mode accesses to one byte. */
  datatype UserAccess = Load(pn: nat, ofs: nat) | Store(pn: nat, ofs: nat, byte: bv8)

  predicate GoodAccess(op: UserAccess) { op.pn < PAGES && op.ofs < PAGE_SIZE }

  /** The access succeeds: it is allowed, and the memory it needs is there. */
  ghost predicate Doable(op: UserAccess, s: Snapshot, table: bool) {
    && op.pn in s.space && UserPage(op.pn)
    && match s.space[op.pn]
       case Absent(a) => a == PAGE_AVAILABLE && table && (op.Store? ==> s.pool != [])
       case Present(f, rw) => op.Store? ==> if f == ZERO_FRAME then s.pool != [] else rw == READ_WRITE
  }

  /** User code may do the access. */
  ghost predicate Allowed(op: UserAccess, m: Flat) { if op.Load? then Readable(m, op.pn) else Writable(m, op.pn) }

  /** The effect of a completed store on the memory the program sees. */
  ghost predicate Stored(pn: nat, ofs: nat, byte: bv8, s: Snapshot, t: Snapshot) {
    && pn < PAGES && ofs < PAGE_SIZE && View(s.space, s.ram, pn).Some?
    && Views(t.space, t.ram) == Views(s.space, s.ram)[pn := Some(View(s.space, s.ram, pn).value[ofs := byte])]
  }

  /** A user-mode load: the access, the fault if there is one, and the retry. None
      when the thread is killed. */
  method UserLoad(d: PageDir, mem: Memory, pn: nat, ofs: nat, grant: bool) returns (r: Option<bv8>)
    requires Sane(d, mem) && pn < PAGES && ofs < PAGE_SIZE
    modifies d.Repr, mem
    ensures Sane(d, mem) && fresh(d.Repr - old(d.Repr)) && Unseen(old(Now(d, mem)), Now(d, mem)) && mem.allocList == old(mem.allocList)
    ensures r.Some? <==> Doable(Load(pn, ofs), old(Now(d, mem)), old(d.HasTable(pn)) || grant)
    ensures r.Some? ==> View(old(d.Space()), old(mem.ram), pn).Some? && r.value == View(old(d.Space()), old(mem.ram), pn).value[ofs]
    ensures old(d.Tables()) <= d.Tables()
  {
    hide Balanced, Unseen, PageOf, ValidSpace, Frames, Owned, RamFrame, PageDir.HasTable, PageDir.Tables, PageDir.Space, PageDir.Valid, PageDir.Entry;
    ghost var s := Now(d, mem);
    SpaceEntry(d, pn);
    UnseenSelf(s);
    var vAddr := pn * PAGE_SIZE + ofs;
    PageOfByte(pn, ofs);
    if !UserPage(pn) || d.Entry(pn).Absent? {
      var handled := HandlePageFault(d, mem, vAddr, if UserPage(pn) then 0 else 1, 0, pn, grant);
      if !handled {
        return None;
      }
    }
    SpaceEntry(d, pn);
    SameView(s, Now(d, mem), pn);
    r := Some(mem.At(d.Entry(pn).frame)[ofs]);
  }

  lemma PageOfByte(pn: nat, ofs: nat)
    requires ofs < PAGE_SIZE
    ensures PageOf(pn * PAGE_SIZE + ofs) == pn
  {
  }

  lemma SameView(s: Snapshot, t: Snapshot, pn: nat)
    requires Unseen(s, t) && pn < PAGES
    ensures View(t.space, t.ram, pn) == View(s.space, s.ram, pn)
  {
    assert Views(t.space, t.ram)[pn] == Views(s.space, s.ram)[pn];
  }

  /** The fault a user-mode store takes when the page is not mapped for writing. */
  method FaultForStore(d: PageDir, mem: Memory, pn: nat, ofs: nat, ghost byte: bv8, grant: bool) returns (ok: bool)
    requires Sane(d, mem) && pn < PAGES && ofs < PAGE_SIZE
    modifies d.Repr, mem
    ensures Sane(d, mem) && fresh(d.Repr - old(d.Repr)) && Unseen(old(Now(d, mem)), Now(d, mem))
    ensures ok <==> Doable(Store(pn, ofs, byte), old(Now(d, mem)), old(d.HasTable(pn)) || grant)
    ensures ok ==> UserPage(pn) && Mapped(d.Space(), pn, 1)
    ensures |mem.allocList| + 1 >= |old(mem.allocList)|
    ensures old(d.Tables()) <= d.Tables()
  {
    hide Balanced, Unseen, PageOf, PageDir.HasTable, PageDir.Tables, PageDir.Space, PageDir.Valid, PageDir.Entry;
    SpaceEntry(d, pn);
    UnseenSelf(Now(d, mem));
    WritableEntry(Now(d, mem), pn);
    var vAddr := pn * PAGE_SIZE + ofs;
    PageOfByte(pn, ofs);
    if UserPage(pn) && d.Entry(pn).Present? && d.Entry(pn).rw == READ_WRITE {
      return true;
    }
    ok := HandlePageFault(d, mem, vAddr, if UserPage(pn) && d.Entry(pn).Absent? then 0 else 1, 1, pn, grant);
  }

  /** The zero frame is never mapped for writing. */
  lemma WritableEntry(s: Snapshot, pn: nat)
    requires InOrder(s)
    ensures UserPage(pn) && s.space[pn].Present? && s.space[pn].rw == READ_WRITE ==> Private(s.space[pn])
  {
    assert UserPage(pn) ==> ValidEntry(s.space[pn]);
  }

  /** A user-mode store of one byte. */
  method UserStore(d: PageDir, mem: Memory, pn: nat, ofs: nat, byte: bv8, grant: bool) returns (ok: bool)
    requires Sane(d, mem) && pn < PAGES && ofs < PAGE_SIZE
    modifies d.Repr, mem
    ensures Sane(d, mem) && fresh(d.Repr - old(d.Repr))
    ensures Step(old(Now(d, mem)), Now(d, mem))
    ensures ok <==> Doable(Store(pn, ofs, byte), old(Now(d, mem)), old(d.HasTable(pn)) || grant)
    ensures if ok then Stored(pn, ofs, byte, old(Now(d, mem)), Now(d, mem)) else Views(d.Space(), mem.ram) == old(Views(d.Space(), mem.ram))
    ensures SamePermissions(old(d.Space()), d.Space()) && |mem.allocList| + 1 >= |old(mem.allocList)|
    ensures old(d.Tables()) <= d.Tables()
  {
    hide Step, Balanced, Unseen, Views, View, Writable, SamePermissions, Doable, Stored, ValidSpace, Frames, Owned, RamFrame, Mapped, PageDir.Valid, PageDir.Tables, PageDir.Space, Memory.Valid, PageDir.Entry, PageDir.HasTable;
    ghost var s := Now(d, mem);
    ok := FaultForStore(d, mem, pn, ofs, byte, grant);
    UnseenStore(s, Now(d, mem), pn, ofs, byte);
    SpaceEntry(d, pn);
    if ok {
      var page := mem.At(d.Entry(pn).frame);
      StorePage(d, mem, pn, page[ofs := byte]);
    }
    SaneStep(d, mem, s);
  }

  lemma SaneStep(d: PageDir, mem: Memory, s: Snapshot)
    requires Sane(d, mem) && Owned(mem.allocList, d.Space()) == Owned(s.pool, s.space) && RamFrame(s.ram, mem.ram, Owned(s.pool, s.space))
    ensures Step(s, Now(d, mem))
  {
  }

  lemma UnseenStore(s: Snapshot, t: Snapshot, pn: nat, ofs: nat, byte: bv8)
    requires Unseen(s, t) && pn < PAGES && ofs < PAGE_SIZE
    ensures Owned(t.pool, t.space) == Owned(s.pool, s.space) && SamePermissions(s.space, t.space)
    ensures Views(t.space, t.ram) == Views(s.space, s.ram)
    ensures RamFrame(s.ram, t.ram, Owned(s.pool, s.space))
    ensures UserPage(pn) && Mapped(t.space, pn, 1) ==>
              var f := t.space[pn].frame;
              var ram' := t.ram[f := Holds(t.ram, f)[ofs := byte]];
              Private(t.space[pn]) && Stored(pn, ofs, byte, s, t.(ram := ram')) && RamFrame(s.ram, ram', Owned(s.pool, s.space))
  {
    if UserPage(pn) && Mapped(t.space, pn, 1) {
      SameView(s, t, pn);
      StoreView(t.space, t.ram, pn, Holds(t.ram, t.space[pn].frame)[ofs := byte]);
      assert Frames(t.space) <= Owned(s.pool, s.space);
    }
  }

  lemma StoreView(m: Flat, ram: map<nat, Contents>, pn: nat, data: Contents)
    requires ValidSpace(m) && UserPage(pn) && Private(m[pn])
    ensures Views(m, ram[m[pn].frame := data]) == Views(m, ram)[pn := Some(data)]
    ensures m[pn].frame in Frames(m)
  {
    var ram' := ram[m[pn].frame := data];
    forall q: nat | q < PAGES
      ensures View(m, ram', q) == if q == pn then Some(data) else View(m, ram, q)
    {
    }
  }

  // --------------------------------------------------------------- whole runs

  type FlatMemory = map<nat, Option<Contents>>

  /** A store on plain flat memory. */
  function FlatStore(v: FlatMemory, pn: nat, ofs: nat, byte: bv8): FlatMemory {
    if pn in v && v[pn].Some? && ofs < PAGE_SIZE then v[pn := Some(v[pn].value[ofs := byte])] else v
  }

  /** The accesses on plain flat memory. */
  ghost function FlatFinal(v: FlatMemory, ops: seq<UserAccess>): FlatMemory
  {
    if ops == [] then v
    else match ops[|ops| - 1]
      case Load(_, _) => FlatFinal(v, ops[..|ops| - 1])
      case Store(pn, ofs, byte) => FlatStore(FlatFinal(v, ops[..|ops| - 1]), pn, ofs, byte)
  }

  ghost function FlatLoads(v: FlatMemory, ops: seq<UserAccess>): seq<bv8>
  {
    if ops == [] then []
    else
      var init := ops[..|ops| - 1];
      match ops[|ops| - 1]
      case Load(pn, ofs) =>
        var now := FlatFinal(v, init);
        FlatLoads(v, init) + [if pn in now && now[pn].Some? && ofs < PAGE_SIZE then now[pn].value[ofs] else 0]
      case Store(_, _, _) => FlatLoads(v, init)
  }

  /** The trace of a run so far: what flat memory would hold and what it would return. */
  ghost predicate Tracks(v: FlatMemory, ops: seq<UserAccess>, now: FlatMemory, loads: seq<bv8>) {
    now == FlatFinal(v, ops) && loads == FlatLoads(v, ops)
  }

  lemma TracksNext(v: FlatMemory, ops: seq<UserAccess>, done: nat, s: Snapshot, loads: seq<bv8>)
    requires done < |ops| && GoodAccess(ops[done]) && Tracks(v, ops[..done], Views(s.space, s.ram), loads)
    ensures ops[done].Load? && View(s.space, s.ram, ops[done].pn).Some? ==>
              Tracks(v, ops[..done + 1], Views(s.space, s.ram), loads + [View(s.space, s.ram, ops[done].pn).value[ops[done].ofs]])
    ensures forall t :: ops[done].Store? && Stored(ops[done].pn, ops[done].ofs, ops[done].byte, s, t) ==>
              Tracks(v, ops[..done + 1], Views(t.space, t.ram), loads)
  {
    assert ops[..done + 1][..done] == ops[..done];
  }

  /** How many of the first `n` accesses are stores; each takes at most one frame. */
  function Stores(ops: seq<UserAccess>, n: nat): nat
    requires n <= |ops|
  {
    if n == 0 then 0 else Stores(ops, n - 1) + if ops[n - 1].Store? then 1 else 0
  }

  lemma {:induction false} StoresCount(ops: seq<UserAccess>, n: nat)
    requires n <= |ops|
    ensures Stores(ops, n) == |set i | 0 <= i < n && ops[i].Store?|
  {
    if n > 0 {
      StoresCount(ops, n - 1);
      var before := set i | 0 <= i < n - 1 && ops[i].Store?;
      var now := set i | 0 <= i < n && ops[i].Store?;
      assert now == if ops[n - 1].Store? then before + {n - 1} else before;
    }
  }

  lemma {:induction false} StoresGrow(ops: seq<UserAccess>, n: nat, n': nat)
    requires n <= n' <= |ops|
    ensures Stores(ops, n) <= Stores(ops, n')
  {
    if n < n' { StoresGrow(ops, n, n' - 1); }
  }

  /** An access that is allowed fails only for want of a frame or of a page table. */
  lemma WhyNot(op: UserAccess, s: Snapshot, table: bool)
    requires InOrder(s) && !Doable(op, s, table)
    ensures !Allowed(op, s.space) || (op.Store? && s.pool == []) || !table
  {
  }

  /** One access of a run. */
  method OneAccess(d: PageDir, mem: Memory, op: UserAccess, grant: bool) returns (ok: bool, r: bv8)
    requires Sane(d, mem) && GoodAccess(op)
    modifies d.Repr, mem
    ensures Sane(d, mem) && fresh(d.Repr - old(d.Repr))
    ensures Step(old(Now(d, mem)), Now(d, mem))
    ensures ok <==> Doable(op, old(Now(d, mem)), old(d.HasTable(op.pn)) || grant)
    ensures if ok then Did(op, r, old(Now(d, mem)), Now(d, mem)) else Views(d.Space(), mem.ram) == old(Views(d.Space(), mem.ram))
    ensures SamePermissions(old(d.Space()), d.Space())
    ensures |mem.allocList| + (if op.Store? then 1 else 0) >= |old(mem.allocList)|
    ensures old(d.Tables()) <= d.Tables()
  {
    match op
    case Load(pn, ofs) =>
      var l := UserLoad(d, mem, pn, ofs, grant);
      ok, r := l.Some?, if l.Some? then l.value else 0;
    case Store(pn, ofs, byte) =>
      r := 0;
      ok := UserStore(d, mem, pn, ofs, byte, grant);
  }

  /** An access that flat memory would have done the same way. */
  ghost predicate Did(op: UserAccess, r: bv8, s: Snapshot, t: Snapshot) {
    match op
    case Load(pn, ofs) =>
      Views(t.space, t.ram) == Views(s.space, s.ram) && View(s.space, s.ram, pn).Some? && ofs < PAGE_SIZE
      && r == View(s.space, s.ram, pn).value[ofs]
    case Store(pn, ofs, byte) => Stored(pn, ofs, byte, s, t)
  }

  /** Why a run may stop at access `i`: user code was never allowed to do it, the stores
      before it may have used up the pool, or a page table was refused. */
  ghost predicate StopsAt(ops: seq<UserAccess>, i: nat, m: Flat, frames: nat, there: set<nat>, grants: nat -> bool)
    requires i < |ops|
  {
    !Allowed(ops[i], m) || (ops[i].Store? && frames <= Stores(ops, i)) || !Served(ops, i, there, grants)
  }

  /** The page has had its page table from the start, or would be granted one. */
  predicate Served(ops: seq<UserAccess>, i: nat, there: set<nat>, grants: nat -> bool)
    requires i < |ops|
  {
    TableOf(ops[i].pn) in there || grants(i)
  }

  /** Demand-zero transparency: any sequence of user loads and stores, with the faults
      they cause, returns what a flat memory would and leaves what it would. It is cut
      short only at an access that is not allowed, or when the stores outnumber the frames
      in the pool, or by the kernel heap's refusal of a missing page table; `grants` is its answer
      at each access. */
  method RunAccesses(d: PageDir, mem: Memory, ops: seq<UserAccess>, grants: nat -> bool) returns (loads: seq<bv8>, done: nat)
    requires Sane(d, mem) && forall op :: op in ops ==> GoodAccess(op)
    modifies d.Repr, mem
    ensures Sane(d, mem) && done <= |ops|
    ensures Tracks(old(Views(d.Space(), mem.ram)), ops[..done], Views(d.Space(), mem.ram), loads)
    ensures Owned(mem.allocList, d.Space()) == old(Owned(mem.allocList, d.Space()))
    ensures done < |ops| ==> StopsAt(ops, done, old(d.Space()), |old(mem.allocList)|, old(d.Tables()), grants)
    ensures (forall i :: 0 <= i < |ops| ==> Allowed(ops[i], old(d.Space())) && Served(ops, i, old(d.Tables()), grants)) && Stores(ops, |ops|) <= |old(mem.allocList)| ==>
              done == |ops|
  {
    hide TableOf, PageDir.Tables, Balanced, Views, View, Allowed, Doable, Did, Stored, SamePermissions, Owned, Tracks, ValidSpace, Frames, RamFrame, PageDir.Space, PageDir.Valid, PageDir.HasTable;
    ghost var s, there := Now(d, mem), d.Tables();
    loads, done := [], 0;
    RunStarts(s, ops);
    while done < |ops|
      invariant Sane(d, mem) && fresh(d.Repr - old(d.Repr)) && 0 <= done <= |ops|
      invariant Tracks(Views(s.space, s.ram), ops[..done], Views(d.Space(), mem.ram), loads)
      invariant Owned(mem.allocList, d.Space()) == Owned(s.pool, s.space) && SamePermissions(s.space, d.Space())
      invariant |mem.allocList| + Stores(ops, done) >= |s.pool| && there <= d.Tables()
    {
      assert ops[done] in ops;
      ghost var t, table := Now(d, mem), d.HasTable(ops[done].pn) || grants(done);
      var ok, r := OneAccess(d, mem, ops[done], grants(done));
      RunStep(s, t, Now(d, mem), ops, done, loads, r, ok, table, there, grants);
      if !ok {
        return;
      }
      if ops[done].Load? {
        loads := loads + [r];
      }
      done := done + 1;
    }
  }

  lemma RunStarts(s: Snapshot, ops: seq<UserAccess>)
    ensures Tracks(Views(s.space, s.ram), ops[..0], Views(s.space, s.ram), []) && SamePermissions(s.space, s.space)
  {
  }

  /** One turn of that loop, whether the access was done or not. */
  lemma RunStep(s: Snapshot, t: Snapshot, u: Snapshot, ops: seq<UserAccess>, i: nat, loads: seq<bv8>, r: bv8, ok: bool, table: bool, there: set<nat>, grants: nat -> bool)
    requires i < |ops| && GoodAccess(ops[i]) && InOrder(t)
    requires Tracks(Views(s.space, s.ram), ops[..i], Views(t.space, t.ram), loads)
    requires SamePermissions(s.space, t.space) && SamePermissions(t.space, u.space) && |t.pool| + Stores(ops, i) >= |s.pool|
    requires (ok <==> Doable(ops[i], t, table)) && (Served(ops, i, there, grants) ==> table)
    requires if ok then Did(ops[i], r, t, u) else Views(u.space, u.ram) == Views(t.space, t.ram)
    ensures SamePermissions(s.space, u.space)
    ensures ok ==> Tracks(Views(s.space, s.ram), ops[..i + 1], Views(u.space, u.ram), if ops[i].Load? then loads + [r] else loads)
    ensures !ok ==> StopsAt(ops, i, s.space, |s.pool|, there, grants) && Stores(ops, i) + (if ops[i].Store? then 1 else 0) <= Stores(ops, |ops|)
  {
    hide Tracks, Views, View, Stored;
    TracksNext(Views(s.space, s.ram), ops, i, t, loads);
    StoresGrow(ops, i + 1, |ops|);
    if !ok { WhyNot(ops[i], t, table); }
  }
}
