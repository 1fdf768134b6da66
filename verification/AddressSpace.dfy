/** Flat address spaces: ownership of frames, and the contents a program sees. */
module AddressSpace {
  import opened Basics
  import opened FramePool
  import opened PageDirectory

  /** The pool and one address space: both well formed, with no frame in both. */
  ghost predicate Balanced(pool: seq<nat>, m: Flat) {
    && ValidPool(pool)
    && ValidSpace(m)
    && Members(pool) !! Frames(m)
  }

  /** Every frame in the pool or mapped by the space. */
  ghost function Owned(pool: seq<nat>, m: Flat): set<nat>
  {
    Members(pool) + Frames(m)
  }

  // ------------------------------------------------------- one entry at a time

  lemma FramesUpdate(m: Flat, pn: nat, e: Pte)
    requires ValidSpace(m) && UserPage(pn)
    ensures Frames(m[pn := e]) == Frames(m) - (if Private(m[pn]) then {m[pn].frame} else {})
                                            + (if Private(e) then {e.frame} else {})
  {
    var m' := m[pn := e];
    forall f
      ensures f in Frames(m') <==> (f in Frames(m) && !(Private(m[pn]) && f == m[pn].frame)) || (Private(e) && f == e.frame)
    {
      if f in Frames(m) && !(Private(m[pn]) && f == m[pn].frame) {
        var q :| q in m && UserPage(q) && Private(m[q]) && m[q].frame == f;
        assert q != pn && m'[q] == m[q];
      }
      if f in Frames(m') {
        var q :| q in m' && UserPage(q) && Private(m'[q]) && m'[q].frame == f;
        assert q != pn ==> m'[q] == m[q];
      }
      if Private(e) && f == e.frame { assert m'[pn] == e; }
    }
  }

  lemma ValidUpdate(m: Flat, pn: nat, e: Pte)
    requires ValidSpace(m) && UserPage(pn) && ValidEntry(e)
    requires Private(e) ==> e.frame !in Frames(m) || (Private(m[pn]) && m[pn].frame == e.frame)
    ensures ValidSpace(m[pn := e])
  {
    var m' := m[pn := e];
    forall p, q | p in m' && q in m' && UserPage(p) && UserPage(q) && p != q && Private(m'[p]) && Private(m'[q])
      ensures m'[p].frame != m'[q].frame
    {
      assert p == pn ==> m[q].frame in Frames(m);
      assert q == pn ==> m[p].frame in Frames(m);
    }
  }

  /** Mapping the first pooled frame at an unmapped user page moves one frame. */
  lemma MapKeeps(pool: seq<nat>, m: Flat, pn: nat)
    requires Balanced(pool, m) && pool != [] && UserPage(pn) && m[pn].Absent?
    ensures var m' := m[pn := Present(pool[0], READ_WRITE)];
            Balanced(pool[1..], m') && Owned(pool[1..], m') == Owned(pool, m)
  {
    var f := pool[0];
    assert f in Members(pool);
    TailMembers(pool);
    FramesUpdate(m, pn, Present(f, READ_WRITE));
    ValidUpdate(m, pn, Present(f, READ_WRITE));
  }

  /** Replacing an entry that owns no frame by another that owns none. */
  lemma SharedKeeps(pool: seq<nat>, m: Flat, pn: nat, e: Pte)
    requires Balanced(pool, m) && UserPage(pn) && !Private(m[pn]) && !Private(e) && ValidEntry(e)
    ensures Balanced(pool, m[pn := e]) && Frames(m[pn := e]) == Frames(m)
  {
    FramesUpdate(m, pn, e);
    ValidUpdate(m, pn, e);
  }

  /** Changing the access of a page that owns its frame. */
  lemma AccessKeeps(pool: seq<nat>, m: Flat, pn: nat, rw: int)
    requires Balanced(pool, m) && UserPage(pn) && Private(m[pn]) && (rw == READ_ONLY || rw == READ_WRITE)
    ensures var m' := m[pn := Present(m[pn].frame, rw)]; Balanced(pool, m') && Frames(m') == Frames(m)
  {
    assert ValidEntry(m[pn]);
    assert m[pn].frame in Frames(m);
    FramesUpdate(m, pn, Present(m[pn].frame, rw));
    ValidUpdate(m, pn, Present(m[pn].frame, rw));
  }

  /** Unmapping a page gives its frame, if it owns one, back to the pool. */
  lemma UnmapKeeps(pool: seq<nat>, m: Flat, pn: nat, pool': seq<nat>)
    requires Balanced(pool, m) && UserPage(pn) && m[pn].Present? && ValidPool(pool')
    requires Members(pool') == Members(pool) + Freed(m[pn].frame)
    ensures var m' := m[pn := Absent(PAGE_AVAILABLE)];
            Balanced(pool', m') && Owned(pool', m') == Owned(pool, m)
  {
    assert ValidEntry(m[pn]);
    assert Freed(m[pn].frame) == if Private(m[pn]) then {m[pn].frame} else {};
    assert Private(m[pn]) ==> m[pn].frame in Frames(m);
    FramesUpdate(m, pn, Absent(PAGE_AVAILABLE));
    ValidUpdate(m, pn, Absent(PAGE_AVAILABLE));
  }

  lemma FreshOwnsNothing()
    ensures ValidSpace(Fresh()) && Frames(Fresh()) == {}
  {
  }

  // ------------------------------------------------------ what programs see

  /** What a user access to page `pn` finds, taking an available unmapped page to hold
      zeros; None when user code may not touch the page. */
  function View(m: Flat, ram: map<nat, Contents>, pn: nat): Option<Contents>
  {
    if pn !in m || !UserPage(pn) then None
    else match m[pn]
      case Absent(a) => if a == PAGE_AVAILABLE then Some(Zeros()) else None
      case Present(f, _) => Some(Holds(ram, f))
  }

  /** Whether user code may write the page. */
  predicate Writable(m: Flat, pn: nat) {
    pn in m && UserPage(pn) && match m[pn]
                               case Absent(a) => a == PAGE_AVAILABLE
                               case Present(f, rw) => f == ZERO_FRAME || rw == READ_WRITE
  }

  /** The page map of a space, as one flat memory. */
  ghost function Views(m: Flat, ram: map<nat, Contents>): map<nat, Option<Contents>>
  {
    map pn: nat | pn < PAGES :: View(m, ram, pn)
  }

  /** RAM changed only in frames of the given set. */
  ghost predicate RamFrame(ram: map<nat, Contents>, ram': map<nat, Contents>, changed: set<nat>) {
    forall f :: f !in changed ==> (f in ram' <==> f in ram) && (f in ram ==> ram'[f] == ram[f])
  }

  /** A space that owns none of the changed frames sees the same memory. */
  lemma ViewsUnaffected(m: Flat, ram: map<nat, Contents>, ram': map<nat, Contents>, changed: set<nat>)
    requires FlatDomain(m) && RamFrame(ram, ram', changed)
    requires Frames(m) !! changed && ZERO_FRAME !in changed
    ensures Views(m, ram') == Views(m, ram)
  {
    forall pn: nat | pn < PAGES
      ensures View(m, ram', pn) == View(m, ram, pn)
    {
      if UserPage(pn) && Private(m[pn]) { assert m[pn].frame in Frames(m); }
    }
  }

  // ------------------------------------------------------------ states of memory

  /** A directory over a memory, in good order. */
  ghost predicate Sane(d: PageDir, mem: Memory)
    reads d, d.Repr, mem
  {
    d.Valid() && mem.Valid() && mem !in d.Repr && Balanced(mem.allocList, d.Space())
  }

  /** The pool, the address space and the contents of RAM. */
  datatype Snapshot = Snapshot(pool: seq<nat>, space: Flat, ram: map<nat, Contents>)

  ghost function Now(d: PageDir, mem: Memory): Snapshot
    requires d.Valid()
    reads d, d.Repr, mem
  {
    Snapshot(mem.allocList, d.Space(), mem.ram)
  }

  ghost predicate InOrder(s: Snapshot) {
    Balanced(s.pool, s.space) && ZERO_FRAME in s.ram && s.ram[ZERO_FRAME] == Zeros()
  }

  /** One process at work: frames move between the pool and its space, and RAM changes
      only in those. */
  ghost predicate Step(s: Snapshot, t: Snapshot) {
    && InOrder(t)
    && Owned(t.pool, t.space) == Owned(s.pool, s.space)
    && RamFrame(s.ram, t.ram, Owned(s.pool, s.space))
  }

  /** A directory's entry is the flat space's, and a mapped page has a page table. */
  lemma SpaceEntry(d: PageDir, pn: nat)
    requires d.Valid() && pn < PAGES
    ensures d.Entry(pn) == d.Space()[pn] && (d.Entry(pn).Present? ==> d.HasTable(pn))
  {
  }

  /** Page `pn` has no page table, and the kernel heap refuses one; `tables` is its answer
      for each page table, `there` are those there were at first. */
  predicate Refused(there: set<nat>, tables: nat -> bool, pn: nat) { TableOf(pn) !in there && !tables(TableOf(pn)) }

  ghost predicate TableRefused(there: set<nat>, tables: nat -> bool, lo: nat, hi: nat) { exists pn :: lo <= pn < hi && Refused(there, tables, pn) }

  /** Page tables that were not there at first have been granted. */
  ghost predicate OnlyGranted(there: set<nat>, now: set<nat>, tables: nat -> bool) {
    there <= now && forall i :: i in now ==> i in there || tables(i)
  }

  lemma GrownGranted(there: set<nat>, before: set<nat>, after: set<nat>, pn: nat, tables: nat -> bool)
    requires OnlyGranted(there, before, tables) && Grown(before, after, pn, tables(TableOf(pn)))
    ensures OnlyGranted(there, after, tables)
  {
  }

  /** memset of a mapped page, which goes through its entry. */
  method ClearPage(d: PageDir, mem: Memory, vAddr: nat)
    requires d.Valid() && mem.Valid() && mem !in d.Repr && PageOf(vAddr) < PAGES && d.Entry(PageOf(vAddr)).Present?
    modifies mem`ram
    ensures mem.Valid() && d.Valid()
    ensures Now(d, mem) == old(Now(d, mem)).(ram := old(mem.ram)[old(d.Entry(PageOf(vAddr))).frame := Zeros()])
  {
    mem.ClearFrame(d.Entry(PageOf(vAddr)).frame);
  }

  /** A store to a mapped page. */
  method StorePage(d: PageDir, mem: Memory, pn: nat, data: Contents)
    requires d.Valid() && mem.Valid() && mem !in d.Repr && pn < PAGES && Private(d.Entry(pn))
    modifies mem`ram
    ensures mem.Valid() && d.Valid()
    ensures Now(d, mem) == old(Now(d, mem)).(ram := old(mem.ram)[old(d.Entry(pn)).frame := data])
  {
    mem.FillFrame(d.Entry(pn).frame, data);
  }

  // ------------------------------------------------- spaces under construction

  /** `t` is a second space being built while `s` was the state: all its frames came out
      of the pool of `s`, and RAM changed in such frames only. */
  ghost predicate Drawn(s: Snapshot, t: Snapshot) {
    && Balanced(t.pool, t.space)
    && Owned(t.pool, t.space) == Members(s.pool)
    && RamFrame(s.ram, t.ram, Members(s.pool))
  }

  lemma SameRam(s: Snapshot)
    ensures RamFrame(s.ram, s.ram, Members(s.pool))
  {
  }

  /** Releasing a space under construction gives back the pool as it was. */
  lemma DrawnReleased(s: Snapshot, t: Snapshot, pool: seq<nat>)
    requires Balanced(s.pool, s.space) && Drawn(s, t)
    requires ValidPool(pool) && Members(pool) == Members(t.pool) + Frames(t.space)
    ensures pool == s.pool && RamFrame(s.ram, t.ram, Members(s.pool))
  {
    PoolUnique(pool, s.pool);
  }

  /** destruct_page_dir on an abandoned space. */
  method Abandon(c: PageDir, mem: Memory, ghost s: Snapshot)
    requires c.Valid() && mem.Valid() && mem !in c.Repr && Balanced(s.pool, s.space) && Drawn(s, Now(c, mem))
    modifies mem`allocList
    ensures mem.Valid() && mem.allocList == s.pool && RamFrame(s.ram, mem.ram, Members(s.pool))
  {
    ghost var t := Now(c, mem);
    assert ValidSpace(c.Space());
    c.Destruct(mem);
    DrawnReleased(s, t, mem.allocList);
  }
}
