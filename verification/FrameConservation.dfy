/** All processes over one pool: no step of any of them loses, duplicates or leaks a frame,
    or changes what another process sees. */
module FrameConservation {
  import opened Basics
  import opened FramePool
  import opened PageDirectory
  import opened AddressSpace
  import DemandZero
  import NewPages
  import ForkSpace
  import Loader

  /** The pool, the address space of every process, RAM, and the frames there are. */
  datatype System = System(pool: seq<nat>, spaces: map<nat, Flat>, ram: map<nat, Contents>, managed: set<nat>)

  /** Every managed frame is in the pool or owned by a process, and by one only. */
  ghost predicate Conserved(y: System) {
    && ValidPool(y.pool)
    && (forall p :: p in y.spaces ==> Balanced(y.pool, y.spaces[p]))
    && (forall p, q :: p in y.spaces && q in y.spaces && p != q ==> Frames(y.spaces[p]) !! Frames(y.spaces[q]))
    && (forall p :: p in y.spaces ==> Frames(y.spaces[p]) <= y.managed)
    && Members(y.pool) <= y.managed
    && (forall f :: f in y.managed && f !in Members(y.pool) ==> exists p :: p in y.spaces && f in Frames(y.spaces[p]))
    && ZERO_FRAME in y.ram && y.ram[ZERO_FRAME] == Zeros()
  }

  /** What process `p` works with. */
  ghost function Local(y: System, p: nat): Snapshot
    requires p in y.spaces
  {
    Snapshot(y.pool, y.spaces[p], y.ram)
  }

  // -------------------------------------------------------------------- the steps

  /** Act is a fault, a load or a store, new_pages, or a call that failed. */
  datatype Event =
    | Act(p: nat, after: Snapshot)
    | Fork(p: nat, child: nat, after: Snapshot)
    | Exec(p: nat, after: Snapshot)
    | Exit(p: nat, pool: seq<nat>)

  ghost predicate Enabled(y: System, e: Event) {
    && e.p in y.spaces
    && match e
       case Act(p, t) => Step(Local(y, p), t)
       case Fork(p, child, t) => child !in y.spaces && ForkSpace.Copying(Local(y, p), PAGES, t)
       case Exec(p, t) => Loader.Replaced(Local(y, p), t)
       case Exit(p, pool) => ValidPool(pool) && Members(pool) == Members(y.pool) + Frames(y.spaces[p])
  }

  ghost function Next(y: System, e: Event): System
    requires Enabled(y, e)
  {
    match e
    case Act(p, t) => System(t.pool, y.spaces[p := t.space], t.ram, y.managed)
    case Fork(_, child, t) => System(t.pool, y.spaces[child := t.space], t.ram, y.managed)
    case Exec(p, t) => System(t.pool, y.spaces[p := t.space], t.ram, y.managed)
    case Exit(p, pool) => System(pool, map q | q in y.spaces && q != p :: y.spaces[q], y.ram, y.managed)
  }

  // ------------------------------------------- the calls of the other modules are steps

  lemma FaultIsStep(s: Snapshot, t: Snapshot)
    requires InOrder(s) && DemandZero.Unseen(s, t)
    ensures Step(s, t)
  {
  }

  lemma NewPagesIsStep(s: Snapshot, b: nat, count: nat, t: Snapshot)
    requires InOrder(s) && NewPages.Granted(s, b, count, t)
    ensures Step(s, t)
  {
    assert ZERO_FRAME !in Members(s.pool);
  }

  /** A fork, an exec or a new_pages that fails. */
  lemma FailureIsStep(s: Snapshot, t: Snapshot)
    requires InOrder(s) && NewPages.Restored(s, t)
    ensures Step(s, t)
  {
    assert ZERO_FRAME !in Members(s.pool);
  }

  // ------------------------------------------------------------------ conservation

  lemma ActConserves(y: System, p: nat, t: Snapshot)
    requires Conserved(y) && p in y.spaces && Step(Local(y, p), t)
    ensures Conserved(Next(y, Act(p, t)))
  {
    hide ForkSpace.Copying, Loader.Replaced, Frames, RamFrame, ValidSpace, ValidPool, Members;
    var s, y' := Local(y, p), Next(y, Act(p, t));
    forall q | q in y.spaces && q != p
      ensures Balanced(t.pool, y.spaces[q]) && Frames(t.space) !! Frames(y.spaces[q])
    {
      OthersApart(y, p, q);
      assert Members(t.pool) <= Owned(t.pool, t.space) && Frames(t.space) <= Owned(t.pool, t.space);
    }
    assert Owned(s.pool, s.space) <= y.managed;
    forall f | f in y.managed && f !in Members(t.pool)
      ensures exists q :: q in y'.spaces && f in Frames(y'.spaces[q])
    {
      if f in Owned(s.pool, s.space) {
        assert f in Frames(y'.spaces[p]);
      } else {
        var q :| q in y.spaces && f in Frames(y.spaces[q]);
        assert q != p && q in y'.spaces && f in Frames(y'.spaces[q]);
      }
    }
  }

  /** Another process owns nothing that is in the pool or in `p`'s space. */
  lemma OthersApart(y: System, p: nat, q: nat)
    requires Conserved(y) && p in y.spaces && q in y.spaces && q != p
    ensures Frames(y.spaces[q]) !! Owned(y.pool, y.spaces[p]) && ValidSpace(y.spaces[q])
  {
    assert Balanced(y.pool, y.spaces[q]);
  }

  lemma ForkConserves(y: System, p: nat, child: nat, t: Snapshot)
    requires Conserved(y) && Enabled(y, Fork(p, child, t))
    ensures Conserved(Next(y, Fork(p, child, t)))
  {
    hide ForkSpace.Copying, Loader.Replaced, Frames, RamFrame, ValidSpace, ValidPool, Members;
    var y' := Next(y, Fork(p, child, t));
    ForkDrawn(Local(y, p), t);
    forall q | q in y.spaces
      ensures Balanced(t.pool, y.spaces[q]) && Frames(t.space) !! Frames(y.spaces[q])
    {
      assert Balanced(y.pool, y.spaces[q]);
    }
    forall f | f in y.managed && f !in Members(t.pool)
      ensures exists q :: q in y'.spaces && f in Frames(y'.spaces[q])
    {
      if f in Members(y.pool) {
        assert f in Frames(y'.spaces[child]);
      } else {
        var q :| q in y.spaces && f in Frames(y.spaces[q]);
        assert q in y'.spaces && f in Frames(y'.spaces[q]);
      }
    }
  }

  lemma ForkDrawn(s: Snapshot, t: Snapshot)
    requires InOrder(s) && ForkSpace.Copying(s, PAGES, t)
    ensures Balanced(t.pool, t.space) && Members(t.pool) + Frames(t.space) == Members(s.pool)
    ensures RamFrame(s.ram, t.ram, Members(s.pool)) && InOrder(t)
  {
    ForkSpace.ForkIsACopy(s, t, 0);
  }

  lemma ExecIsStep(s: Snapshot, t: Snapshot)
    requires InOrder(s) && Loader.Replaced(s, t)
    ensures Step(s, t)
  {
    assert ZERO_FRAME !in Members(s.pool);
  }

  lemma ExitConserves(y: System, p: nat, pool: seq<nat>)
    requires Conserved(y) && Enabled(y, Exit(p, pool))
    ensures Conserved(Next(y, Exit(p, pool)))
  {
    var y' := Next(y, Exit(p, pool));
    forall q | q in y'.spaces
      ensures Balanced(pool, y'.spaces[q])
    {
      OthersApart(y, p, q);
      assert Balanced(y.pool, y.spaces[q]);
    }
    forall f | f in y.managed && f !in Members(pool)
      ensures exists q :: q in y'.spaces && f in Frames(y'.spaces[q])
    {
      var q :| q in y.spaces && f in Frames(y.spaces[q]);
      assert q != p && q in y'.spaces && f in Frames(y'.spaces[q]);
    }
  }

  lemma StepConserves(y: System, e: Event)
    requires Conserved(y) && Enabled(y, e)
    ensures Conserved(Next(y, e)) && Next(y, e).managed == y.managed
  {
    match e
    case Act(p, t) => ActConserves(y, p, t);
    case Fork(p, child, t) => ForkConserves(y, p, child, t);
    case Exec(p, t) =>
      assert InOrder(Local(y, p));
      ExecIsStep(Local(y, p), t);
      ActConserves(y, p, t);
    case Exit(p, pool) => ExitConserves(y, p, pool);
  }

  /** Isolation: a step of one process leaves the memory of every other as it was. */
  lemma StepIsolates(y: System, e: Event, q: nat)
    requires Conserved(y) && Enabled(y, e) && q in y.spaces && q != e.p
    ensures q in Next(y, e).spaces && Next(y, e).spaces[q] == y.spaces[q]
    ensures Views(y.spaces[q], Next(y, e).ram) == Views(y.spaces[q], y.ram)
  {
    OthersApart(y, e.p, q);
    var s, y' := Local(y, e.p), Next(y, e);
    assert InOrder(s);
    assert ZERO_FRAME !in Members(y.pool);
    assert ZERO_FRAME !in Frames(y.spaces[e.p]);
    if e.Fork? { ForkDrawn(s, e.after); }
    if e.Exec? { ExecIsStep(s, e.after); }
    assert RamFrame(y.ram, y'.ram, Owned(y.pool, y.spaces[e.p]));
    ViewsUnaffected(y.spaces[q], y.ram, y'.ram, Owned(y.pool, y.spaces[e.p]));
  }

  // ------------------------------------------------------------------------- runs

  ghost predicate IsRun(states: seq<System>, events: seq<Event>) {
    && |states| == |events| + 1
    && forall i :: 0 <= i < |events| ==> Enabled(states[i], events[i]) && states[i + 1] == Next(states[i], events[i])
  }

  /** Conservation over every run. */
  lemma {:induction false} RunConserves(states: seq<System>, events: seq<Event>, n: nat)
    requires IsRun(states, events) && Conserved(states[0]) && n < |states|
    ensures Conserved(states[n]) && states[n].managed == states[0].managed
  {
    if n > 0 {
      RunConserves(states, events, n - 1);
      StepConserves(states[n - 1], events[n - 1]);
    }
  }

  /** The system at boot: the first process has a fresh address space, and every frame but
      the zero frame is in the pool. */
  ghost predicate Boots(y: System, frameCount: nat) {
    && ValidPool(y.pool) && Members(y.pool) == (set i | 0 < i < frameCount :: FrameAddress(i)) == y.managed
    && y.spaces == map[0 := Fresh()] && ZERO_FRAME in y.ram && y.ram[ZERO_FRAME] == Zeros()
  }

  lemma BootConserved(y: System, frameCount: nat)
    requires Boots(y, frameCount)
    ensures Conserved(y)
  {
    FreshOwnsNothing();
  }

  /** init_allocator and the first construct_page_dir bring that about. */
  method Boot(frameCount: nat, grants: nat -> bool) returns (mem: Memory, d: PageDir?, ghost y: System)
    requires frameCount > 0
    ensures d != null <==> forall i: nat :: i <= 4 ==> grants(i)
    ensures d != null ==> Sane(d, mem) && Boots(y, frameCount) && Conserved(y) && Local(y, 0) == Now(d, mem)
  {
    hide Fresh, ValidPool, PageDir.Space, PageDir.Valid;
    mem := new Memory(frameCount);
    d := PageDir.Construct(grants);
    y := System(mem.allocList, map[0 := Fresh()], mem.ram, Members(mem.allocList));
    BootConserved(y, frameCount);
    if d != null { assert Balanced(y.pool, y.spaces[0]); }
  }

  /** So frames are conserved in every state of every run from boot. */
  lemma BootRunConserves(states: seq<System>, events: seq<Event>, frameCount: nat, n: nat)
    requires IsRun(states, events) && Boots(states[0], frameCount) && n < |states|
    ensures Conserved(states[n]) && states[n].managed == set i | 0 < i < frameCount :: FrameAddress(i)
  {
    BootConserved(states[0], frameCount);
    RunConserves(states, events, n);
  }

  /** In a conserved state a managed frame has exactly one place: a position in the pool,
      or one entry of one address space. */
  lemma ExactlyOnePlace(y: System, f: nat)
    requires Conserved(y) && f in y.managed
    ensures f in y.pool <==> !exists p, pn :: Maps(y, p, pn, f)
    ensures forall i, j :: 0 <= i < |y.pool| && 0 <= j < |y.pool| && y.pool[i] == f && y.pool[j] == f ==> i == j
    ensures forall p, pn, q, qn :: Maps(y, p, pn, f) && Maps(y, q, qn, f) ==> p == q && pn == qn
  {
    forall p, pn | Maps(y, p, pn, f)
      ensures f in Frames(y.spaces[p])
    {
    }
    if f !in y.pool {
      var p :| p in y.spaces && f in Frames(y.spaces[p]);
      var pn :| pn in y.spaces[p] && UserPage(pn) && Private(y.spaces[p][pn]) && y.spaces[p][pn].frame == f;
      assert Maps(y, p, pn, f);
    }
    forall p, pn, q, qn | Maps(y, p, pn, f) && Maps(y, q, qn, f)
      ensures p == q && pn == qn
    {
      assert f in Frames(y.spaces[p]) && f in Frames(y.spaces[q]);
      assert Balanced(y.pool, y.spaces[p]);
    }
  }

  /** Entry `pn` of process `p` maps the frame as its own. */
  ghost predicate Maps(y: System, p: nat, pn: nat, f: nat) {
    p in y.spaces && pn in y.spaces[p] && UserPage(pn) && Private(y.spaces[p][pn]) && y.spaces[p][pn].frame == f
  }
}
