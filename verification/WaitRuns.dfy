/** Whole runs of the wait protocol: what holds in every reachable state. */
module WaitRuns {
  import opened Basics
  import opened WaitProtocol
  import opened WaitSafety
  import opened WaitTree

  ghost predicate Good(s: State) { Inv(s) && Rooted(s) }

  lemma RootedKeeps(s: State, e: Event)
    requires Rooted(s) && Enabled(s, e)
    ensures Rooted(Next(s, e))
  {
    if e.Vanish? || e.FinalWake? { WakeProcs(s, e); }
  }

  lemma WakeProcs(s: State, e: Event)
    requires Enabled(s, e) && (e.Vanish? || e.FinalWake?)
    ensures Next(s, e).procs == s.procs
  {
  }

  /** Every step keeps everything. */
  lemma StepKeeps(s: State, e: Event)
    requires Good(s) && Enabled(s, e)
    ensures Good(Next(s, e))
  {
    hide Inv, Rooted, Enabled, Next;
    RootedKeeps(s, e);
    match e
    case CallWait(t) => CallWaitKeeps(s, t);
    case LockOwn(t) => LockOwnKeeps(s, t);
    case LockChild(t) => LockChildKeeps(s, t);
    case Sleep(t) => SleepKeeps(s, t);
    case Detach(t) => DetachKeeps(s, t);
    case LockInit(t) => LockInitKeeps(s, t);
    case Splice(t) => SpliceKeeps(s, t);
    case Walk(t) => WalkKeeps(s, t);
    case Release(t) => ReleaseKeeps(s, t);
    case FinalWake(t) => FinalWakeKeeps(s, t);
    case LockVanish(t) => LockVanishKeeps(s, t);
    case Vanish(t) => VanishKeeps(s, t);
    case Fork(t, u, p) => ForkKeeps(s, t, u, p);
    case ThreadFork(t, u) => ThreadForkKeeps(s, t, u);
  }

  /** The system as it starts: the root with its idle thread, and init. */
  function Boot(): State {
    State(map[0 := Thread(ROOT, User), 1 := Thread(INIT, User)], map[ROOT := Proc(ROOT, [INIT]), INIT := Proc(ROOT, [])], [])
  }

  lemma BootGood()
    ensures Good(Boot())
  {
    var s := Boot();
    assert LivesIn(s, 1, INIT);
    assert Children(s, ROOT) == [INIT] && Children(s, INIT) == [];
    forall p
      ensures ParentAt(s, p) && ListAt(s, p) && PlacedAt(s, p) && NoLostAt(s, p)
    {
    }
  }

  ghost predicate IsRun(states: seq<State>, events: seq<Event>) {
    && |states| == |events| + 1 && states[0] == Boot()
    && forall i :: 0 <= i < |events| ==> Enabled(states[i], events[i]) && states[i + 1] == Next(states[i], events[i])
  }

  /** Some run comes to the state. */
  ghost predicate Reached(s: State) { exists states, events :: IsRun(states, events) && states[|events|] == s }

  lemma {:induction false} RunGood(states: seq<State>, events: seq<Event>, n: nat)
    requires IsRun(states, events) && n < |states|
    ensures Good(states[n])
  {
    hide Good;
    if n == 0 {
      BootGood();
    } else {
      RunGood(states, events, n - 1);
      StepKeeps(states[n - 1], events[n - 1]);
    }
  }

  /** No lost wake-up: in every reachable state, if a process has an exited child and a
      thread asleep for one, then a thread of it is about to look again, or is reaping and
      will wake another, or (for init) whoever gave it orphans has still to wake it. */
  lemma NoLostWakeup(states: seq<State>, events: seq<Event>, n: nat, p: Pid, c: Pid, u: Tid)
    requires IsRun(states, events) && n < |states|
    requires c in Children(states[n], p) && !Alive(states[n], c) && Waits(states[n], u, p)
    ensures exists t :: Covers(states[n], t, p)
  {
    RunGood(states, events, n);
    assert NoLostAt(states[n], p);
    assert HasExited(states[n], p);
  }

  /** The tree: in every reachable state each process but the root is in one list at most;
      it is in its parent's, except while a reaper is moving it to init's or freeing it. */
  lemma TreeKept(states: seq<State>, events: seq<Event>, n: nat, q: Pid)
    requires IsRun(states, events) && n < |states| && q in states[n].procs && q != ROOT
    ensures var s := states[n];
            && s.procs[q].parent in s.procs && s.procs[q].parent < q
            && (!Moving(s, q) && !Leaving(s, q) ==> q in Children(s, s.procs[q].parent))
            && (Moving(s, q) ==> q in Children(s, INIT))
            && (forall p, p' :: q in Children(s, p) && q in Children(s, p') ==> p == p')
            && (forall p, i, j :: 0 <= i < |Children(s, p)| && 0 <= j < |Children(s, p)| && Children(s, p)[i] == q == Children(s, p)[j] ==> i == j)
  {
    hide Alive;
    var s := states[n];
    RunGood(states, events, n);
    assert ParentAt(s, q) && PlacedAt(s, q);
    if Moving(s, q) { NotMoving(s, q); }
    forall p
      ensures q in Children(s, p) ==> p == s.procs[q].parent || (p == INIT && Moving(s, q))
      ensures NoDuplicates(Children(s, p))
    {
      assert ListAt(s, p);
    }
  }

  /** Orphans always go to init. */
  lemma OrphansGoToInit(states: seq<State>, events: seq<Event>, n: nat, t: Tid)
    requires IsRun(states, events) && n < |states| && Enabled(states[n], Splice(t))
    ensures var s, c := states[n], states[n].threads[t].st.child;
            Children(Next(s, Splice(t)), INIT) == Children(s, INIT) + Children(s, c)
  {
    RunGood(states, events, n);
    SpliceLists(states[n], t);
  }
}
