/** The other thing wait gets wrong: a thread asleep in it is not told that its process has
    no children left. When that happens, exactly, and that it is for good. */
module WaitStranded {
  import opened Basics
  import opened WaitProtocol
  import opened WaitSafety
  import opened WaitTree
  import opened WaitRuns
  import opened WaitDeadlock

  /** The thread is asleep in wait when the last child of its process has gone, with none of
      its threads reaping. */
  ghost predicate Stranded(s: State, u: Tid) {
    && Known(s, u) && s.threads[u].st.Blocked? && s.threads[u].proc != INIT && Children(s, s.threads[u].proc) == []
    && forall w :: w in s.threads && s.threads[w].proc == s.threads[u].proc ==> !s.threads[w].st.Reaping?
  }

  /** Nobody will ever wake them: wait does not fail for a thread that is already asleep. */
  lemma StrandedForever(s: State, e: Event, u: Tid)
    requires Good(s) && Stranded(s, u) && Enabled(s, e)
    ensures Stranded(Next(s, e), u) && e.t != u
  {
    hide Alive, ScanOK, Exclusive, TreeOK, WaitOK, NoLostBut, Rooted, Moving, Leaving, Wake;
    assert LivesIn(s, u, s.threads[u].proc);
    ThreadFacts(s, u);
    if e.Detach? || e.Release? || e.Splice? { ReaperFacts(s, e.t); }
    if e.Splice? { SpliceLists(s, e.t); }
    if e.Release? { ReleaseFacts(s, e.t); }
    if e.Vanish? {
      StrandedVanish(s, e.t, u);
      StrandedWake(s, s.procs[s.threads[e.t].proc].parent, u);
    }
    if e.FinalWake? {
      var s1 := Set(s, e.t, User);
      StrandedWake(s1, s.threads[e.t].proc, u);
      StrandedWake(Wake(s1, s.threads[e.t].proc), INIT, u);
    }
  }

  /** Waking a thread of another process changes nothing for the stranded ones. */
  lemma StrandedWake(s: State, p: Pid, u: Tid)
    requires Stranded(s, u) && p != s.threads[u].proc
    ensures Stranded(Wake(s, p), u) && Wake(s, p).procs == s.procs
    ensures forall t :: t in s.threads <==> t in Wake(s, p).threads
    ensures forall t :: t in s.threads ==> Wake(s, p).threads[t].proc == s.threads[t].proc
  {
  }

  /** A process that is exiting is in its parent's list, so its parent is not one without
      children. */
  lemma StrandedVanish(s: State, t: Tid, u: Tid)
    requires Inv(s) && Stranded(s, u) && Enabled(s, Vanish(t))
    ensures s.procs[s.threads[t].proc].parent != s.threads[u].proc
  {
    hide ScanOK, Exclusive, ReapOK, WaitOK, NoLostBut, ListAt, ParentAt, Moving, Leaving, Alive;
    var q := s.threads[t].proc;
    ThreadFacts(s, t);
    ThreadFacts(s, u);
    assert PlacedAt(s, q);
    if Moving(s, q) { NotMoving(s, q); }
    if Leaving(s, q) { NotLeaving(s, q); }
  }

  // ------------------------------------------------------------------ the step that strands

  /** A thread in its scan has found a child to look at. */
  ghost predicate ScansSome(s: State) {
    forall t :: t in s.threads && s.threads[t].st.Scanning? ==> Children(s, s.threads[t].proc) != []
  }

  lemma ScansSomeKept(s: State, e: Event)
    requires Good(s) && Enabled(s, e) && ScansSome(s)
    ensures ScansSome(Next(s, e))
  {
    hide Good, Enabled, Alive, Holds, Wake;
    var s' := Next(s, e);
    forall t | t in s'.threads && s'.threads[t].st.Scanning?
      ensures Children(s', s'.threads[t].proc) != []
    {
      if t != e.t && t in s.threads && s.threads[t].st.Scanning? {
        ScannerHolds(s, t);
        HolderKept(s, e, t);
      } else {
        NewScanner(s, e, t);
      }
    }
  }

  lemma ScannerHolds(s: State, t: Tid)
    requires t in s.threads && s.threads[t].st.Scanning?
    ensures Holds(s, t, s.threads[t].proc)
  {
  }

  lemma NewScanner(s: State, e: Event, t: Tid)
    requires Good(s) && Enabled(s, e) && ScansSome(s) && t in Next(s, e).threads && Next(s, e).threads[t].st.Scanning?
    requires t == e.t || t !in s.threads || !s.threads[t].st.Scanning?
    ensures Children(Next(s, e), Next(s, e).threads[t].proc) != []
  {
    hide Alive, Rest, NoLostBut, Rooted, OnlyThread;
  }

  /** The last reaper of a process without children wakes the first waiter only. */
  ghost predicate Strands(s: State, e: Event, u: Tid) {
    && e.FinalWake? && Known(s, e.t) && s.threads[e.t].st.Reaping?
    && var p := s.threads[e.t].proc;
       && Waits(s, u, p) && p != INIT && Children(s, p) == []
       && (forall w :: w in s.threads && s.threads[w].proc == p && w != e.t ==> !s.threads[w].st.Reaping?)
       && var i := FirstWaiter(s, p, 0);
          i < |s.waiting| && s.waiting[i] != u
  }

  lemma {:induction false} SameFirst(s: State, s': State, p: Pid, i: nat)
    requires i <= |s.waiting| && s'.waiting == s.waiting && s'.threads.Keys == s.threads.Keys
    requires forall t :: t in s.threads ==> s'.threads[t].proc == s.threads[t].proc
    ensures FirstWaiter(s', p, i) == FirstWaiter(s, p, i)
    decreases |s.waiting| - i
  {
    if i < |s.waiting| { SameFirst(s, s', p, i + 1); }
  }

  lemma FirstOf(s: State, u: Tid, p: Pid)
    requires WaitOK(s) && Waits(s, u, p)
    ensures FirstWaiter(s, p, 0) < |s.waiting| && s.waiting[FirstWaiter(s, p, 0)] in s.threads
    ensures Waits(s, s.waiting[FirstWaiter(s, p, 0)], p)
  {
    hide NoDuplicates;
    assert u in s.waiting;
    var i := FirstWaiter(s, p, 0);
    assert i < |s.waiting| ==> s.waiting[i] in s.waiting;
  }

  /** Waking for `p` makes its first waiter look, and touches nobody else. */
  lemma WakeChanges(s: State, p: Pid, u: Tid)
    requires WaitOK(s)
    ensures var s', i := Wake(s, p), FirstWaiter(s, p, 0);
            && s'.procs == s.procs && s'.threads.Keys == s.threads.Keys
            && (u in s.threads ==> s'.threads[u] == if i < |s.waiting| && s.waiting[i] == u then Thread(s.threads[u].proc, Entering) else s.threads[u])
            && (i < |s.waiting| && s.waiting[i] == u ==> Waits(s, u, p))
  {
    hide NoDuplicates;
    var i := FirstWaiter(s, p, 0);
    assert i < |s.waiting| ==> s.waiting[i] in s.waiting;
  }

  /** What the last step of a reaper does to one thread. */
  lemma FinalWakeAt(s: State, t: Tid, u: Tid)
    requires Good(s) && Enabled(s, FinalWake(t)) && u in s.threads
    ensures var s', p, i := Next(s, FinalWake(t)), s.threads[t].proc, FirstWaiter(s, s.threads[t].proc, 0);
            && s'.procs == s.procs && s'.threads.Keys == s.threads.Keys
            && s'.threads[u].proc == s.threads[u].proc
            && (if u == t then s'.threads[u].st.User?
                else if i < |s.waiting| && s.waiting[i] == u then s'.threads[u].st.Entering?
                else s'.threads[u] == s.threads[u] || (s.threads[u].proc == INIT && s'.threads[u].st.Entering?))
  {
    hide Rest, NoLostBut, Rooted, Wake, WaitOK;
    var p, s1 := s.threads[t].proc, Set(s, t, User);
    QuietWait(s, t, User);
    SameFirst(s, s1, p, 0);
    WakeChanges(s1, p, u);
    WakeChanges(s1, p, t);
    WakeStillOK(s1, p);
    WakeChanges(Wake(s1, p), INIT, u);
  }

  lemma StrandsThen(s: State, e: Event, u: Tid)
    requires Good(s) && Enabled(s, e) && Strands(s, e, u)
    ensures Stranded(Next(s, e), u)
  {
    hide Good, Next;
    var s', p := Next(s, e), s.threads[e.t].proc;
    FinalWakeAt(s, e.t, u);
    forall w | w in s'.threads && s'.threads[w].proc == p
      ensures !s'.threads[w].st.Reaping?
    {
      FinalWakeAt(s, e.t, w);
    }
  }

  /** A thread that is stranded after a step was asleep before it. */
  lemma AsleepBefore(s: State, e: Event, u: Tid)
    requires Good(s) && ScansSome(s) && Enabled(s, e) && Stranded(Next(s, e), u)
    ensures u != e.t && Waits(s, u, Next(s, e).threads[u].proc) && Next(s, e).threads[u].proc in s.procs
  {
    hide Alive, Rest, NoLostBut, Rooted, OnlyThread;
    if u in s.threads && u != e.t { assert s.threads[u].st.Blocked?; ThreadFacts(s, u); }
  }

  /** The children of a sleeper's process only become none by a reaper's detaching. */
  lemma ChildrenGone(s: State, e: Event, u: Tid, p: Pid)
    requires Good(s) && Enabled(s, e) && Waits(s, u, p) && p != INIT && Children(Next(s, e), p) == []
    ensures Children(s, p) == [] || (e.Detach? && s.threads[e.t].proc == p)
  {
    hide Alive, ScanOK, Exclusive, TreeOK, WaitOK, NoLostBut, Rooted, Wake, Holds, OnlyThread;
    ThreadFacts(s, u);
    if e.Detach? || e.Release? || e.Splice? { ReaperFacts(s, e.t); }
    if e.Splice? { SpliceLists(s, e.t); }
    if e.Release? { ReleaseFacts(s, e.t); }
    if e.Vanish? || e.FinalWake? { WakeProcs(s, e); }
  }

  /** A reaper is one until its last step. */
  lemma StillReaping(s: State, e: Event, w: Tid)
    requires Good(s) && Enabled(s, e) && w in s.threads && s.threads[w].st.Reaping? && e != FinalWake(w)
    ensures w in Next(s, e).threads && Next(s, e).threads[w].proc == s.threads[w].proc && Next(s, e).threads[w].st.Reaping?
  {
    hide Alive, Rest, NoLostBut, Rooted, Wake, Holds, OnlyThread;
    if e.Vanish? { WakeOthers(s, s.procs[s.threads[e.t].proc].parent, w); }
    if e.FinalWake? { FinalWakeOthers(s, e.t, w); }
  }

  lemma StrandedThen(s: State, e: Event, u: Tid)
    requires Good(s) && ScansSome(s) && Enabled(s, e) && !Stranded(s, u) && Stranded(Next(s, e), u)
    ensures Strands(s, e, u)
  {
    hide Good, ScansSome, Enabled, Next;
    var s' := Next(s, e);
    var p := s'.threads[u].proc;
    AsleepBefore(s, e, u);
    ChildrenGone(s, e, u, p);
    if e.Detach? { NotByDetach(s, e, u); }
    var w :| w in s.threads && s.threads[w].proc == p && s.threads[w].st.Reaping?;
    if e != FinalWake(w) { StillReaping(s, e, w); }
    assert e == FinalWake(w);
    FinalWakeAt(s, w, u);
    GoodWait(s);
    FirstOf(s, u, p);
    forall v | v in s.threads && s.threads[v].proc == p && v != w
      ensures !s.threads[v].st.Reaping?
    {
      if s.threads[v].st.Reaping? { StillReaping(s, e, v); }
    }
  }

  lemma GoodWait(s: State)
    requires Good(s)
    ensures WaitOK(s)
  {
  }

  lemma NotByDetach(s: State, e: Event, u: Tid)
    requires e.Detach? && Enabled(s, e) && Stranded(Next(s, e), u)
    ensures s.threads[e.t].proc != Next(s, e).threads[u].proc
  {
    assert e.t in Next(s, e).threads && Next(s, e).threads[e.t].st.Reaping?;
  }

  /** A thread comes to be stranded at exactly such a step. */
  lemma StrandedAt(s: State, e: Event, u: Tid)
    requires Good(s) && ScansSome(s) && Enabled(s, e) && !Stranded(s, u)
    ensures Stranded(Next(s, e), u) <==> Strands(s, e, u)
  {
    hide Good, ScansSome, Enabled, Next, Stranded, Strands;
    if Strands(s, e, u) { StrandsThen(s, e, u); }
    if Stranded(Next(s, e), u) { StrandedThen(s, e, u); }
  }

  // ---------------------------------------------------------------------- whole runs

  lemma {:induction false} RunScansSome(states: seq<State>, events: seq<Event>, n: nat)
    requires IsRun(states, events) && n < |states|
    ensures ScansSome(states[n])
  {
    hide Good, Enabled, Next;
    if n > 0 {
      RunScansSome(states, events, n - 1);
      RunGood(states, events, n - 1);
      ScansSomeKept(states[n - 1], events[n - 1]);
    }
  }

  /** In every run: a thread is stranded if and only if such a step has been made. */
  lemma {:induction false} StrandedIff(states: seq<State>, events: seq<Event>, n: nat, u: Tid)
    requires IsRun(states, events) && n < |states|
    ensures Stranded(states[n], u) <==> exists m :: 0 <= m < n && Strands(states[m], events[m], u)
  {
    hide Good, Enabled, Next, Strands;
    if n > 0 {
      StrandedIff(states, events, n - 1, u);
      RunGood(states, events, n - 1);
      RunScansSome(states, events, n - 1);
      hide Stranded;
      if Stranded(states[n - 1], u) {
        StrandedForever(states[n - 1], events[n - 1], u);
      } else {
        StrandedAt(states[n - 1], events[n - 1], u);
      }
    }
  }

  predicate InWait(st: Doing) { st.Entering? || st.Scanning? || st.Blocked? || st.Reaping? }

  lemma SameProc(s: State, e: Event, u: Tid)
    requires Enabled(s, e) && u in s.threads
    ensures u in Next(s, e).threads && Next(s, e).threads[u].proc == s.threads[u].proc
  {
    hide Alive, Holds, OnlyThread;
  }

  lemma {:induction false} RunSameProc(states: seq<State>, events: seq<Event>, m: nat, n: nat, u: Tid)
    requires IsRun(states, events) && m <= n < |states| && u in states[m].threads
    ensures u in states[n].threads && states[n].threads[u].proc == states[m].threads[u].proc
  {
    hide Enabled, Next;
    if m < n {
      RunSameProc(states, events, m, n - 1, u);
      SameProc(states[n - 1], events[n - 1], u);
    }
  }

  ghost predicate WaitsIn(s: State, t: Tid, p: Pid) { t in s.threads && s.threads[t].proc == p && InWait(s.threads[t].st) }

  /** At most one thread of the process is in wait. */
  ghost predicate OneWaits(s: State, p: Pid) { forall t, w :: WaitsIn(s, t, p) && WaitsIn(s, w, p) ==> t == w }

  /** A process with at most one thread in wait at a time strands nobody. */
  lemma AloneIsSafe(states: seq<State>, events: seq<Event>, n: nat, p: Pid, u: Tid)
    requires IsRun(states, events) && n < |states| && u in states[n].threads && states[n].threads[u].proc == p
    requires forall i :: 0 <= i < n ==> OneWaits(states[i], p)
    ensures !Stranded(states[n], u)
  {
    hide Stranded;
    StrandedIff(states, events, n, u);
    forall m | 0 <= m < n
      ensures !Strands(states[m], events[m], u)
    {
      if u in states[m].threads { RunSameProc(states, events, m, n, u); }
      assert OneWaits(states[m], p);
      assert Strands(states[m], events[m], u) ==> WaitsIn(states[m], u, p) && WaitsIn(states[m], events[m].t, p);
    }
  }

  // ---------------------------------------------------------------------------- a run

  /** Init has forked process 2, that one process 3 and two threads more; `a`, `b` and `c`
      are what the threads of 2 do, `d` the one of 3. */
  function Crew(a: Doing, b: Doing, c: Doing, d: Doing, waiting: seq<Tid>): State {
    State(map[0 := Thread(ROOT, User), 1 := Thread(INIT, User), 2 := Thread(2, a), 3 := Thread(3, d), 4 := Thread(2, b), 5 := Thread(2, c)],
          map[ROOT := Proc(ROOT, [INIT]), INIT := Proc(ROOT, [2]), 2 := Proc(INIT, [3]), 3 := Proc(2, [])], waiting)
  }

  /** The same when process 3 is in no list, and perhaps freed, and thread 2 reaps it. */
  function Reaped(a: Doing, freed: bool): State {
    State(map[0 := Thread(ROOT, User), 1 := Thread(INIT, User), 2 := Thread(2, a), 3 := Thread(3, Gone), 4 := Thread(2, Blocked), 5 := Thread(2, Blocked)],
          if freed then map[ROOT := Proc(ROOT, [INIT]), INIT := Proc(ROOT, [2]), 2 := Proc(INIT, [])]
          else map[ROOT := Proc(ROOT, [INIT]), INIT := Proc(ROOT, [2]), 2 := Proc(INIT, []), 3 := Proc(2, [])], [4, 5])
  }

  lemma CrewForks()
    ensures Goes(Three(User, User, User, [3]), ThreadFork(2, 4), Four())
    ensures Goes(Four(), ThreadFork(2, 5), Crew(User, User, User, User, []))
  {
  }

  function Four(): State {
    var s := Three(User, User, User, [3]);
    s.(threads := s.threads[4 := Thread(2, User)])
  }

  /** A thread whose process has one child, which is alive, goes to sleep while nobody has
      a lock. */
  lemma FallsAsleep(s: State, t: Tid, c: Pid)
    requires Known(s, t) && s.threads[t].st.User? && s.threads[t].proc != ROOT
    requires Children(s, s.threads[t].proc) == [c] && c != s.threads[t].proc && Alive(s, c) && forall u, q :: !Holds(s, u, q)
    ensures Goes(s, CallWait(t), Set(s, t, Entering)) && Goes(Set(s, t, Entering), LockOwn(t), Set(s, t, Scanning(0)))
    ensures Goes(Set(s, t, Scanning(0)), LockChild(t), Set(s, t, Scanning(1)))
    ensures Goes(Set(s, t, Scanning(1)), Sleep(t), Set(s, t, Blocked).(waiting := s.waiting + [t]))
  {
    hide Alive;
    SameHolds(s, t, Entering);
    SameHolds(s, t, Scanning(0));
    SameAlive(s, t, Scanning(0));
    assert Unlocked(Set(s, t, Entering), s.threads[t].proc);
    assert [c][..0] == [];
    assert Unlocked(Set(s, t, Scanning(0)), c);
    SetTwice(s, t, Entering, Scanning(0));
    SetTwice(s, t, Scanning(0), Scanning(1));
    SetTwice(s, t, Scanning(1), Blocked);
  }

  lemma SetTwice(s: State, t: Tid, a: Doing, b: Doing)
    requires t in s.threads
    ensures Set(Set(s, t, a), t, b) == Set(s, t, b)
  {
    var m := s.threads;
    assert m[t := Thread(m[t].proc, a)][t := Thread(m[t].proc, b)] == m[t := Thread(m[t].proc, b)];
  }

  lemma CrewSleeps(a: Doing, b: Doing, c: Doing, w: seq<Tid>, t: Tid)
    requires (a.User? || a.Blocked?) && (b.User? || b.Blocked?) && (c.User? || c.Blocked?) && (t == 2 || t == 4 || t == 5)
    requires Crew(a, b, c, User, w).threads[t].st.User?
    ensures var s := Crew(a, b, c, User, w);
            && Goes(s, CallWait(t), Set(s, t, Entering)) && Goes(Set(s, t, Entering), LockOwn(t), Set(s, t, Scanning(0)))
            && Goes(Set(s, t, Scanning(0)), LockChild(t), Set(s, t, Scanning(1)))
            && Goes(Set(s, t, Scanning(1)), Sleep(t),
                    Crew(if t == 2 then Blocked else a, if t == 4 then Blocked else b, if t == 5 then Blocked else c, User, w + [t]))
  {
    hide Goes;
    var s := Crew(a, b, c, User, w);
    assert LivesIn(s, 3, 3);
    FallsAsleep(s, t, 3);
    assert Set(s, t, Blocked).(waiting := s.waiting + [t])
        == Crew(if t == 2 then Blocked else a, if t == 4 then Blocked else b, if t == 5 then Blocked else c, User, w + [t]);
  }

  lemma CrewLocks()
    ensures Goes(Crew(Blocked, Blocked, Blocked, User, [2, 4, 5]), LockVanish(3), Crew(Blocked, Blocked, Blocked, Vanishing, [2, 4, 5]))
  {
    assert Unlocked(Crew(Blocked, Blocked, Blocked, User, [2, 4, 5]), 3);
  }

  lemma CrewExits()
    ensures Goes(Crew(Blocked, Blocked, Blocked, Vanishing, [2, 4, 5]), Vanish(3), Crew(Entering, Blocked, Blocked, Gone, [4, 5]))
  {
    var s := Crew(Blocked, Blocked, Blocked, Vanishing, [2, 4, 5]);
    assert OnlyThread(s, 3);
    assert FirstWaiter(s, 2, 0) == 0;
    assert s.waiting[..0] + s.waiting[1..] == [4, 5];
  }

  lemma CrewLooks()
    ensures Goes(Crew(Entering, Blocked, Blocked, Gone, [4, 5]), LockOwn(2), Crew(Scanning(0), Blocked, Blocked, Gone, [4, 5]))
  {
    assert Unlocked(Crew(Entering, Blocked, Blocked, Gone, [4, 5]), 2);
  }

  lemma CrewFound()
    ensures Goes(Crew(Scanning(0), Blocked, Blocked, Gone, [4, 5]), LockChild(2), Crew(Reaping(3, Found), Blocked, Blocked, Gone, [4, 5]))
  {
    var s := Crew(Scanning(0), Blocked, Blocked, Gone, [4, 5]);
    assert Children(s, 2)[..0] == [] && Unlocked(s, 3) && !Alive(s, 3);
  }

  lemma CrewDetaches()
    ensures Goes(Crew(Reaping(3, Found), Blocked, Blocked, Gone, [4, 5]), Detach(2), Reaped(Reaping(3, Detached), false))
  {
    assert Remove([3], 3) == [];
  }

  lemma CrewMoves()
    ensures Goes(Reaped(Reaping(3, Detached), false), LockInit(2), Reaped(Reaping(3, HasInit), false))
  {
    assert Unlocked(Reaped(Reaping(3, Detached), false), INIT);
  }

  lemma CrewSplices()
    ensures Goes(Reaped(Reaping(3, HasInit), false), Splice(2), Reaped(Reaping(3, Walking([])), false))
  {
  }

  lemma CrewFrees()
    ensures Goes(Reaped(Reaping(3, Walking([])), false), Release(2), Reaped(Reaping(3, Final), true))
  {
    assert Next(Reaped(Reaping(3, Walking([])), false), Release(2)).procs == Reaped(Reaping(3, Final), true).procs;
  }

  lemma CrewStrands()
    ensures Enabled(Reaped(Reaping(3, Final), true), FinalWake(2)) && Strands(Reaped(Reaping(3, Final), true), FinalWake(2), 5)
  {
    assert FirstWaiter(Reaped(Reaping(3, Final), true), 2, 0) == 0;
  }

  lemma ReachNext(s: State, e: Event, s': State)
    requires Reached(s) && Goes(s, e, s')
    ensures Reached(s')
  {
    hide Enabled, Next;
    var states, events :| IsRun(states, events) && states[|events|] == s;
    assert IsRun(states + [s'], events + [e]);
  }

  lemma ReachAsleep(a: Doing, b: Doing, c: Doing, w: seq<Tid>, t: Tid)
    requires (a.User? || a.Blocked?) && (b.User? || b.Blocked?) && (c.User? || c.Blocked?) && (t == 2 || t == 4 || t == 5)
    requires Crew(a, b, c, User, w).threads[t].st.User? && Reached(Crew(a, b, c, User, w))
    ensures Reached(Crew(if t == 2 then Blocked else a, if t == 4 then Blocked else b, if t == 5 then Blocked else c, User, w + [t]))
  {
    hide Reached, Goes, Set;
    var s := Crew(a, b, c, User, w);
    CrewSleeps(a, b, c, w, t);
    ReachNext(s, CallWait(t), Set(s, t, Entering));
    ReachNext(Set(s, t, Entering), LockOwn(t), Set(s, t, Scanning(0)));
    ReachNext(Set(s, t, Scanning(0)), LockChild(t), Set(s, t, Scanning(1)));
    ReachNext(Set(s, t, Scanning(1)), Sleep(t),
              Crew(if t == 2 then Blocked else a, if t == 4 then Blocked else b, if t == 5 then Blocked else c, User, w + [t]));
  }

  lemma ReachAllAsleep()
    ensures Reached(Crew(Blocked, Blocked, Blocked, User, [2, 4, 5]))
  {
    hide Reached, Goes, Three, Two, Four, Boot, Crew;
    DeadlockForks();
    CrewForks();
    ReachBoot();
    ReachNext(Boot(), Fork(1, 2, 2), Two());
    ReachNext(Two(), Fork(2, 3, 3), Three(User, User, User, [3]));
    ReachNext(Three(User, User, User, [3]), ThreadFork(2, 4), Four());
    ReachNext(Four(), ThreadFork(2, 5), Crew(User, User, User, User, []));
    CrewUsers();
    ReachAsleep(User, User, User, [], 2);
    ReachAsleep(Blocked, User, User, [] + [2], 4);
    ReachAsleep(Blocked, Blocked, User, [] + [2] + [4], 5);
    assert [] + [2] + [4] + [5] == [2, 4, 5];
  }

  lemma CrewUsers()
    ensures forall b, c, w :: Crew(User, b, c, User, w).threads[2].st.User?
    ensures forall a, c, w :: Crew(a, User, c, User, w).threads[4].st.User?
    ensures forall a, b, w :: Crew(a, b, User, User, w).threads[5].st.User?
  {
  }

  lemma ReachBoot()
    ensures Reached(Boot())
  {
    assert IsRun([Boot()], []);
  }

  /** Such a state is reached: three threads of one process sleep, their only child exits
      and wakes the first, which reaps it and wakes the second. */
  lemma StrandedReachable() returns (s: State)
    ensures Reached(s) && Stranded(s, 5)
  {
    hide Reached, Goes, Enabled, Next, Strands, Stranded, Crew, Reaped;
    ReachAllAsleep();
    CrewLocks();
    CrewExits();
    CrewLooks();
    CrewFound();
    CrewDetaches();
    ReachNext(Crew(Blocked, Blocked, Blocked, User, [2, 4, 5]), LockVanish(3), Crew(Blocked, Blocked, Blocked, Vanishing, [2, 4, 5]));
    ReachNext(Crew(Blocked, Blocked, Blocked, Vanishing, [2, 4, 5]), Vanish(3), Crew(Entering, Blocked, Blocked, Gone, [4, 5]));
    ReachNext(Crew(Entering, Blocked, Blocked, Gone, [4, 5]), LockOwn(2), Crew(Scanning(0), Blocked, Blocked, Gone, [4, 5]));
    ReachNext(Crew(Scanning(0), Blocked, Blocked, Gone, [4, 5]), LockChild(2), Crew(Reaping(3, Found), Blocked, Blocked, Gone, [4, 5]));
    ReachNext(Crew(Reaping(3, Found), Blocked, Blocked, Gone, [4, 5]), Detach(2), Reaped(Reaping(3, Detached), false));
    s := ReachLast();
  }

  lemma ReachLast() returns (s: State)
    requires Reached(Reaped(Reaping(3, Detached), false))
    ensures Reached(s) && Stranded(s, 5)
  {
    hide Reached, Enabled, Next, Strands, Stranded, Reaped;
    CrewMoves();
    CrewSplices();
    CrewFrees();
    CrewStrands();
    ReachNext(Reaped(Reaping(3, Detached), false), LockInit(2), Reaped(Reaping(3, HasInit), false));
    ReachNext(Reaped(Reaping(3, HasInit), false), Splice(2), Reaped(Reaping(3, Walking([])), false));
    ReachNext(Reaped(Reaping(3, Walking([])), false), Release(2), Reaped(Reaping(3, Final), true));
    ReachedGood(Reaped(Reaping(3, Final), true));
    StrandsThen(Reaped(Reaping(3, Final), true), FinalWake(2), 5);
    s := Next(Reaped(Reaping(3, Final), true), FinalWake(2));
    ReachNext(Reaped(Reaping(3, Final), true), FinalWake(2), s);
  }

  lemma ReachedGood(s: State)
    requires Reached(s)
    ensures Good(s)
  {
    var states, events :| IsRun(states, events) && states[|events|] == s;
    RunGood(states, events, |events|);
  }
}
