/** What every step of the wait protocol keeps. */
module WaitSafety {
  import opened Basics
  import opened WaitProtocol

  // -------------------------------------------------------------------- the invariant

  /** Threads that have not terminated belong to processes that have not been freed; those
      of the root process only run. */
  ghost predicate ThreadsOK(s: State) {
    && (forall t :: t in s.threads && !s.threads[t].st.Gone? ==> s.threads[t].proc in s.procs)
    && (forall t :: t in s.threads && s.threads[t].proc == ROOT ==> s.threads[t].st.User? || s.threads[t].st.Gone?)
  }

  /** No lock is held twice. */
  ghost predicate Exclusive(s: State) {
    forall t, u, p :: Holds(s, t, p) && Holds(s, u, p) ==> t == u
  }

  /** The children a thread has looked at are still alive. */
  ghost predicate ScanAt(s: State, p: Pid, st: Doing) {
    st.Scanning? ==> st.k <= |Children(s, p)| && forall j :: 0 <= j < st.k ==> Alive(s, Children(s, p)[j])
  }

  /** A child being reaped has exited, and after it has been detached it is in no list. */
  ghost predicate ReapAt(s: State, p: Pid, st: Doing) {
    st.Reaping? && !st.stage.Final? ==>
      && st.child in s.procs && st.child != ROOT && s.procs[st.child].parent == p && !Alive(s, st.child)
      && (if st.stage.Found? then st.child in Children(s, p) else forall x :: st.child !in Children(s, x))
      && (st.stage.HasInit? ==> p != INIT)
      && (st.stage.Walking? ==>
            && Children(s, st.child) == [] && NoDuplicates(st.stage.rest)
            && forall q :: q in st.stage.rest ==> q in s.procs && s.procs[q].parent == st.child && q in Children(s, INIT))
  }

  ghost predicate ScanOK(s: State) { forall t :: t in s.threads ==> ScanAt(s, s.threads[t].proc, s.threads[t].st) }

  ghost predicate ReapOK(s: State) { forall t :: t in s.threads ==> ReapAt(s, s.threads[t].proc, s.threads[t].st) }

  /** The process has been taken out of its parent's list and is being freed. */
  ghost predicate Leaving(s: State, q: Pid) {
    exists t :: t in s.threads && Takes(s.threads[t].st, q)
  }

  predicate Takes(st: Doing, q: Pid) { st.Reaping? && st.child == q && !st.stage.Found? && !st.stage.Final? }

  /** The process has been moved to init's list and its parent pointer is still due. */
  ghost predicate Moving(s: State, q: Pid) {
    exists t :: t in s.threads && Moves(s.threads[t].st, q)
  }

  predicate Moves(st: Doing, q: Pid) { st.Reaping? && st.stage.Walking? && q in st.stage.rest }

  /** Parents are older than their children. */
  ghost predicate ParentAt(s: State, q: Pid) {
    q in s.procs && q != ROOT ==> s.procs[q].parent in s.procs && s.procs[q].parent < q
  }

  /** A list names each of its processes once, and they point back to it unless they are
      just being moved to init's. */
  ghost predicate ListAt(s: State, p: Pid) {
    && NoDuplicates(Children(s, p))
    && forall q :: q in Children(s, p) ==> q in s.procs && q != ROOT && (s.procs[q].parent == p || (p == INIT && Moving(s, q)))
  }

  /** A process is in its parent's list, unless it is being moved or freed. */
  ghost predicate PlacedAt(s: State, q: Pid) {
    q in s.procs && q != ROOT ==> q in Children(s, s.procs[q].parent) || Moving(s, q) || Leaving(s, q)
  }

  ghost predicate TreeOK(s: State) {
    && ROOT in s.procs && INIT in s.procs && s.procs[INIT].parent == ROOT
    && (forall q :: ParentAt(s, q)) && (forall p :: ListAt(s, p)) && (forall q :: PlacedAt(s, q))
  }

  ghost predicate WaitOK(s: State) {
    NoDuplicates(s.waiting) && forall t :: t in s.waiting <==> t in s.threads && s.threads[t].st.Blocked?
  }

  /** All but the order of the sleepers. */
  ghost predicate Rest(s: State) { ThreadsOK(s) && Exclusive(s) && ScanOK(s) && ReapOK(s) && TreeOK(s) }

  ghost predicate Core(s: State) { Rest(s) && WaitOK(s) }

  /** The thread will look at the children of `p` again, or wake another that will. */
  ghost predicate Covers(s: State, t: Tid, p: Pid) {
    && t in s.threads
    && (|| (s.threads[t].proc == p && Looks(s.threads[t].st))
        || (p == INIT && s.threads[t].st.Reaping? && (s.threads[t].st.stage.Walking? || s.threads[t].st.stage.Final?)))
  }

  predicate Looks(st: Doing) { st.Entering? || st.Scanning? || st.Reaping? }

  ghost predicate Covered(s: State, p: Pid) { exists t :: Covers(s, t, p) }

  ghost predicate Waits(s: State, u: Tid, p: Pid) { u in s.threads && s.threads[u].proc == p && s.threads[u].st.Blocked? }

  /** An exited child is in the list of `p`. */
  ghost predicate HasExited(s: State, p: Pid) { exists c :: c in Children(s, p) && !Alive(s, c) }

  /** No wake-up is lost for process `p`: while it has an exited child and a thread asleep
      for one, somebody will look. */
  ghost predicate NoLostAt(s: State, p: Pid) {
    HasExited(s, p) && (exists u :: Waits(s, u, p)) ==> Covered(s, p)
  }

  ghost predicate NoLostBut(s: State, except: set<Pid>) { forall p :: p !in except ==> NoLostAt(s, p) }

  ghost predicate Inv(s: State) { Core(s) && NoLostBut(s, {}) }

  // ------------------------------------------------- steps that change one thread's state

  /** What may be said of a change of state that leaves lists and liveness alone. */
  ghost predicate Quiet(s: State, t: Tid, st: Doing) {
    && t in s.threads && s.threads[t].proc in s.procs && s.threads[t].proc != ROOT
    && var old0, p := s.threads[t].st, s.threads[t].proc;
       && !old0.Gone? && !st.Gone?
       && (forall q :: Takes(old0, q) <==> Takes(st, q)) && (forall q :: Moves(old0, q) <==> Moves(st, q))
       && ScanAt(s, p, st) && ReapAt(s, p, st)
       && (forall q :: Holds(Set(s, t, st), t, q) ==> Holds(s, t, q) || Unlocked(s, q))
  }

  lemma SameAlive(s: State, t: Tid, st: Doing)
    requires t in s.threads && !s.threads[t].st.Gone? && !st.Gone?
    ensures forall p :: Alive(Set(s, t, st), p) <==> Alive(s, p)
  {
    var s' := Set(s, t, st);
    forall p
      ensures Alive(s', p) <==> Alive(s, p)
    {
      if u :| LivesIn(s, u, p) { assert LivesIn(s', u, p); }
      if u :| LivesIn(s', u, p) { assert LivesIn(s, u, p); }
    }
  }

  lemma SameHolds(s: State, t: Tid, st: Doing)
    requires t in s.threads
    ensures forall u, p :: u != t ==> (Holds(Set(s, t, st), u, p) <==> Holds(s, u, p))
  {
  }

  lemma SameMoves(s: State, t: Tid, st: Doing)
    requires t in s.threads
    requires (forall q :: Takes(s.threads[t].st, q) <==> Takes(st, q)) && (forall q :: Moves(s.threads[t].st, q) <==> Moves(st, q))
    ensures forall q :: Moving(Set(s, t, st), q) <==> Moving(s, q)
    ensures forall q :: Leaving(Set(s, t, st), q) <==> Leaving(s, q)
  {
    var s' := Set(s, t, st);
    forall q
      ensures Moving(s', q) <==> Moving(s, q)
      ensures Leaving(s', q) <==> Leaving(s, q)
    {
      if u :| u in s.threads && Moves(s.threads[u].st, q) { assert Moves(s'.threads[u].st, q); }
      if u :| u in s'.threads && Moves(s'.threads[u].st, q) { assert Moves(s.threads[u].st, q); }
      if u :| u in s.threads && Takes(s.threads[u].st, q) { assert Takes(s'.threads[u].st, q); }
      if u :| u in s'.threads && Takes(s'.threads[u].st, q) { assert Takes(s.threads[u].st, q); }
    }
  }

  lemma QuietRest(s: State, t: Tid, st: Doing)
    requires Rest(s) && Quiet(s, t, st)
    ensures Rest(Set(s, t, st))
  {
    hide ThreadsOK, Exclusive, ScanOK, ReapOK, TreeOK, Quiet, Set;
    QuietExclusive(s, t, st);
    QuietLooks(s, t, st);
    QuietTree(s, t, st);
  }

  lemma QuietExclusive(s: State, t: Tid, st: Doing)
    requires Exclusive(s) && Quiet(s, t, st)
    ensures Exclusive(Set(s, t, st))
  {
    hide Holds, ScanAt, ReapAt, Takes, Moves;
    SameHolds(s, t, st);
  }

  lemma QuietLooks(s: State, t: Tid, st: Doing)
    requires ThreadsOK(s) && ScanOK(s) && ReapOK(s) && Quiet(s, t, st)
    ensures ThreadsOK(Set(s, t, st)) && ScanOK(Set(s, t, st)) && ReapOK(Set(s, t, st))
  {
    hide ScanAt, ReapAt, Holds, Takes, Moves;
    var s' := Set(s, t, st);
    SameAlive(s, t, st);
    forall u | u in s'.threads
      ensures ScanAt(s', s'.threads[u].proc, s'.threads[u].st) && ReapAt(s', s'.threads[u].proc, s'.threads[u].st)
    {
      SameChecks(s, s', s'.threads[u].proc, s'.threads[u].st);
    }
  }

  /** The checks on a thread depend only on the lists, the parents and who is alive. */
  lemma SameChecks(s: State, s': State, p: Pid, st: Doing)
    requires s'.procs == s.procs && forall q :: Alive(s', q) <==> Alive(s, q)
    ensures ScanAt(s', p, st) == ScanAt(s, p, st) && ReapAt(s', p, st) == ReapAt(s, p, st)
  {
    hide Alive;
    assert forall q :: Children(s', q) == Children(s, q);
  }

  lemma QuietTree(s: State, t: Tid, st: Doing)
    requires TreeOK(s) && Quiet(s, t, st)
    ensures TreeOK(Set(s, t, st))
  {
    hide Holds, ScanAt, ReapAt, Takes, Moves, Moving, Leaving, NoDuplicates, ParentAt, ListAt, PlacedAt;
    SameMoves(s, t, st);
    SameTree(s, Set(s, t, st));
  }

  lemma SameTree(s: State, s': State)
    requires TreeOK(s) && s'.procs == s.procs
    requires forall q :: (Moving(s', q) <==> Moving(s, q)) && (Leaving(s', q) <==> Leaving(s, q))
    ensures TreeOK(s')
  {
    hide Moving, Leaving, NoDuplicates, ParentAt, ListAt, PlacedAt;
    forall q
      ensures ParentAt(s', q) && ListAt(s', q) && PlacedAt(s', q)
    {
      SameTreeAt(s, s', q);
    }
  }

  lemma SameTreeAt(s: State, s': State, q: Pid)
    requires s'.procs == s.procs
    requires forall x :: (Moving(s', x) <==> Moving(s, x)) && (Leaving(s', x) <==> Leaving(s, x))
    ensures ParentAt(s', q) == ParentAt(s, q) && ListAt(s', q) == ListAt(s, q) && PlacedAt(s', q) == PlacedAt(s, q)
  {
    hide Moving, Leaving, NoDuplicates;
    assert forall p :: Children(s', p) == Children(s, p);
  }

  lemma QuietWait(s: State, t: Tid, st: Doing)
    requires WaitOK(s) && t in s.threads && !s.threads[t].st.Blocked? && !st.Blocked?
    ensures WaitOK(Set(s, t, st))
  {
    hide NoDuplicates;
  }

  /** The other parts do not depend on the order of the sleepers. */
  lemma WaitingRest(s: State, w: seq<Tid>)
    requires Rest(s)
    ensures Rest(s.(waiting := w))
  {
    hide NoDuplicates, ParentAt, ListAt, PlacedAt, ScanAt, ReapAt;
    var s' := s.(waiting := w);
    WaitingFacts(s, w);
    forall t | t in s'.threads
      ensures ScanAt(s', s'.threads[t].proc, s'.threads[t].st) && ReapAt(s', s'.threads[t].proc, s'.threads[t].st)
    {
      SameChecks(s, s', s'.threads[t].proc, s'.threads[t].st);
    }
    SameTree(s, s');
  }

  lemma WaitingFacts(s: State, w: seq<Tid>)
    ensures var s' := s.(waiting := w);
            && (forall p :: Alive(s', p) <==> Alive(s, p)) && (forall t, p :: Holds(s', t, p) <==> Holds(s, t, p))
            && (forall q :: (Moving(s', q) <==> Moving(s, q)) && (Leaving(s', q) <==> Leaving(s, q)))
            && (forall p :: (Covered(s', p) <==> Covered(s, p)) && (HasExited(s', p) <==> HasExited(s, p)))
  {
    var s' := s.(waiting := w);
    forall p
      ensures Alive(s', p) <==> Alive(s, p)
      ensures (Moving(s', p) <==> Moving(s, p)) && (Leaving(s', p) <==> Leaving(s, p))
      ensures (Covered(s', p) <==> Covered(s, p)) && (HasExited(s', p) <==> HasExited(s, p))
    {
      WaitingFactsAt(s, s', p);
      WaitingFactsAt(s', s, p);
    }
  }

  lemma WaitingFactsAt(s: State, s': State, p: Pid)
    requires s'.threads == s.threads && s'.procs == s.procs
    ensures Alive(s, p) ==> Alive(s', p)
    ensures (Moving(s, p) ==> Moving(s', p)) && (Leaving(s, p) ==> Leaving(s', p))
    ensures (Covered(s, p) ==> Covered(s', p)) && (HasExited(s, p) ==> HasExited(s', p))
  {
    if t :| LivesIn(s, t, p) { assert LivesIn(s', t, p); }
    if t :| Covers(s, t, p) { assert Covers(s', t, p); }
    if c :| c in Children(s, p) && !Alive(s, c) {
      assert c in Children(s', p);
      if t :| LivesIn(s', t, c) { assert LivesIn(s, t, c); }
      assert HasExited(s', p);
    }
  }

  // ---------------------------------------------------------- no wake-up lost: local steps

  /** A change of state loses no coverage that is needed. */
  ghost predicate KeepsLooking(s: State, t: Tid, st: Doing, except: set<Pid>)
    requires t in s.threads
  {
    var old0, p := s.threads[t].st, s.threads[t].proc;
    && (Looks(old0) ==> Looks(st) || p in except || !HasExited(s, p))
    && (old0.Reaping? && (old0.stage.Walking? || old0.stage.Final?) ==>
          INIT in except || (st.Reaping? && (st.stage.Walking? || st.stage.Final?)))
  }

  lemma QuietNoLost(s: State, t: Tid, st: Doing, except: set<Pid>)
    requires t in s.threads && NoLostBut(s, {}) && Quiet(s, t, st) && !st.Blocked? && KeepsLooking(s, t, st, except)
    ensures NoLostBut(Set(s, t, st), except)
  {
    hide Quiet, NoLostAt, KeepsLooking, HasExited, Alive;
    forall p | p !in except
      ensures NoLostAt(Set(s, t, st), p)
    {
      QuietNoLostAt(s, t, st, except, p);
    }
  }

  lemma QuietNoLostAt(s: State, t: Tid, st: Doing, except: set<Pid>, p: Pid)
    requires NoLostAt(s, p) && Quiet(s, t, st) && !st.Blocked? && KeepsLooking(s, t, st, except) && p !in except
    ensures NoLostAt(Set(s, t, st), p)
  {
    hide ScanAt, ReapAt, Holds, Takes, Moves, Alive;
    var s' := Set(s, t, st);
    SameAlive(s, t, st);
    if HasExited(s', p) && exists u :: Waits(s', u, p) {
      var c :| c in Children(s', p) && !Alive(s', c);
      assert c in Children(s, p);
      assert HasExited(s, p);
      var u :| Waits(s', u, p);
      assert Waits(s, u, p);
      var w :| Covers(s, w, p);
      assert Covers(s', w, p);
    }
  }

  /** A step that only changes what one thread is doing. */
  lemma QuietStep(s: State, t: Tid, st: Doing)
    requires Inv(s) && t in s.threads && Quiet(s, t, st) && !s.threads[t].st.Blocked? && !st.Blocked? && KeepsLooking(s, t, st, {})
    ensures Inv(Set(s, t, st))
  {
    hide Quiet, Rest, WaitOK, NoLostBut, KeepsLooking;
    QuietRest(s, t, st);
    QuietWait(s, t, st);
    QuietNoLost(s, t, st, {});
  }

  /** Facts about a thread of the invariant. */
  lemma ThreadFacts(s: State, t: Tid)
    requires Rest(s) && t in s.threads
    ensures ScanAt(s, s.threads[t].proc, s.threads[t].st) && ReapAt(s, s.threads[t].proc, s.threads[t].st)
    ensures !s.threads[t].st.User? && !s.threads[t].st.Gone? ==> s.threads[t].proc in s.procs && s.threads[t].proc != ROOT
    ensures !s.threads[t].st.Gone? ==> s.threads[t].proc in s.procs && Alive(s, s.threads[t].proc)
  {
    hide ScanAt, ReapAt, Exclusive, TreeOK;
    assert !s.threads[t].st.Gone? ==> LivesIn(s, t, s.threads[t].proc);
  }

  lemma CallWaitKeeps(s: State, t: Tid)
    requires Inv(s) && Enabled(s, CallWait(t))
    ensures Inv(Next(s, CallWait(t)))
  {
    hide Inv;
    Unfold(s);
    assert Quiet(s, t, Entering);
    QuietStep(s, t, Entering);
  }

  lemma Unfold(s: State)
    requires Inv(s)
    ensures Rest(s) && WaitOK(s) && NoLostBut(s, {})
  {
  }

  lemma LockOwnKeeps(s: State, t: Tid)
    requires Inv(s) && Enabled(s, LockOwn(t))
    ensures Inv(Next(s, LockOwn(t)))
  {
    hide Inv, Rest, Alive;
    Unfold(s);
    ThreadFacts(s, t);
    var st := if Children(s, s.threads[t].proc) == [] then User else Scanning(0);
    assert Children(s, s.threads[t].proc)[..0] == [];
    assert Quiet(s, t, st);
    QuietStep(s, t, st);
  }

  lemma LockVanishKeeps(s: State, t: Tid)
    requires Inv(s) && Enabled(s, LockVanish(t))
    ensures Inv(Next(s, LockVanish(t)))
  {
    hide Inv, Rest, Alive;
    Unfold(s);
    assert Quiet(s, t, Vanishing);
    QuietStep(s, t, Vanishing);
  }

  lemma LockInitKeeps(s: State, t: Tid)
    requires Inv(s) && Enabled(s, LockInit(t))
    ensures Inv(Next(s, LockInit(t)))
  {
    hide Inv, Rest, Alive;
    Unfold(s);
    ThreadFacts(s, t);
    var st := Reaping(s.threads[t].st.child, HasInit);
    assert Quiet(s, t, st);
    QuietStep(s, t, st);
  }

  /** While a thread holds init's lock nobody else is moving processes to init. */
  lemma NoMoves(s: State, t: Tid, q: Pid)
    requires Exclusive(s) && Holds(s, t, INIT) && Moving(s, q)
    ensures Moves(s.threads[t].st, q)
  {
    var u :| u in s.threads && Moves(s.threads[u].st, q);
    assert Holds(s, u, INIT);
  }

  /** A child that a scanning thread comes to has the scanned process as its parent. */
  lemma ScannedChild(s: State, t: Tid, c: Pid)
    requires Rest(s) && t in s.threads && s.threads[t].st.Scanning? && c in Children(s, s.threads[t].proc)
    ensures c in s.procs && c != ROOT && s.procs[c].parent == s.threads[t].proc
  {
    var p := s.threads[t].proc;
    assert ListAt(s, p);
    assert Holds(s, t, p);
    if p == INIT && Moving(s, c) { NoMoves(s, t, c); }
  }

  lemma LockChildKeeps(s: State, t: Tid)
    requires Inv(s) && Enabled(s, LockChild(t))
    ensures Inv(Next(s, LockChild(t)))
  {
    hide Inv, Rest, Alive;
    Unfold(s);
    ThreadFacts(s, t);
    var p, k := s.threads[t].proc, s.threads[t].st.k;
    var cs := Children(s, p);
    var c := cs[k];
    ScannedChild(s, t, c);
    assert cs[..k + 1] == cs[..k] + [c];
    var st := if Alive(s, c) then Scanning(k + 1) else Reaping(c, Found);
    assert Quiet(s, t, st);
    QuietStep(s, t, st);
  }

  // ------------------------------------------------------------- sleeping and waking

  lemma AppendWaiting(s: State, t: Tid)
    requires WaitOK(s) && t in s.threads && !s.threads[t].st.Blocked?
    ensures WaitOK(Set(s, t, Blocked).(waiting := s.waiting + [t]))
  {
    assert t !in s.waiting;
  }

  lemma SleepKeeps(s: State, t: Tid)
    requires Inv(s) && Enabled(s, Sleep(t))
    ensures Inv(Next(s, Sleep(t)))
  {
    hide Inv, Rest, Alive, WaitOK, NoLostAt;
    Unfold(s);
    ThreadFacts(s, t);
    assert Quiet(s, t, Blocked);
    QuietRest(s, t, Blocked);
    WaitingRest(Set(s, t, Blocked), s.waiting + [t]);
    AppendWaiting(s, t);
    var s' := Next(s, Sleep(t));
    forall p
      ensures NoLostAt(s', p)
    {
      SleepNoLostAt(s, t, p);
    }
    Fold(s');
  }

  lemma Fold(s: State)
    requires Rest(s) && WaitOK(s) && forall p :: NoLostAt(s, p)
    ensures Inv(s)
  {
  }

  /** A thread goes to sleep only after finding every child alive. */
  lemma SleepNoLostAt(s: State, t: Tid, p: Pid)
    requires NoLostAt(s, p) && Enabled(s, Sleep(t)) && ScanAt(s, s.threads[t].proc, s.threads[t].st)
    ensures NoLostAt(Next(s, Sleep(t)), p)
  {
    hide Alive;
    var s1, s' := Set(s, t, Blocked), Next(s, Sleep(t));
    SameAlive(s, t, Blocked);
    WaitingFacts(s1, s'.waiting);
    if HasExited(s', p) && exists u :: Waits(s', u, p) {
      var c :| c in Children(s1, p) && !Alive(s1, c);
      assert c in Children(s, p) && !Alive(s, c);
      assert HasExited(s, p) && p != s.threads[t].proc;
      var u :| Waits(s', u, p);
      assert Waits(s, u, p);
      var w :| Covers(s, w, p);
      assert Covers(s', w, p);
    }
  }

  lemma RemoveWaiting(s: State, i: nat)
    requires WaitOK(s) && i < |s.waiting| && s.waiting[i] in s.threads
    ensures WaitOK(Set(s, s.waiting[i], Entering).(waiting := s.waiting[..i] + s.waiting[i + 1..]))
  {
    var t := s.waiting[i];
    var w := s.waiting[..i] + s.waiting[i + 1..];
    forall u
      ensures u in w <==> u in s.waiting && u != t
    {
      if j :| 0 <= j < |s.waiting| && s.waiting[j] == u && u != t {
        assert w[if j < i then j else j - 1] == u;
      }
      if j :| 0 <= j < |w| && w[j] == u {
        assert s.waiting[if j < i then j else j + 1] == u;
      }
    }
  }

  lemma WakeRest(s: State, p: Pid)
    requires Core(s)
    ensures Core(Wake(s, p))
  {
    hide Rest, WaitOK, Alive;
    var i := FirstWaiter(s, p, 0);
    if i < |s.waiting| {
      var u := s.waiting[i];
      SleeperFacts(s, u);
      QuietRest(s, u, Entering);
      WaitingRest(Set(s, u, Entering), s.waiting[..i] + s.waiting[i + 1..]);
      RemoveWaiting(s, i);
    }
  }

  lemma SleeperFacts(s: State, u: Tid)
    requires Core(s) && u in s.waiting
    ensures u in s.threads && s.threads[u].st.Blocked? && Quiet(s, u, Entering)
  {
    hide Alive, Exclusive, TreeOK, ScanAt, ReapAt;
    assert ScanAt(s, s.threads[u].proc, Entering) && ReapAt(s, s.threads[u].proc, Entering) by { NothingToCheck(s, s.threads[u].proc); }
  }

  lemma NothingToCheck(s: State, p: Pid)
    ensures ScanAt(s, p, Entering) && ReapAt(s, p, Entering) && ScanAt(s, p, User) && ReapAt(s, p, User)
  {
  }

  /** Waking one waiter of `p` is enough: it will look. */
  lemma WakeNoLost(s: State, p: Pid, except: set<Pid>)
    requires Core(s) && NoLostBut(s, except)
    ensures NoLostBut(Wake(s, p), except - {p})
    ensures Answered(Wake(s, p), p)
  {
    hide Rest, NoLostAt;
    WakeAnswers(s, p);
    forall x | x !in except - {p}
      ensures NoLostAt(Wake(s, p), x)
    {
      if x == p {
        AnsweredNoLost(Wake(s, p), p);
      } else {
        WakeNoLostAt(s, p, x);
      }
    }
  }

  /** Nobody sleeps for `p`, or somebody will look. */
  ghost predicate Answered(s: State, p: Pid) {
    (exists u :: Waits(s, u, p)) ==> exists w :: w in s.threads && s.threads[w].proc == p && s.threads[w].st.Entering?
  }

  lemma AnsweredNoLost(s: State, p: Pid)
    requires Answered(s, p)
    ensures NoLostAt(s, p)
  {
    if exists u :: Waits(s, u, p) {
      var w :| w in s.threads && s.threads[w].proc == p && s.threads[w].st.Entering?;
      assert Covers(s, w, p);
    }
  }

  lemma WakeAnswers(s: State, p: Pid)
    requires WaitOK(s)
    ensures Answered(Wake(s, p), p)
  {
    var i := FirstWaiter(s, p, 0);
    if i == |s.waiting| {
      assert forall u :: u in s.waiting && u in s.threads ==> s.threads[u].proc != p;
      assert forall u :: Waits(s, u, p) ==> u in s.waiting;
    } else {
      assert Wake(s, p).threads[s.waiting[i]].st.Entering?;
    }
  }

  lemma WakeNoLostAt(s: State, p: Pid, x: Pid)
    requires Core(s) && NoLostAt(s, x)
    ensures NoLostAt(Wake(s, p), x)
  {
    hide Rest, Alive;
    var i, s' := FirstWaiter(s, p, 0), Wake(s, p);
    if i < |s.waiting| {
      var t := s.waiting[i];
      SameAlive(s, t, Entering);
      WaitingFacts(Set(s, t, Entering), s'.waiting);
      if HasExited(s', x) && exists u :: Waits(s', u, x) {
        var c :| c in Children(s', x) && !Alive(s', c);
        assert c in Children(s, x);
        assert HasExited(s, x);
        var u :| Waits(s', u, x);
        assert Waits(s, u, x);
        var w :| Covers(s, w, x);
        assert Covers(s', w, x);
      }
    }
  }

  lemma FinalWakeKeeps(s: State, t: Tid)
    requires Inv(s) && Enabled(s, FinalWake(t))
    ensures Inv(Next(s, FinalWake(t)))
  {
    hide Inv, Rest, WaitOK, Alive, NoLostBut, Wake;
    Unfold(s);
    ThreadFacts(s, t);
    NothingToCheck(s, s.threads[t].proc);
    var p := s.threads[t].proc;
    assert Quiet(s, t, User);
    QuietRest(s, t, User);
    QuietWait(s, t, User);
    QuietNoLost(s, t, User, {p, INIT});
    var s1 := Set(s, t, User);
    WakeRest(s1, p);
    WakeNoLost(s1, p, {p, INIT});
    WakeRest(Wake(s1, p), INIT);
    WakeNoLost(Wake(s1, p), INIT, {p, INIT} - {p});
    assert {p, INIT} - {p} - {INIT} == {};
    Refold(Next(s, FinalWake(t)));
  }

  lemma Refold(s: State)
    requires Core(s) && NoLostBut(s, {})
    ensures Inv(s)
  {
  }

  // ---------------------------------------------------------------------- terminating

  lemma GoneAlive(s: State, t: Tid)
    requires t in s.threads && !s.threads[t].st.Gone?
    ensures var s' := Set(s, t, Gone);
            && (forall p :: Alive(s', p) ==> Alive(s, p))
            && (forall p :: p != s.threads[t].proc ==> (Alive(s', p) <==> Alive(s, p)))
            && (!OnlyThread(s, t) ==> forall p :: Alive(s', p) <==> Alive(s, p))
  {
    var s' := Set(s, t, Gone);
    forall p
      ensures Alive(s', p) ==> Alive(s, p)
      ensures p != s.threads[t].proc || !OnlyThread(s, t) ==> (Alive(s', p) <==> Alive(s, p))
    {
      if u :| LivesIn(s', u, p) { assert LivesIn(s, u, p); }
      if u :| LivesIn(s, u, p) && u != t { assert LivesIn(s', u, p); }
      if p == s.threads[t].proc && !OnlyThread(s, t) {
        var u :| LivesIn(s, u, p) && u != t;
        assert LivesIn(s', u, p);
      }
    }
  }

  lemma GoneRest(s: State, t: Tid)
    requires Rest(s) && t in s.threads && s.threads[t].st.Vanishing?
    ensures Rest(Set(s, t, Gone))
  {
    hide ScanAt, ReapAt, ParentAt, ListAt, PlacedAt, Alive, Moving, Leaving, NoDuplicates;
    var s' := Set(s, t, Gone);
    GoneAlive(s, t);
    SameHolds(s, t, Gone);
    SameMoves(s, t, Gone);
    SameTree(s, s');
    forall u | u in s'.threads
      ensures ScanAt(s', s'.threads[u].proc, s'.threads[u].st) && ReapAt(s', s'.threads[u].proc, s'.threads[u].st)
    {
      GoneChecks(s, t, u);
    }
  }

  /** The lock a vanishing thread holds keeps others from having looked at its process. */
  lemma GoneChecks(s: State, t: Tid, u: Tid)
    requires Rest(s) && t in s.threads && s.threads[t].st.Vanishing? && u in s.threads
    ensures var s' := Set(s, t, Gone); ScanAt(s', s'.threads[u].proc, s'.threads[u].st) && ReapAt(s', s'.threads[u].proc, s'.threads[u].st)
  {
    hide Alive, TreeOK;
    var s' := Set(s, t, Gone);
    GoneAlive(s, t);
    ThreadFacts(s, u);
    var p, st := s.threads[u].proc, s.threads[u].st;
    assert forall q :: Children(s', q) == Children(s, q);
    if u != t && st.Scanning? {
      var q := s.threads[t].proc;
      assert Holds(s, t, q);
      forall j | 0 <= j < st.k
        ensures Alive(s', Children(s', p)[j])
      {
        var cs := Children(s, p);
        assert cs[..st.k][j] == cs[j];
        assert Holds(s, u, cs[j]);
      }
    }
  }

  lemma GoneNoLost(s: State, t: Tid)
    requires Core(s) && NoLostBut(s, {}) && t in s.threads && s.threads[t].st.Vanishing?
    requires OnlyThread(s, t) ==> s.threads[t].proc in s.procs && Answered(s, s.procs[s.threads[t].proc].parent)
    ensures NoLostBut(Set(s, t, Gone), {})
  {
    hide Core, NoLostAt, Answered;
    forall p
      ensures NoLostAt(Set(s, t, Gone), p)
    {
      GoneNoLostAt(s, t, p);
    }
  }

  /** The process that has just exited is in its parent's list, whose sleeper was woken,
      or in init's while the one who moves it has still to wake init's. */
  lemma GoneNoLostAt(s: State, t: Tid, p: Pid)
    requires Core(s) && NoLostAt(s, p) && t in s.threads && s.threads[t].st.Vanishing?
    requires OnlyThread(s, t) ==> s.threads[t].proc in s.procs && Answered(s, s.procs[s.threads[t].proc].parent)
    ensures NoLostAt(Set(s, t, Gone), p)
  {
    hide Alive, Moving, Exclusive, ScanOK, ReapOK, WaitOK, ParentAt, PlacedAt, NoDuplicates;
    var s', x := Set(s, t, Gone), s.threads[t].proc;
    GoneAlive(s, t);
    if HasExited(s', p) && exists u :: Waits(s', u, p) {
      var c :| c in Children(s', p) && !Alive(s', c);
      assert c in Children(s, p);
      var u :| Waits(s', u, p);
      assert Waits(s, u, p);
      if !Alive(s, c) {
        assert HasExited(s, p);
        var w :| Covers(s, w, p);
        assert Covers(s', w, p);
      } else {
        assert ListAt(s, p);
        if s.procs[c].parent == p {
          var w :| w in s.threads && s.threads[w].proc == p && s.threads[w].st.Entering?;
          assert Covers(s', w, p);
        } else {
          var w := Mover(s, c);
          assert Covers(s', w, p);
        }
      }
    }
  }

  lemma Mover(s: State, c: Pid) returns (w: Tid)
    requires Moving(s, c)
    ensures w in s.threads && Moves(s.threads[w].st, c)
  {
    w :| w in s.threads && Moves(s.threads[w].st, c);
  }

  lemma GoneWait(s: State, t: Tid)
    requires WaitOK(s) && t in s.threads && s.threads[t].st.Vanishing?
    ensures WaitOK(Set(s, t, Gone))
  {
    QuietWait(s, t, Gone);
  }

  lemma VanishKeeps(s: State, t: Tid)
    requires Inv(s) && Enabled(s, Vanish(t))
    ensures Inv(Next(s, Vanish(t)))
  {
    hide Inv, Rest, WaitOK, Alive, NoLostBut, OnlyThread, Answered;
    Unfold(s);
    ThreadFacts(s, t);
    var x := s.procs[s.threads[t].proc].parent;
    var s1 := if OnlyThread(s, t) then Wake(s, x) else s;
    if OnlyThread(s, t) {
      WakeRest(s, x);
      WakeNoLost(s, x, {});
      assert {} - {x} == {};
      WakeOthers(s, x, t);
    }
    GoneRest(s1, t);
    GoneWait(s1, t);
    GoneNoLost(s1, t);
    Refold(Next(s, Vanish(t)));
  }

  /** Waking changes nobody who is not asleep. */
  lemma WakeOthers(s: State, x: Pid, t: Tid)
    requires WaitOK(s) && t in s.threads && !s.threads[t].st.Blocked?
    ensures t in Wake(s, x).threads && Wake(s, x).threads[t] == s.threads[t] && Wake(s, x).procs == s.procs
  {
  }

  // -------------------------------------------------------------------- forking threads

  lemma AddThread(s: State, u: Tid, p: Pid)
    requires u !in s.threads
    ensures var s' := s.(threads := s.threads[u := Thread(p, User)]);
            && (forall q :: q != p ==> (Alive(s', q) <==> Alive(s, q))) && Alive(s', p)
            && (forall w, q :: Holds(s', w, q) <==> Holds(s, w, q))
            && (forall q :: (Moving(s', q) <==> Moving(s, q)) && (Leaving(s', q) <==> Leaving(s, q)))
            && (forall q :: Covered(s, q) ==> Covered(s', q)) && (forall w, q :: Waits(s', w, q) <==> Waits(s, w, q))
  {
    var s' := s.(threads := s.threads[u := Thread(p, User)]);
    assert LivesIn(s', u, p);
    forall q
      ensures q != p ==> (Alive(s', q) <==> Alive(s, q))
      ensures Moving(s', q) <==> Moving(s, q)
      ensures Leaving(s', q) <==> Leaving(s, q)
      ensures Covered(s, q) ==> Covered(s', q)
    {
      if w :| LivesIn(s, w, q) { assert LivesIn(s', w, q); }
      if w :| LivesIn(s', w, q) && q != p { assert LivesIn(s, w, q); }
      if w :| w in s.threads && Moves(s.threads[w].st, q) { assert Moves(s'.threads[w].st, q); }
      if w :| w in s'.threads && Moves(s'.threads[w].st, q) { assert Moves(s.threads[w].st, q); }
      if w :| w in s.threads && Takes(s.threads[w].st, q) { assert Takes(s'.threads[w].st, q); }
      if w :| w in s'.threads && Takes(s'.threads[w].st, q) { assert Takes(s.threads[w].st, q); }
      if w :| Covers(s, w, q) { assert Covers(s', w, q); }
    }
  }

  lemma ThreadForkKeeps(s: State, t: Tid, u: Tid)
    requires Inv(s) && Enabled(s, ThreadFork(t, u))
    ensures Inv(Next(s, ThreadFork(t, u)))
  {
    hide Alive, Moving, Leaving, Holds, ScanAt, ReapAt, ParentAt, ListAt, PlacedAt, NoDuplicates, NoLostAt;
    var s', p := Next(s, ThreadFork(t, u)), s.threads[t].proc;
    AddThread(s, u, p);
    ThreadFacts(s, t);
    SameTree(s, s');
    NothingToCheck(s', p);
    forall w | w in s'.threads
      ensures ScanAt(s', s'.threads[w].proc, s'.threads[w].st) && ReapAt(s', s'.threads[w].proc, s'.threads[w].st)
    {
      if w != u { SameChecks(s, s', s'.threads[w].proc, s'.threads[w].st); }
    }
    forall x
      ensures NoLostAt(s', x)
    {
      SameNoLost(s, s', x);
    }
  }

  lemma SameNoLost(s: State, s': State, x: Pid)
    requires NoLostAt(s, x) && s'.procs == s.procs && (forall q :: Alive(s', q) <==> Alive(s, q))
    requires (Covered(s, x) ==> Covered(s', x)) && forall w :: Waits(s', w, x) <==> Waits(s, w, x)
    ensures NoLostAt(s', x)
  {
    hide Alive, Covered;
    if HasExited(s', x) {
      var c :| c in Children(s', x) && !Alive(s', c);
      assert c in Children(s, x);
      assert HasExited(s, x);
    }
  }
}
