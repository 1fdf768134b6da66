/** The steps of the wait protocol that change the process tree, and the invariant over
    whole runs. */
module WaitTree {
  import opened Basics
  import opened WaitProtocol
  import opened WaitSafety

  // ---------------------------------------------------------------- common to all of them

  /** The step changes what `t` is doing and perhaps the tree, and terminates nobody. */
  ghost predicate Moved(s: State, s': State, t: Tid) {
    && t in s.threads && t in s'.threads && s'.waiting == s.waiting
    && s'.threads == s.threads[t := s'.threads[t]] && s'.threads[t].proc == s.threads[t].proc
    && !s.threads[t].st.Gone? && !s'.threads[t].st.Gone? && !s.threads[t].st.Blocked? && !s'.threads[t].st.Blocked?
  }

  lemma MovedAlive(s: State, s': State, t: Tid)
    requires Moved(s, s', t)
    ensures forall p :: Alive(s', p) <==> Alive(s, p)
    ensures forall u, p :: Waits(s', u, p) <==> Waits(s, u, p)
  {
    forall p
      ensures Alive(s', p) <==> Alive(s, p)
    {
      if u :| LivesIn(s, u, p) { assert LivesIn(s', u, p); }
      if u :| LivesIn(s', u, p) { assert LivesIn(s, u, p); }
    }
  }

  lemma MovedWait(s: State, s': State, t: Tid)
    requires Moved(s, s', t) && WaitOK(s)
    ensures WaitOK(s')
  {
  }

  /** A step that takes no lock keeps locks exclusive. */
  lemma FewerLocks(s: State, s': State)
    requires Exclusive(s) && forall u, q :: Holds(s', u, q) ==> Holds(s, u, q)
    ensures Exclusive(s')
  {
    hide Holds;
  }

  /** What is to be shown of the state after such a step. */
  lemma MovedInv(s: State, s': State, t: Tid)
    requires Inv(s) && Moved(s, s', t)
    requires forall u :: u in s'.threads && !s'.threads[u].st.Gone? ==> s'.threads[u].proc in s'.procs
    requires s'.threads[t].proc == ROOT ==> s'.threads[t].st.User?
    requires forall u, q :: Holds(s', u, q) ==> Holds(s, u, q)
    requires forall u :: u in s'.threads ==> ScanAt(s', s'.threads[u].proc, s'.threads[u].st) && ReapAt(s', s'.threads[u].proc, s'.threads[u].st)
    requires ROOT in s'.procs && INIT in s'.procs && s'.procs[INIT].parent == ROOT
    requires forall q :: ParentAt(s', q) && ListAt(s', q) && PlacedAt(s', q)
    requires forall p :: NoLostAt(s', p)
    ensures Inv(s')
  {
    hide Holds, ScanAt, ReapAt, ParentAt, ListAt, PlacedAt, NoLostAt, WaitOK, Exclusive;
    FewerLocks(s, s');
    MovedWait(s, s', t);
  }

  lemma {:induction false} RemoveMembers(l: seq<Pid>, q: Pid)
    requires NoDuplicates(l)
    ensures forall x :: x in Remove(l, q) <==> x in l && x != q
  {
    if l != [] {
      RemoveMembers(l[1..], q);
      assert l == [l[0]] + l[1..];
    }
  }

  lemma {:induction false} RemoveFacts(l: seq<Pid>, q: Pid)
    requires NoDuplicates(l)
    ensures NoDuplicates(Remove(l, q)) && forall x :: x in Remove(l, q) <==> x in l && x != q
  {
    RemoveMembers(l, q);
    if l != [] {
      TailNoDuplicates(l);
      hide NoDuplicates;
      RemoveFacts(l[1..], q);
      ConsNoDuplicates(l[0], Remove(l[1..], q));
    }
  }

  lemma TailNoDuplicates(l: seq<Pid>)
    requires NoDuplicates(l) && l != []
    ensures NoDuplicates(l[1..]) && l[0] !in l[1..]
  {
  }

  lemma ConsNoDuplicates(a: Pid, r: seq<Pid>)
    requires NoDuplicates(r)
    ensures a !in r ==> NoDuplicates([a] + r)
  {
    var l := [a] + r;
    forall i, j | 0 <= i < j < |l| && a !in r
      ensures l[i] != l[j]
    {
      assert l[j] == r[j - 1] && (i > 0 ==> l[i] == r[i - 1]);
    }
  }

  // ------------------------------------------------------------------------- detaching

  /** The facts a reaping thread relies on. */
  lemma ReaperFacts(s: State, t: Tid)
    requires Rest(s) && t in s.threads && s.threads[t].st.Reaping? && !s.threads[t].st.stage.Final?
    ensures var p, c := s.threads[t].proc, s.threads[t].st.child;
            && p in s.procs && p != ROOT && Alive(s, p) && c in s.procs && c != ROOT && c != INIT && c != p
            && s.procs[c].parent == p && !Alive(s, c) && Holds(s, t, p)
            && ReapAt(s, p, s.threads[t].st)
  {
    hide Alive, Exclusive, ScanOK, ParentAt, ListAt, PlacedAt, ScanAt;
    ThreadFacts(s, t);
  }

  /** No process that a live thread works in, and none that such a thread has as parent, is
      a child being moved. */
  lemma NotMoving(s: State, q: Pid)
    requires Rest(s) && Moving(s, q)
    ensures q in s.procs && q in Children(s, INIT) && !Alive(s, s.procs[q].parent) && Children(s, s.procs[q].parent) == []
  {
    hide Alive, Exclusive, ScanOK, TreeOK, ScanAt;
    var u := Mover(s, q);
    ThreadFacts(s, u);
  }

  lemma NotLeaving(s: State, q: Pid)
    requires Rest(s) && Leaving(s, q)
    ensures q in s.procs && Alive(s, s.procs[q].parent) && !Alive(s, q) && forall x :: q !in Children(s, x)
  {
    hide Alive, Exclusive, ScanOK, TreeOK, ScanAt;
    var u :| u in s.threads && Takes(s.threads[u].st, q);
    ThreadFacts(s, u);
  }

  lemma DetachHolds(s: State, t: Tid)
    requires Rest(s) && Enabled(s, Detach(t))
    ensures forall u, q :: Holds(Next(s, Detach(t)), u, q) ==> Holds(s, u, q)
  {
    hide Alive, ScanOK, ReapOK, TreeOK;
    var s', p := Next(s, Detach(t)), s.threads[t].proc;
    assert Holds(s, t, p);
    forall u, q | Holds(s', u, q)
      ensures Holds(s, u, q)
    {
      if u != t && s.threads[u].st.Scanning? {
        assert Holds(s, u, s.threads[u].proc);
        assert Children(s', s.threads[u].proc) == Children(s, s.threads[u].proc);
      }
    }
  }

  lemma DetachLists(s: State, t: Tid)
    requires Rest(s) && Enabled(s, Detach(t))
    ensures var s', p, c := Next(s, Detach(t)), s.threads[t].proc, s.threads[t].st.child;
            && (forall x :: x != p ==> Children(s', x) == Children(s, x))
            && NoDuplicates(Children(s', p)) && (forall q :: q in Children(s', p) <==> q in Children(s, p) && q != c)
            && (forall q :: q in s'.procs <==> q in s.procs) && (forall q :: q in s.procs ==> s'.procs[q].parent == s.procs[q].parent)
            && (forall x :: c !in Children(s', x))
            && (forall q :: Moving(s', q) <==> Moving(s, q)) && (forall q :: Leaving(s', q) <==> Leaving(s, q) || q == c)
  {
    hide Alive, Exclusive, ScanOK, ParentAt, PlacedAt, NoDuplicates, Leaving, Moving;
    var s', p, c := Next(s, Detach(t)), s.threads[t].proc, s.threads[t].st.child;
    ReaperFacts(s, t);
    assert ListAt(s, p);
    RemoveFacts(Children(s, p), c);
    forall x | x != p
      ensures c !in Children(s, x)
    {
      assert ListAt(s, x);
      if Moving(s, c) { NotMoving(s, c); }
    }
    DetachMarks(s, t);
  }

  lemma DetachMarks(s: State, t: Tid)
    requires Enabled(s, Detach(t))
    ensures var s', c := Next(s, Detach(t)), s.threads[t].st.child;
            (forall q :: Moving(s', q) <==> Moving(s, q)) && (forall q :: Leaving(s', q) <==> Leaving(s, q) || q == c)
  {
    var s', c := Next(s, Detach(t)), s.threads[t].st.child;
    assert Takes(s'.threads[t].st, c);
    forall q
      ensures Moving(s', q) <==> Moving(s, q)
      ensures Leaving(s', q) <==> Leaving(s, q) || q == c
    {
      if w :| w in s.threads && Moves(s.threads[w].st, q) { assert Moves(s'.threads[w].st, q); }
      if w :| w in s'.threads && Moves(s'.threads[w].st, q) { assert Moves(s.threads[w].st, q); }
      if w :| w in s.threads && Takes(s.threads[w].st, q) { assert Takes(s'.threads[w].st, q); }
      if w :| w in s'.threads && Takes(s'.threads[w].st, q) { assert w != t ==> Takes(s.threads[w].st, q); }
    }
  }

  lemma DetachChecks(s: State, t: Tid, u: Tid)
    requires Rest(s) && Enabled(s, Detach(t)) && u in s.threads
    ensures var s' := Next(s, Detach(t)); ScanAt(s', s'.threads[u].proc, s'.threads[u].st) && ReapAt(s', s'.threads[u].proc, s'.threads[u].st)
  {
    hide Alive, TreeOK, ScanOK, ReapOK, Moving, Leaving, NoDuplicates;
    var s', p := Next(s, Detach(t)), s.threads[t].proc;
    ReaperFacts(s, t);
    DetachLists(s, t);
    MovedAlive(s, s', t);
    ThreadFacts(s, u);
    if u != t {
      var x, st := s.threads[u].proc, s.threads[u].st;
      if st.Scanning? || (st.Reaping? && !st.stage.Final?) { assert Holds(s, u, x); }
      if st.Reaping? && st.stage.Walking? { assert Holds(s, u, INIT); }
    }
  }

  lemma DetachTree(s: State, t: Tid, q: Pid)
    requires Rest(s) && Enabled(s, Detach(t))
    ensures var s' := Next(s, Detach(t)); ParentAt(s', q) && ListAt(s', q) && PlacedAt(s', q)
  {
    hide Alive, Exclusive, ScanOK, ReapOK, Moving, Leaving, NoDuplicates;
    DetachLists(s, t);
    assert ParentAt(s, q) && ListAt(s, q) && PlacedAt(s, q);
  }

  /** If a step makes no child of `p` exit or appear, loses no coverage and puts nobody to
      sleep, it loses no wake-up. */
  lemma LessToDo(s: State, s': State, p: Pid)
    requires NoLostAt(s, p) && (HasExited(s', p) ==> HasExited(s, p)) && (Covered(s, p) ==> Covered(s', p))
    requires forall u :: Waits(s', u, p) <==> Waits(s, u, p)
    ensures NoLostAt(s', p)
  {
    hide HasExited, Covered;
  }

  /** A thread that goes on reaping goes on covering. */
  lemma StillCovered(s: State, s': State, t: Tid, p: Pid)
    requires Moved(s, s', t) && s.threads[t].st.Reaping? && s'.threads[t].st.Reaping?
    requires s.threads[t].st.stage.Walking? ==> s'.threads[t].st.stage.Walking? || s'.threads[t].st.stage.Final?
    requires !s.threads[t].st.stage.Final?
    ensures Covered(s, p) ==> Covered(s', p)
  {
    if w :| Covers(s, w, p) { assert Covers(s', w, p); }
  }

  lemma DetachNoLost(s: State, t: Tid, p: Pid)
    requires Inv(s) && Enabled(s, Detach(t))
    ensures NoLostAt(Next(s, Detach(t)), p)
  {
    hide Alive, Rest, WaitOK;
    var s' := Next(s, Detach(t));
    DetachLists(s, t);
    MovedAlive(s, s', t);
    StillCovered(s, s', t, p);
    assert NoLostAt(s, p);
    if c :| c in Children(s', p) && !Alive(s', c) { assert c in Children(s, p) && !Alive(s, c); }
    LessToDo(s, s', p);
  }

  lemma DetachKeeps(s: State, t: Tid)
    requires Inv(s) && Enabled(s, Detach(t))
    ensures Inv(Next(s, Detach(t)))
  {
    hide Inv, Rest, Alive, Holds, ScanAt, ReapAt, ParentAt, ListAt, PlacedAt, NoLostAt, Moving, Leaving, NoDuplicates;
    Unfold(s);
    var s' := Next(s, Detach(t));
    ReaperFacts(s, t);
    DetachLists(s, t);
    DetachHolds(s, t);
    MovedKnown(s, s', t);
    forall u | u in s'.threads
      ensures ScanAt(s', s'.threads[u].proc, s'.threads[u].st) && ReapAt(s', s'.threads[u].proc, s'.threads[u].st)
    {
      DetachChecks(s, t, u);
    }
    forall q
      ensures ParentAt(s', q) && ListAt(s', q) && PlacedAt(s', q) && NoLostAt(s', q)
    {
      DetachTree(s, t, q);
      DetachNoLost(s, t, q);
    }
    MovedInv(s, s', t);
  }

  /** What a step that frees no process keeps. */
  lemma MovedKnown(s: State, s': State, t: Tid)
    requires Rest(s) && Moved(s, s', t) && s'.procs.Keys == s.procs.Keys
    requires INIT in s'.procs ==> s'.procs[INIT].parent == (if INIT in s.procs then s.procs[INIT].parent else ROOT)
    ensures forall u :: u in s'.threads && !s'.threads[u].st.Gone? ==> s'.threads[u].proc in s'.procs
    ensures ROOT in s'.procs && INIT in s'.procs && s'.procs[INIT].parent == ROOT
  {
    hide ParentAt, ListAt, PlacedAt, Exclusive, ScanOK, ReapOK;
  }

  // -------------------------------------------------------------------------- splicing

  lemma HoldsInit(s: State, t: Tid)
    requires Enabled(s, Splice(t)) || Enabled(s, Walk(t)) || Enabled(s, Release(t))
    ensures Holds(s, t, INIT) && Holds(s, t, s.threads[t].proc)
  {
  }

  /** Going up from any process other than init and the root, one comes to a child of
      init. */
  lemma {:induction false} TopAncestor(s: State, q: Pid) returns (a: Pid)
    requires TreeOK(s) && q in s.procs && q != ROOT && q != INIT
    requires forall x :: x in s.procs && x != INIT && x != ROOT ==> s.procs[x].parent != ROOT
    ensures a in s.procs && a != ROOT && a != INIT && s.procs[a].parent == INIT
    decreases q
  {
    hide ListAt, PlacedAt;
    assert ParentAt(s, q);
    if s.procs[q].parent == INIT {
      a := q;
    } else {
      a := TopAncestor(s, s.procs[q].parent);
    }
  }

  /** Only init's children belong to the root. */
  ghost predicate Rooted(s: State) {
    forall x :: x in s.procs && x != INIT && x != ROOT ==> s.procs[x].parent != ROOT
  }

  /** The branch of handle_wait that gives orphans to the caller instead of init is reached
      only when the caller is init. */
  lemma EmptyOnlyForInit(s: State, t: Tid)
    requires Rest(s) && Rooted(s) && Enabled(s, Splice(t)) && Children(s, INIT) == []
    ensures s.threads[t].proc == INIT
  {
    hide Alive, ScanOK, ReapOK, NoDuplicates;
    ReaperFacts(s, t);
    var p := s.threads[t].proc;
    if p != INIT {
      var a := TopAncestor(s, p);
      assert PlacedAt(s, a);
      HoldsInit(s, t);
      if Moving(s, a) { NotMoving(s, a); }
      if Leaving(s, a) { LeavingUnderLock(s, t, a); }
    }
  }

  /** Whoever frees a child of init works for init. */
  lemma LeavingUnderLock(s: State, t: Tid, a: Pid)
    requires Rest(s) && Holds(s, t, INIT) && Leaving(s, a) && a in s.procs && s.procs[a].parent == INIT
    ensures s.threads[t].proc == INIT
  {
    hide Alive, ScanOK, ReapOK, TreeOK;
    var u := Taker(s, a);
    ReaperFacts(s, u);
    assert Holds(s, u, INIT);
  }

  lemma Taker(s: State, c: Pid) returns (w: Tid)
    requires Leaving(s, c)
    ensures w in s.threads && Takes(s.threads[w].st, c)
  {
    w :| w in s.threads && Takes(s.threads[w].st, c);
  }

  /** The lists after the orphans have been spliced into init's. */
  lemma SpliceLists(s: State, t: Tid)
    requires Rest(s) && Rooted(s) && Enabled(s, Splice(t))
    ensures var s', c := Next(s, Splice(t)), s.threads[t].st.child;
            && Children(s', INIT) == Children(s, INIT) + Children(s, c) && Children(s', c) == []
            && (forall x :: x != INIT && x != c ==> Children(s', x) == Children(s, x))
            && s'.procs.Keys == s.procs.Keys && (forall q :: q in s.procs ==> s'.procs[q].parent == s.procs[q].parent)
            && Moved(s, s', t) && s'.threads[t].st == Reaping(c, Walking(Children(s, c)))
  {
    hide Alive, Exclusive, ScanOK, ReapOK, ParentAt, ListAt, PlacedAt;
    ReaperFacts(s, t);
    if Children(s, INIT) == [] { EmptyOnlyForInit(s, t); }
  }

  lemma SpliceMarks(s: State, t: Tid)
    requires Rest(s) && Rooted(s) && Enabled(s, Splice(t))
    ensures var s', c := Next(s, Splice(t)), s.threads[t].st.child;
            && (forall q :: Moving(s', q) <==> q in Children(s, c)) && (forall q :: !Moving(s, q))
            && (forall q :: Leaving(s', q) <==> Leaving(s, q))
  {
    hide Alive, ScanOK, ReapOK, TreeOK;
    var s', c := Next(s, Splice(t)), s.threads[t].st.child;
    SpliceLists(s, t);
    HoldsInit(s, t);
    forall q
      ensures Moving(s', q) <==> q in Children(s, c)
      ensures !Moving(s, q)
      ensures Leaving(s', q) <==> Leaving(s, q)
    {
      if Moving(s, q) { NoMoves(s, t, q); }
      if q in Children(s, c) { assert Moves(s'.threads[t].st, q); }
      if q !in Children(s, c) { NoNewMove(s, s', t, q); }
      if w :| w in s.threads && Takes(s.threads[w].st, q) { assert Takes(s'.threads[w].st, q); }
      if w :| w in s'.threads && Takes(s'.threads[w].st, q) { assert Takes(s.threads[w].st, q); }
    }
  }

  lemma SpliceHolds(s: State, t: Tid)
    requires Rest(s) && Rooted(s) && Enabled(s, Splice(t))
    ensures forall u, q :: Holds(Next(s, Splice(t)), u, q) ==> Holds(s, u, q)
  {
    hide Alive, ScanOK, ReapOK, TreeOK;
    var s' := Next(s, Splice(t));
    SpliceLists(s, t);
    HoldsInit(s, t);
    ReaperFacts(s, t);
    forall u, q | Holds(s', u, q)
      ensures Holds(s, u, q)
    {
      if u != t && s.threads[u].st.Scanning? {
        assert Holds(s, u, s.threads[u].proc);
        ThreadFacts(s, u);
      }
    }
  }

  lemma SpliceChecks(s: State, t: Tid, u: Tid)
    requires Rest(s) && Rooted(s) && Enabled(s, Splice(t)) && u in s.threads
    ensures var s' := Next(s, Splice(t)); ScanAt(s', s'.threads[u].proc, s'.threads[u].st) && ReapAt(s', s'.threads[u].proc, s'.threads[u].st)
  {
    hide Alive, ScanOK, ReapOK, Moving, Leaving, NoDuplicates, ParentAt, PlacedAt;
    var s', c := Next(s, Splice(t)), s.threads[t].st.child;
    ReaperFacts(s, t);
    SpliceLists(s, t);
    MovedAlive(s, s', t);
    HoldsInit(s, t);
    ThreadFacts(s, u);
    if u != t {
      var x, st := s.threads[u].proc, s.threads[u].st;
      if st.Scanning? || (st.Reaping? && !st.stage.Final?) { assert Holds(s, u, x); }
      assert st.Reaping? && (st.stage.Walking? || st.stage.HasInit?) ==> Holds(s, u, INIT);
    } else {
      assert ListAt(s, c);
    }
  }

  lemma SpliceTree(s: State, t: Tid, q: Pid)
    requires Rest(s) && Rooted(s) && Enabled(s, Splice(t))
    ensures var s' := Next(s, Splice(t)); ParentAt(s', q) && ListAt(s', q) && PlacedAt(s', q)
  {
    hide Alive, Exclusive, ScanOK, ReapOK, Moving, Leaving;
    var s', c := Next(s, Splice(t)), s.threads[t].st.child;
    ReaperFacts(s, t);
    SpliceLists(s, t);
    SpliceMarks(s, t);
    assert ParentAt(s, q) && ListAt(s, q) && PlacedAt(s, q) && ListAt(s, c) && ListAt(s, INIT);
    if q == INIT {
      assert forall i :: 0 <= i < |Children(s, INIT)| ==> Children(s, INIT)[i] in Children(s, INIT);
      assert forall i :: 0 <= i < |Children(s, c)| ==> Children(s, c)[i] in Children(s, c);
    }
  }

  lemma SpliceNoLost(s: State, t: Tid, p: Pid)
    requires Inv(s) && Rooted(s) && Enabled(s, Splice(t))
    ensures NoLostAt(Next(s, Splice(t)), p)
  {
    hide Alive, Rest, WaitOK;
    var s' := Next(s, Splice(t));
    SpliceLists(s, t);
    MovedAlive(s, s', t);
    if p == INIT {
      assert Covers(s', t, p);
    } else {
      StillCovered(s, s', t, p);
      assert NoLostAt(s, p);
      if x :| x in Children(s', p) && !Alive(s', x) { assert x in Children(s, p) && !Alive(s, x); }
      LessToDo(s, s', p);
    }
  }

  lemma SpliceKeeps(s: State, t: Tid)
    requires Inv(s) && Rooted(s) && Enabled(s, Splice(t))
    ensures Inv(Next(s, Splice(t)))
  {
    hide Inv, Rest, Rooted, Alive, Holds, ScanAt, ReapAt, ParentAt, ListAt, PlacedAt, NoLostAt, Moving, Leaving, NoDuplicates;
    Unfold(s);
    var s' := Next(s, Splice(t));
    ReaperFacts(s, t);
    SpliceLists(s, t);
    SpliceHolds(s, t);
    MovedKnown(s, s', t);
    forall u | u in s'.threads
      ensures ScanAt(s', s'.threads[u].proc, s'.threads[u].st) && ReapAt(s', s'.threads[u].proc, s'.threads[u].st)
    {
      SpliceChecks(s, t, u);
    }
    forall q
      ensures ParentAt(s', q) && ListAt(s', q) && PlacedAt(s', q) && NoLostAt(s', q)
    {
      SpliceTree(s, t, q);
      SpliceNoLost(s, t, q);
    }
    MovedInv(s, s', t);
  }

  // -------------------------------------------------------------------- changing parents

  lemma WalkFacts(s: State, t: Tid)
    requires Rest(s) && Enabled(s, Walk(t))
    ensures var s', rest := Next(s, Walk(t)), s.threads[t].st.stage.rest;
            var c, q0 := s.threads[t].st.child, rest[0];
            && Moved(s, s', t) && s'.threads[t].st == Reaping(c, Walking(rest[1..])) && s'.procs.Keys == s.procs.Keys
            && (forall x :: Children(s', x) == Children(s, x))
            && (forall q :: q in s.procs ==> s'.procs[q].parent == if q == q0 then INIT else s.procs[q].parent)
            && s.procs[q0].parent == c && q0 in Children(s, INIT) && q0 !in rest[1..] && q0 != INIT && Children(s, c) == []
            && (forall q :: Moving(s, q) <==> q in rest) && (forall q :: Moving(s', q) <==> q in rest && q != q0)
            && (forall q :: Leaving(s', q) <==> Leaving(s, q))
  {
    hide Alive, ScanOK, ReapOK, ParentAt, ListAt, PlacedAt;
    var s', rest := Next(s, Walk(t)), s.threads[t].st.stage.rest;
    ReaperFacts(s, t);
    HoldsInit(s, t);
    assert rest == [rest[0]] + rest[1..];
    assert rest[0] in rest;
    WalkMarks(s, t);
  }

  lemma WalkMarks(s: State, t: Tid)
    requires Exclusive(s) && Enabled(s, Walk(t)) && NoDuplicates(s.threads[t].st.stage.rest)
    ensures var s', rest := Next(s, Walk(t)), s.threads[t].st.stage.rest;
            && rest[0] !in rest[1..]
            && (forall q :: Moving(s, q) <==> q in rest) && (forall q :: Moving(s', q) <==> q in rest && q != rest[0])
            && (forall q :: Leaving(s', q) <==> Leaving(s, q))
  {
    var s', rest := Next(s, Walk(t)), s.threads[t].st.stage.rest;
    HoldsInit(s, t);
    assert rest == [rest[0]] + rest[1..];
    forall q
      ensures Moving(s, q) <==> q in rest
      ensures Moving(s', q) <==> q in rest && q != rest[0]
      ensures Leaving(s', q) <==> Leaving(s, q)
    {
      if Moving(s, q) { NoMoves(s, t, q); }
      if q in rest { assert Moves(s.threads[t].st, q); }
      if q in rest[1..] { assert Moves(s'.threads[t].st, q); }
      if w :| w in s'.threads && Moves(s'.threads[w].st, q) && w != t { assert Moves(s.threads[w].st, q); assert Holds(s, w, INIT); }
      if w :| w in s.threads && Takes(s.threads[w].st, q) { assert Takes(s'.threads[w].st, q); }
      if w :| w in s'.threads && Takes(s'.threads[w].st, q) { assert Takes(s.threads[w].st, q); }
    }
  }

  lemma WalkChecks(s: State, t: Tid, u: Tid)
    requires Rest(s) && Enabled(s, Walk(t)) && u in s.threads
    ensures var s' := Next(s, Walk(t)); ScanAt(s', s'.threads[u].proc, s'.threads[u].st) && ReapAt(s', s'.threads[u].proc, s'.threads[u].st)
  {
    hide Alive, ScanOK, ReapOK, TreeOK, Moving, Leaving;
    var s', rest := Next(s, Walk(t)), s.threads[t].st.stage.rest;
    ReaperFacts(s, t);
    WalkFacts(s, t);
    MovedAlive(s, s', t);
    HoldsInit(s, t);
    ThreadFacts(s, u);
    if u != t {
      var st := s.threads[u].st;
      assert st.Reaping? && st.stage.Walking? ==> Holds(s, u, INIT);
    } else {
      assert rest == [rest[0]] + rest[1..];
    }
  }

  lemma WalkTree(s: State, t: Tid, q: Pid)
    requires Rest(s) && Enabled(s, Walk(t))
    ensures var s' := Next(s, Walk(t)); ParentAt(s', q) && ListAt(s', q) && PlacedAt(s', q)
  {
    hide Alive, Exclusive, ScanOK, ReapOK, Moving, Leaving, NoDuplicates;
    var c := s.threads[t].st.child;
    ReaperFacts(s, t);
    WalkFacts(s, t);
    assert ParentAt(s, q) && ListAt(s, q) && PlacedAt(s, q) && ParentAt(s, c);
  }

  lemma WalkNoLost(s: State, t: Tid, p: Pid)
    requires Inv(s) && Enabled(s, Walk(t))
    ensures NoLostAt(Next(s, Walk(t)), p)
  {
    hide Alive, Rest, WaitOK;
    var s' := Next(s, Walk(t));
    WalkFacts(s, t);
    MovedAlive(s, s', t);
    StillCovered(s, s', t, p);
    assert NoLostAt(s, p);
    if x :| x in Children(s', p) && !Alive(s', x) { assert x in Children(s, p) && !Alive(s, x); }
    LessToDo(s, s', p);
  }

  lemma SameListsHolds(s: State, s': State, t: Tid)
    requires Moved(s, s', t) && (forall x :: Children(s', x) == Children(s, x))
    requires forall q :: Holds(s', t, q) ==> Holds(s, t, q)
    ensures forall u, q :: Holds(s', u, q) ==> Holds(s, u, q)
  {
  }

  lemma WalkKeeps(s: State, t: Tid)
    requires Inv(s) && Enabled(s, Walk(t))
    ensures Inv(Next(s, Walk(t)))
  {
    hide Inv, Rest, Alive, ScanAt, ReapAt, ParentAt, ListAt, PlacedAt, NoLostAt, Moving, Leaving, NoDuplicates;
    Unfold(s);
    var s' := Next(s, Walk(t));
    ReaperFacts(s, t);
    WalkFacts(s, t);
    SameListsHolds(s, s', t);
    MovedKnown(s, s', t);
    forall u | u in s'.threads
      ensures ScanAt(s', s'.threads[u].proc, s'.threads[u].st) && ReapAt(s', s'.threads[u].proc, s'.threads[u].st)
    {
      WalkChecks(s, t, u);
    }
    forall q
      ensures ParentAt(s', q) && ListAt(s', q) && PlacedAt(s', q) && NoLostAt(s', q)
    {
      WalkTree(s, t, q);
      WalkNoLost(s, t, q);
    }
    MovedInv(s, s', t);
  }

  // --------------------------------------------------------------------- freeing a process

  lemma ReleaseFacts(s: State, t: Tid)
    requires Rest(s) && Enabled(s, Release(t))
    ensures var s', c := Next(s, Release(t)), s.threads[t].st.child;
            && Moved(s, s', t) && s'.threads[t].st == Reaping(c, Final) && c != INIT && c != ROOT
            && (forall x :: Children(s', x) == Children(s, x)) && Children(s, c) == [] && !Alive(s, c)
            && (forall x :: c !in Children(s, x))
            && (forall q :: q in s'.procs <==> q in s.procs && q != c) && (forall q :: q in s'.procs ==> s'.procs[q] == s.procs[q])
            && (forall q :: !Moving(s', q)) && (forall q :: Leaving(s, q) <==> Leaving(s', q) || q == c)
  {
    hide Alive, ScanOK, ReapOK, ParentAt, ListAt, PlacedAt;
    ReaperFacts(s, t);
    HoldsInit(s, t);
    ReleaseMarks(s, t);
  }

  lemma ReleaseMarks(s: State, t: Tid)
    requires Exclusive(s) && Enabled(s, Release(t))
    ensures var s', c := Next(s, Release(t)), s.threads[t].st.child;
            (forall q :: !Moving(s', q) && !Moving(s, q)) && (forall q :: Leaving(s, q) <==> Leaving(s', q) || q == c)
  {
    var s', c := Next(s, Release(t)), s.threads[t].st.child;
    HoldsInit(s, t);
    assert Takes(s.threads[t].st, c);
    forall q
      ensures !Moving(s', q)
      ensures !Moving(s, q)
      ensures Leaving(s, q) <==> Leaving(s', q) || q == c
    {
      if Moving(s, q) { NoMoves(s, t, q); }
      NoNewMove(s, s', t, q);
      if w :| w in s.threads && Takes(s.threads[w].st, q) { assert w != t ==> Takes(s'.threads[w].st, q); }
      if w :| w in s'.threads && Takes(s'.threads[w].st, q) { assert Takes(s.threads[w].st, q); }
    }
  }

  lemma NoNewMove(s: State, s': State, t: Tid, q: Pid)
    requires t in s.threads && t in s'.threads && s'.threads == s.threads[t := s'.threads[t]] && !Moves(s'.threads[t].st, q)
    ensures Moving(s', q) ==> Moving(s, q)
  {
    if Moving(s', q) {
      var w := Mover(s', q);
      assert Moves(s.threads[w].st, q);
    }
  }

  lemma ReleaseChecks(s: State, t: Tid, u: Tid)
    requires Rest(s) && Enabled(s, Release(t)) && u in s.threads
    ensures var s' := Next(s, Release(t)); ScanAt(s', s'.threads[u].proc, s'.threads[u].st) && ReapAt(s', s'.threads[u].proc, s'.threads[u].st)
  {
    hide Alive, ScanOK, ReapOK, TreeOK, Moving, Leaving;
    var s' := Next(s, Release(t));
    ReaperFacts(s, t);
    ReleaseFacts(s, t);
    MovedAlive(s, s', t);
    HoldsInit(s, t);
    ThreadFacts(s, u);
    if u != t {
      var st := s.threads[u].st;
      assert st.Reaping? && !st.stage.Final? ==> Holds(s, u, s.threads[u].proc);
      assert st.Reaping? && st.stage.Walking? ==> Holds(s, u, INIT);
    }
  }

  /** Nothing points to the process that is freed. */
  lemma NoOrphans(s: State, t: Tid, q: Pid)
    requires Rest(s) && Enabled(s, Release(t)) && q in s.procs && q != ROOT
    ensures s.procs[q].parent != s.threads[t].st.child
  {
    hide Alive, Exclusive, ScanOK, ReapOK, Moving, Leaving, ParentAt, ListAt;
    ReleaseFacts(s, t);
    ReleaseMarks(s, t) by { ExclusiveOf(s); }
    assert PlacedAt(s, q);
    if Leaving(s, q) { NotLeaving(s, q); }
  }

  lemma ExclusiveOf(s: State)
    requires Rest(s)
    ensures Exclusive(s)
  {
  }

  lemma ReleaseTree(s: State, t: Tid, q: Pid)
    requires Rest(s) && Enabled(s, Release(t))
    ensures var s' := Next(s, Release(t)); ParentAt(s', q) && ListAt(s', q) && PlacedAt(s', q)
  {
    hide Alive, Exclusive, ScanOK, ReapOK, Moving, Leaving, NoDuplicates;
    ReleaseFacts(s, t);
    ReleaseMarks(s, t) by { ExclusiveOf(s); }
    assert ParentAt(s, q) && ListAt(s, q) && PlacedAt(s, q);
    if q in s.procs && q != ROOT { NoOrphans(s, t, q); }
  }

  lemma ReleaseNoLost(s: State, t: Tid, p: Pid)
    requires Inv(s) && Enabled(s, Release(t))
    ensures NoLostAt(Next(s, Release(t)), p)
  {
    hide Alive, Rest, WaitOK;
    var s' := Next(s, Release(t));
    ReleaseFacts(s, t);
    MovedAlive(s, s', t);
    StillCovered(s, s', t, p);
    assert NoLostAt(s, p);
    if x :| x in Children(s', p) && !Alive(s', x) { assert x in Children(s, p) && !Alive(s, x); }
    LessToDo(s, s', p);
  }

  lemma ReleaseKeeps(s: State, t: Tid)
    requires Inv(s) && Enabled(s, Release(t))
    ensures Inv(Next(s, Release(t)))
  {
    hide Inv, Exclusive, ScanOK, ReapOK, Alive, ScanAt, ReapAt, ParentAt, ListAt, PlacedAt, NoLostAt, Moving, Leaving, NoDuplicates;
    Unfold(s);
    var s' := Next(s, Release(t));
    ReaperFacts(s, t);
    ReleaseFacts(s, t);
    SameListsHolds(s, s', t);
    ReleaseKnown(s, t);
    forall u | u in s'.threads
      ensures ScanAt(s', s'.threads[u].proc, s'.threads[u].st) && ReapAt(s', s'.threads[u].proc, s'.threads[u].st)
    {
      ReleaseChecks(s, t, u);
    }
    forall q
      ensures ParentAt(s', q) && ListAt(s', q) && PlacedAt(s', q) && NoLostAt(s', q)
    {
      ReleaseTree(s, t, q);
      ReleaseNoLost(s, t, q);
    }
    MovedInv(s, s', t);
  }

  lemma ReleaseKnown(s: State, t: Tid)
    requires Rest(s) && Enabled(s, Release(t))
    ensures var s' := Next(s, Release(t)); forall u :: u in s'.threads && !s'.threads[u].st.Gone? ==> s'.threads[u].proc in s'.procs
  {
    hide Exclusive, ScanOK, ReapOK, TreeOK, Alive;
    var s' := Next(s, Release(t));
    ReleaseFacts(s, t);
    forall u | u in s'.threads && !s'.threads[u].st.Gone?
      ensures s'.threads[u].proc in s'.procs
    {
      ThreadFacts(s, u);
    }
  }

  // ------------------------------------------------------------------------------ forking

  lemma ForkFacts(s: State, t: Tid, u: Tid, p': Pid)
    requires Rest(s) && Enabled(s, Fork(t, u, p'))
    ensures var s', p := Next(s, Fork(t, u, p')), s.threads[t].proc;
            && (forall x :: x != p ==> Children(s', x) == Children(s, x)) && Children(s', p) == Children(s, p) + [p'] && Children(s', p') == []
            && (forall q :: q in s'.procs <==> q in s.procs || q == p') && s'.procs[p'].parent == p
            && (forall q :: q in s.procs ==> s'.procs[q].parent == s.procs[q].parent)
            && (forall q :: q != p' ==> (Alive(s', q) <==> Alive(s, q))) && Alive(s', p')
            && (forall w, q :: Holds(s', w, q) <==> Holds(s, w, q))
            && (forall q :: (Moving(s', q) <==> Moving(s, q)) && (Leaving(s', q) <==> Leaving(s, q)))
            && (forall q :: Covered(s, q) ==> Covered(s', q)) && (forall w, q :: Waits(s', w, q) <==> Waits(s, w, q))
            && p' != p && p' > INIT
  {
    hide Exclusive, ScanOK, ReapOK, ParentAt, ListAt, PlacedAt;
    var s', p := Next(s, Fork(t, u, p')), s.threads[t].proc;
    var s1 := s.(threads := s.threads[u := Thread(p', User)]);
    AddThread(s, u, p');
    forall q
      ensures Alive(s', q) <==> Alive(s1, q)
      ensures (Moving(s', q) <==> Moving(s1, q)) && (Leaving(s', q) <==> Leaving(s1, q))
      ensures Covered(s1, q) ==> Covered(s', q)
    {
      SameThreads(s', s1, q);
      SameThreads(s1, s', q);
    }
    ForkHolds(s, t, u, p');
  }

  lemma SameThreads(s: State, s': State, p: Pid)
    requires s'.threads == s.threads
    ensures Alive(s, p) ==> Alive(s', p)
    ensures (Moving(s, p) ==> Moving(s', p)) && (Leaving(s, p) ==> Leaving(s', p)) && (Covered(s, p) ==> Covered(s', p))
  {
    if t :| LivesIn(s, t, p) { assert LivesIn(s', t, p); }
    if t :| Covers(s, t, p) { assert Covers(s', t, p); }
  }

  lemma ForkHolds(s: State, t: Tid, u: Tid, p': Pid)
    requires Enabled(s, Fork(t, u, p'))
    ensures forall w, q :: Holds(Next(s, Fork(t, u, p')), w, q) <==> Holds(s, w, q)
  {
    var s', p := Next(s, Fork(t, u, p')), s.threads[t].proc;
    forall w, q
      ensures Holds(s', w, q) <==> Holds(s, w, q)
    {
      if w in s.threads && s.threads[w].st.Scanning? && s.threads[w].proc == p { assert LivesIn(s, w, p); }
    }
  }

  lemma ForkChecks(s: State, t: Tid, u: Tid, p': Pid, w: Tid)
    requires Rest(s) && Enabled(s, Fork(t, u, p')) && w in Next(s, Fork(t, u, p')).threads
    ensures var s' := Next(s, Fork(t, u, p')); ScanAt(s', s'.threads[w].proc, s'.threads[w].st) && ReapAt(s', s'.threads[w].proc, s'.threads[w].st)
  {
    hide Alive, Exclusive, ScanOK, ReapOK, TreeOK, Moving, Leaving, Holds, NoDuplicates;
    ForkFacts(s, t, u, p');
    if w != u {
      ThreadFacts(s, w);
      ThreadFacts(s, t);
      assert !s.threads[w].st.Gone? ==> LivesIn(s, w, s.threads[w].proc);
    }
  }

  lemma ForkTree(s: State, t: Tid, u: Tid, p': Pid, q: Pid)
    requires Rest(s) && Enabled(s, Fork(t, u, p'))
    ensures var s' := Next(s, Fork(t, u, p')); ParentAt(s', q) && ListAt(s', q) && PlacedAt(s', q)
  {
    hide Alive, Exclusive, ScanOK, ReapOK, Moving, Leaving, Holds;
    ForkFacts(s, t, u, p');
    var p := s.threads[t].proc;
    assert ParentAt(s, q) && ListAt(s, q) && PlacedAt(s, q);
    assert forall i :: 0 <= i < |Children(s, p)| ==> Children(s, p)[i] in Children(s, p);
  }

  lemma ForkKeeps(s: State, t: Tid, u: Tid, p': Pid)
    requires Inv(s) && Enabled(s, Fork(t, u, p'))
    ensures Inv(Next(s, Fork(t, u, p')))
  {
    hide Inv, WaitOK, Alive, Exclusive, ScanOK, ReapOK, Holds, ScanAt, ReapAt, ParentAt, ListAt, PlacedAt, NoLostAt, Moving, Leaving, NoDuplicates;
    Unfold(s);
    var s' := Next(s, Fork(t, u, p'));
    ForkFacts(s, t, u, p');
    FewerLocks(s, s') by { ExclusiveOf(s); }
    forall w | w in s'.threads
      ensures ScanAt(s', s'.threads[w].proc, s'.threads[w].st) && ReapAt(s', s'.threads[w].proc, s'.threads[w].st)
    {
      ForkChecks(s, t, u, p', w);
    }
    assert ScanOK(s') && ReapOK(s') by { ChecksOK(s'); }
    forall q
      ensures ParentAt(s', q) && ListAt(s', q) && PlacedAt(s', q) && NoLostAt(s', q)
    {
      ForkTree(s, t, u, p', q);
      ForkNoLost(s, t, u, p', q);
    }
    ForkWait(s, t, u, p');
    Fold(s');
  }

  lemma ChecksOK(s: State)
    requires forall w :: w in s.threads ==> ScanAt(s, s.threads[w].proc, s.threads[w].st) && ReapAt(s, s.threads[w].proc, s.threads[w].st)
    ensures ScanOK(s) && ReapOK(s)
  {
    hide ScanAt, ReapAt;
  }

  lemma ForkWait(s: State, t: Tid, u: Tid, p': Pid)
    requires WaitOK(s) && Enabled(s, Fork(t, u, p'))
    ensures WaitOK(Next(s, Fork(t, u, p')))
  {
  }

  lemma ForkNoLost(s: State, t: Tid, u: Tid, p': Pid, x: Pid)
    requires Inv(s) && Enabled(s, Fork(t, u, p'))
    ensures NoLostAt(Next(s, Fork(t, u, p')), x)
  {
    hide Alive, Rest, WaitOK, Moving, Leaving, Holds, Covered;
    var s' := Next(s, Fork(t, u, p'));
    ForkFacts(s, t, u, p');
    assert NoLostAt(s, x);
    if y :| y in Children(s', x) && !Alive(s', y) { assert y in Children(s, x) && !Alive(s, y); }
    LessToDo(s, s', x);
  }
}
