/** When wait gets stuck: the locks its threads wait for, the one way they can come to wait
    for each other in a circle, and why nothing else holds them up. */
module WaitDeadlock {
  import opened Basics
  import opened WaitProtocol
  import opened WaitSafety
  import opened WaitTree
  import opened WaitRuns

  /** The steps of calls that have begun. */
  predicate Continues(e: Event) { !e.CallWait? && !e.LockVanish? && !e.Fork? && !e.ThreadFork? }

  /** A thread inside wait or vanish that is not asleep. */
  predicate Busy(st: Doing) { st.Entering? || st.Scanning? || st.Reaping? || st.Vanishing? }

  ghost predicate BusyIn(s: State, t: Tid) { t in s.threads && Busy(s.threads[t].st) }

  /** The thread's next step is possible. */
  ghost predicate Movable(s: State, t: Tid) { exists e :: Continues(e) && e.t == t && Enabled(s, e) }

  /** The lock that the thread's next step takes, if it takes one. */
  ghost predicate Wants(s: State, t: Tid, q: Pid) {
    && t in s.threads
    && var p, st := s.threads[t].proc, s.threads[t].st;
       match st
       case Entering => q == p
       case Scanning(k) => k < |Children(s, p)| && q == Children(s, p)[k]
       case Reaping(_, stage) => stage.Detached? && p != INIT && q == INIT
       case _ => false
  }

  /** The thread waits for a lock that another one has. */
  ghost predicate BlockedOn(s: State, t: Tid, u: Tid) { exists q :: Wants(s, t, q) && Holds(s, u, q) }

  // ------------------------------------------------------------------- who waits for whom

  lemma LockStep(s: State, t: Tid) returns (e: Event)
    requires Good(s) && BusyIn(s, t) && forall u :: !BlockedOn(s, t, u)
    ensures Continues(e) && e.t == t && Enabled(s, e)
  {
    hide Alive, Exclusive, TreeOK, WaitOK, NoLostBut, Rooted, ScanAt, NoDuplicates;
    ThreadFacts(s, t);
    var p, st := s.threads[t].proc, s.threads[t].st;
    forall q | Wants(s, t, q)
      ensures Unlocked(s, q)
    {
      forall u
        ensures !Holds(s, u, q)
      {
        assert !BlockedOn(s, t, u);
      }
    }
    RootsThere(s);
    match st
    case Entering => e := LockOwn(t); assert Wants(s, t, p);
    case Scanning(k) =>
      ScansWithin(s, t);
      e := if k < |Children(s, p)| then LockChild(t) else Sleep(t);
      assert k < |Children(s, p)| ==> Wants(s, t, Children(s, p)[k]);
    case Vanishing => e := Vanish(t);
    case Reaping(c, stage) =>
      match stage
      case Found => e := Detach(t);
      case Detached => e := if p == INIT then Splice(t) else LockInit(t); assert p != INIT ==> Wants(s, t, INIT);
      case HasInit => e := Splice(t);
      case Walking(rest) => e := if rest == [] then Release(t) else Walk(t); assert rest != [] ==> rest[0] in rest;
      case Final => e := FinalWake(t);
  }

  lemma RootsThere(s: State)
    requires Good(s)
    ensures ROOT in s.procs && INIT in s.procs && s.procs[INIT].parent == ROOT
  {
  }

  lemma ScansWithin(s: State, t: Tid)
    requires Good(s) && t in s.threads && s.threads[t].st.Scanning?
    ensures s.threads[t].st.k <= |Children(s, s.threads[t].proc)|
  {
    hide Alive;
    assert ScanAt(s, s.threads[t].proc, s.threads[t].st);
  }

  /** A thread in wait or vanish can take its next step exactly when no other thread has the
      lock for it. */
  lemma MovableIff(s: State, t: Tid)
    requires Good(s) && BusyIn(s, t)
    ensures Movable(s, t) <==> !exists u :: BlockedOn(s, t, u)
  {
    hide Good, Holds, Alive;
    if !exists u :: BlockedOn(s, t, u) {
      var e := LockStep(s, t);
    }
    if Movable(s, t) {
      var e :| Continues(e) && e.t == t && Enabled(s, e);
      forall u, q | Wants(s, t, q)
        ensures !Holds(s, u, q)
      {
        assert Unlocked(s, q);
      }
    }
  }

  /** A scanning thread waits for a thread of the child it has come to, which is the younger
      process. */
  lemma HolderBelow(s: State, t: Tid, u: Tid)
    requires Good(s) && t in s.threads && s.threads[t].st.Scanning? && BlockedOn(s, t, u)
    ensures BusyIn(s, u) && !s.threads[u].st.Entering? && s.threads[u].proc in s.procs
    ensures s.threads[u].proc > s.threads[t].proc && s.threads[u].proc != INIT && Wants(s, t, s.threads[u].proc)
  {
    hide Alive, ScanOK, ReapOK, WaitOK, NoLostBut, Rooted, PlacedAt;
    var p := s.threads[t].proc;
    var c := Children(s, p)[s.threads[t].st.k];
    assert Holds(s, u, c) && Holds(s, t, p);
    ScannedChild(s, t, c);
    assert ParentAt(s, c);
    ThreadFacts(s, t);
    if s.threads[u].st.Scanning? && c != s.threads[u].proc {
      assert c in Children(s, s.threads[u].proc);
      ScannedChild(s, u, c);
      assert Holds(s, u, p);
      NotBefore(s, p, s.threads[t].st.k);
    }
  }

  /** No child is listed twice. */
  lemma NotBefore(s: State, p: Pid, k: nat)
    requires TreeOK(s) && k < |Children(s, p)|
    ensures Children(s, p)[k] !in Children(s, p)[..k]
  {
    hide ParentAt, PlacedAt, Moving;
    assert ListAt(s, p);
  }

  /** A reaper that waits for init's lock waits for a thread that can go on, or for one of
      init's that is looking at its children. */
  lemma HolderOfInit(s: State, t: Tid, u: Tid)
    requires Good(s) && t in s.threads && s.threads[t].st.Reaping? && BlockedOn(s, t, u)
    ensures s.threads[t].st.stage.Detached? && s.threads[t].proc != INIT
    ensures BusyIn(s, u) && (Movable(s, u) || (s.threads[u].st.Scanning? && s.threads[u].proc == INIT))
  {
    hide Alive, ScanOK, ReapOK, WaitOK, NoLostBut, Rooted, PlacedAt, ListAt, ParentAt, Movable;
    assert Holds(s, u, INIT);
    if s.threads[u].st.Scanning? && s.threads[u].proc != INIT {
      ScannedChild(s, u, INIT);
      ThreadFacts(s, u);
    }
    if !s.threads[u].st.Scanning? {
      assert forall w :: !BlockedOn(s, u, w);
      MovableIff(s, u);
    }
  }

  // --------------------------------------------------------------------------- the circle

  /** Each thread waits for the one after it. */
  ghost predicate Path(s: State, ts: seq<Tid>) { ts != [] && forall i :: 0 < i < |ts| ==> BlockedOn(s, ts[i - 1], ts[i]) }

  /** A thread of init that looks at its children waits for a thread of the child it has come
      to, that one for a thread of its own child, and so on down to a reaper, which has
      detached its child and waits for init's lock. */
  ghost predicate Jam(s: State, ts: seq<Tid>) {
    && |ts| >= 2 && Path(s, ts) && (forall i :: 0 <= i < |ts| ==> ts[i] in s.threads)
    && s.threads[ts[0]].proc == INIT
    && (forall i :: 0 <= i < |ts| - 1 ==> s.threads[ts[i]].st.Scanning?)
    && var last := s.threads[ts[|ts| - 1]]; last.proc != INIT && last.st.Reaping? && last.st.stage.Detached?
  }

  ghost predicate Jammed(s: State) { exists ts :: Jam(s, ts) }

  ghost function Later(s: State, p: Pid): set<Pid> { set q | q in s.procs && q > p }

  lemma LaterFewer(s: State, p: Pid, q: Pid)
    requires q in s.procs && q > p
    ensures |Later(s, q)| < |Later(s, p)|
  {
    assert q in Later(s, p) && q !in Later(s, q);
    assert Later(s, q) <= Later(s, p);
    SubsetSize(Later(s, q), Later(s, p));
  }

  lemma {:induction false} SubsetSize(a: set<Pid>, b: set<Pid>)
    requires a < b
    ensures |a| < |b|
  {
    var x :| x in b && x !in a;
    if a != {} {
      var y :| y in a;
      SubsetSize(a - {y}, b - {y});
    }
  }

  /** Going from a scanning thread to the one it waits for, and on, one comes to a thread
      that can go on, or to a reaper that waits for init. */
  lemma {:induction false} Descend(s: State, t: Tid) returns (ts: seq<Tid>)
    requires Good(s) && t in s.threads && s.threads[t].st.Scanning?
    ensures Path(s, ts) && ts[0] == t && (forall i :: 0 <= i < |ts| ==> ts[i] in s.threads)
    ensures forall i :: 0 <= i < |ts| - 1 ==> s.threads[ts[i]].st.Scanning?
    ensures var u := ts[|ts| - 1];
            Movable(s, u) || (|ts| >= 2 && s.threads[u].st.Reaping? && s.threads[u].st.stage.Detached? && s.threads[u].proc != INIT)
    decreases |Later(s, s.threads[t].proc)|
  {
    hide Good, BlockedOn, Movable, Wants, Later;
    MovableIff(s, t);
    if Movable(s, t) {
      return [t];
    }
    var u: Tid :| BlockedOn(s, t, u);
    HolderBelow(s, t, u);
    LaterFewer(s, s.threads[t].proc, s.threads[u].proc);
    MovableIff(s, u);
    var rest := [u];
    if s.threads[u].st.Scanning? {
      rest := Descend(s, u);
    } else if !Movable(s, u) {
      WaitsForInit(s, u);
    }
    ts := [t] + rest;
  }

  lemma WaitsForInit(s: State, u: Tid)
    requires Good(s) && BusyIn(s, u) && !s.threads[u].st.Scanning? && !s.threads[u].st.Entering? && !Movable(s, u)
    ensures s.threads[u].st.Reaping? && s.threads[u].st.stage.Detached? && s.threads[u].proc != INIT
  {
    hide Good, Movable;
    MovableIff(s, u);
  }

  lemma PathConcat(s: State, a: seq<Tid>, b: seq<Tid>)
    requires Path(s, a) && Path(s, b) && BlockedOn(s, a[|a| - 1], b[0])
    ensures Path(s, a + b)
  {
    hide BlockedOn;
  }

  /** From a reaper: either somebody can go on, or the circle is closed. */
  lemma FromReaper(s: State, t: Tid) returns (ts: seq<Tid>)
    requires Good(s) && t in s.threads && s.threads[t].st.Reaping?
    ensures Path(s, ts) && ts[0] == t && (Movable(s, ts[|ts| - 1]) || Jammed(s))
  {
    hide Good, BlockedOn, Movable, Wants;
    MovableIff(s, t);
    ts := [t];
    if !Movable(s, t) {
      var u: Tid :| BlockedOn(s, t, u);
      HolderOfInit(s, t, u);
      var rest := [u];
      if !Movable(s, u) {
        rest := Descend(s, u);
        assert !Movable(s, rest[|rest| - 1]) ==> Jam(s, rest);
      }
      ts := [t] + rest;
    }
  }

  /** Unless there is such a circle, every thread in wait or vanish that is not asleep can go
      on, or waits for one that waits for one, and so on, that can. */
  lemma ProgressUnlessJammed(s: State, t: Tid) returns (ts: seq<Tid>)
    requires Good(s) && BusyIn(s, t) && !Jammed(s)
    ensures ts != [] && Path(s, ts) && ts[0] == t && Movable(s, ts[|ts| - 1])
  {
    hide Good, BlockedOn, Movable, Wants, Jammed;
    MovableIff(s, t);
    if Movable(s, t) {
      return [t];
    }
    if s.threads[t].st.Entering? {
      var u: Tid :| BlockedOn(s, t, u);
      HoldersAreBusy(s, t, u);
      var rest := FromLocker(s, u);
      PathConcat(s, [t], rest);
      ts := [t] + rest;
    } else {
      ts := FromLocker(s, t);
    }
  }

  lemma HoldersAreBusy(s: State, t: Tid, u: Tid)
    requires BlockedOn(s, t, u)
    ensures BusyIn(s, u) && !s.threads[u].st.Entering?
  {
  }

  lemma FromLocker(s: State, t: Tid) returns (ts: seq<Tid>)
    requires Good(s) && BusyIn(s, t) && !s.threads[t].st.Entering? && !Jammed(s)
    ensures Path(s, ts) && ts[0] == t && Movable(s, ts[|ts| - 1])
  {
    hide Good, BlockedOn, Movable, Wants, Jammed;
    if s.threads[t].st.Scanning? {
      ts := Descend(s, t);
      if !Movable(s, ts[|ts| - 1]) {
        var rest := FromReaper(s, ts[|ts| - 1]);
        PathJoin(s, ts, rest);
        ts := ts + rest[1..];
      }
    } else if s.threads[t].st.Reaping? {
      ts := FromReaper(s, t);
    } else {
      ts := [t];
      assert !Movable(s, t) ==> false by { if !Movable(s, t) { WaitsForInit(s, t); } }
    }
  }

  lemma PathJoin(s: State, a: seq<Tid>, b: seq<Tid>)
    requires Path(s, a) && Path(s, b) && a[|a| - 1] == b[0]
    ensures Path(s, a + b[1..]) && (a + b[1..])[|a + b[1..]| - 1] == b[|b| - 1]
  {
    hide BlockedOn;
    var c := a + b[1..];
    forall i | 0 < i < |c|
      ensures BlockedOn(s, c[i - 1], c[i])
    {
      if i >= |a| {
        assert BlockedOn(s, b[i - |a|], b[i - |a| + 1]);
        assert c[i] == b[i - |a| + 1] && c[i - 1] == b[i - |a|];
      } else {
        assert BlockedOn(s, a[i - 1], a[i]);
      }
    }
  }

  /** In a circle each thread waits for the next, the last for the first, and for nobody
      else. */
  lemma JamCloses(s: State, ts: seq<Tid>, i: nat, u: Tid)
    requires Good(s) && Jam(s, ts) && i < |ts|
    ensures BlockedOn(s, ts[i], u) <==> u == ts[if i + 1 == |ts| then 0 else i + 1]
    ensures BusyIn(s, ts[i]) && !Movable(s, ts[i])
  {
    hide Alive, ScanOK, ReapOK, WaitOK, NoLostBut, Rooted, PlacedAt, ListAt, ParentAt, Movable;
    var t, w := ts[i], ts[if i + 1 == |ts| then 0 else i + 1];
    if i + 1 == |ts| {
      assert Holds(s, w, INIT) && Wants(s, t, INIT);
    } else {
      assert BlockedOn(s, ts[i + 1 - 1], ts[i + 1]);
    }
    assert BlockedOn(s, t, w);
    MovableIff(s, t);
  }

  /** Nobody on the circle waits, however indirectly, for a thread that can go on. */
  lemma {:induction false} JamIsClosed(s: State, ts: seq<Tid>, path: seq<Tid>)
    requires Good(s) && Jam(s, ts) && Path(s, path) && path[0] in ts
    ensures path[|path| - 1] in ts && !Movable(s, path[|path| - 1])
  {
    hide Good, BlockedOn, Movable, Jam;
    var n := |path| - 1;
    if n > 0 {
      JamIsClosed(s, ts, path[..n]);
      var i :| 0 <= i < |ts| && ts[i] == path[n - 1];
      JamCloses(s, ts, i, path[n]);
      assert BlockedOn(s, path[n - 1], path[n]);
    }
    var j :| 0 <= j < |ts| && ts[j] == path[n];
    JamCloses(s, ts, j, path[n]);
  }

  ghost predicate CanProgress(s: State, t: Tid) { exists ts :: ts != [] && Path(s, ts) && ts[0] == t && Movable(s, ts[|ts| - 1]) }

  /** The condition, exactly: some call that has begun is held up for good if and only if
      there is such a circle. */
  lemma StuckIffJammed(s: State)
    requires Good(s)
    ensures Jammed(s) <==> exists t :: BusyIn(s, t) && !CanProgress(s, t)
  {
    hide Good, Path, Movable, Jam;
    if ts :| Jam(s, ts) {
      JamHead(s, ts);
      if CanProgress(s, ts[0]) {
        var path :| path != [] && Path(s, path) && path[0] == ts[0] && Movable(s, path[|path| - 1]);
        JamIsClosed(s, ts, path);
      }
    }
    if !Jammed(s) {
      forall t | BusyIn(s, t)
        ensures CanProgress(s, t)
      {
        var path := ProgressUnlessJammed(s, t);
      }
    }
  }

  lemma JamHead(s: State, ts: seq<Tid>)
    requires Good(s) && Jam(s, ts)
    ensures ts != [] && ts[0] in ts && BusyIn(s, ts[0])
  {
    JamCloses(s, ts, 0, 0);
  }

  /** What it takes: a thread of init in its scan, and a reaper elsewhere that still wants
      init's lock. Where either is missing nothing is held up. */
  lemma JamNeeds(s: State)
    requires Jammed(s)
    ensures exists t :: t in s.threads && s.threads[t].proc == INIT && s.threads[t].st.Scanning?
    ensures exists u :: u in s.threads && s.threads[u].proc != INIT && s.threads[u].st.Reaping? && s.threads[u].st.stage.Detached?
  {
    var ts :| Jam(s, ts);
    assert s.threads[ts[0]].st.Scanning?;
    assert s.threads[ts[|ts| - 1]].st.Reaping?;
  }

  // -------------------------------------------------------------------------- for ever

  /** While a thread has its process's lock nobody else changes what it is doing, or the list
      of children that it looks at. */
  lemma HolderKept(s: State, e: Event, t: Tid)
    requires Good(s) && Enabled(s, e) && e.t != t && t in s.threads && Holds(s, t, s.threads[t].proc)
    ensures t in Next(s, e).threads && Next(s, e).threads[t] == s.threads[t]
    ensures Children(Next(s, e), s.threads[t].proc) == Children(s, s.threads[t].proc)
  {
    hide Alive, ScanOK, ReapOK, TreeOK, NoLostBut, Rooted, Wake;
    var p := s.threads[t].proc;
    ThreadFacts(s, t);
    assert LivesIn(s, t, p);
    if e.Detach? || e.Splice? || e.Walk? || e.Release? { ReaperFacts(s, e.t); }
    if e.Splice? || e.Walk? || e.Release? { HoldsInit(s, e.t); }
    if e.Splice? { SpliceLists(s, e.t); }
    if e.Release? { ReleaseFacts(s, e.t); }
    if e.Vanish? { WakeOthers(s, s.procs[s.threads[e.t].proc].parent, t); }
    if e.FinalWake? { FinalWakeOthers(s, e.t, t); }
  }

  lemma FinalWakeOthers(s: State, t: Tid, u: Tid)
    requires Good(s) && Enabled(s, FinalWake(t)) && u != t && u in s.threads && !s.threads[u].st.Blocked?
    ensures var s' := Next(s, FinalWake(t)); u in s'.threads && s'.threads[u] == s.threads[u] && s'.procs == s.procs
  {
    hide Alive, Rest, NoLostBut;
  }

  /** The threads on such a circle never move again, whatever the others do. */
  lemma JamStays(s: State, e: Event, ts: seq<Tid>)
    requires Good(s) && Jam(s, ts) && Enabled(s, e)
    ensures Jam(Next(s, e), ts) && e.t !in ts
    ensures forall t :: t in ts ==> t in s.threads && t in Next(s, e).threads && Next(s, e).threads[t] == s.threads[t]
  {
    hide Good, Next, Holds, Wants, BlockedOn, Movable;
    var s' := Next(s, e);
    forall i | 0 <= i < |ts|
      ensures e.t != ts[i] && ts[i] in s.threads && ts[i] in s'.threads && s'.threads[ts[i]] == s.threads[ts[i]]
      ensures Children(s', s.threads[ts[i]].proc) == Children(s, s.threads[ts[i]].proc)
    {
      JamCloses(s, ts, i, 0);
      JamNotUser(s, ts, i, e);
      OnJamHolds(s, ts, i);
      HolderKept(s, e, ts[i]);
    }
    forall i | 0 < i < |ts|
      ensures BlockedOn(s', ts[i - 1], ts[i])
    {
      StillBlocked(s, s', ts[i - 1], ts[i]);
    }
  }

  lemma OnJamHolds(s: State, ts: seq<Tid>, i: nat)
    requires Jam(s, ts) && i < |ts|
    ensures ts[i] in s.threads && Holds(s, ts[i], s.threads[ts[i]].proc)
  {
  }

  lemma JamNotUser(s: State, ts: seq<Tid>, i: nat, e: Event)
    requires Good(s) && Jam(s, ts) && i < |ts| && Enabled(s, e) && !Movable(s, ts[i])
    ensures e.t != ts[i]
  {
    hide Good, Alive, Holds;
    assert Continues(e) ==> Movable(s, e.t);
  }

  lemma StillBlocked(s: State, s': State, t: Tid, u: Tid)
    requires BlockedOn(s, t, u) && t in s.threads && u in s.threads && t in s'.threads && u in s'.threads
    requires s'.threads[t] == s.threads[t] && s'.threads[u] == s.threads[u]
    requires Children(s', s.threads[t].proc) == Children(s, s.threads[t].proc)
    requires Children(s', s.threads[u].proc) == Children(s, s.threads[u].proc)
    ensures BlockedOn(s', t, u)
  {
    var q :| Wants(s, t, q) && Holds(s, u, q);
    assert Wants(s', t, q) && Holds(s', u, q);
  }

  lemma JamKnown(s: State, ts: seq<Tid>)
    requires Jam(s, ts)
    ensures forall t :: t in ts ==> t in s.threads
  {
  }

  lemma {:induction false} JammedForever(states: seq<State>, events: seq<Event>, m: nat, n: nat, ts: seq<Tid>)
    requires IsRun(states, events) && m <= n < |states| && Jam(states[m], ts)
    ensures Jam(states[n], ts)
    ensures forall t :: t in ts ==> t in states[m].threads && t in states[n].threads && states[n].threads[t] == states[m].threads[t]
    ensures forall i :: m <= i < n ==> events[i].t !in ts
  {
    hide Jam, Good, Enabled, Next;
    JamKnown(states[m], ts);
    if m < n {
      JammedForever(states, events, m, n - 1, ts);
      RunGood(states, events, n - 1);
      JamStays(states[n - 1], events[n - 1], ts);
    }
  }

  // --------------------------------------------------------------------------- two runs

  /** No thread of init, or none of another process, is in wait. */
  ghost predicate NoneWaits(s: State, ofInit: bool) {
    forall t :: t in s.threads && (s.threads[t].proc == INIT <==> ofInit) ==>
      s.threads[t].st.User? || s.threads[t].st.Vanishing? || s.threads[t].st.Gone?
  }

  lemma NoneWaitsKept(s: State, e: Event, ofInit: bool)
    requires Good(s) && Enabled(s, e) && NoneWaits(s, ofInit)
    requires e.CallWait? ==> !(s.threads[e.t].proc == INIT <==> ofInit)
    ensures NoneWaits(Next(s, e), ofInit)
  {
    hide Alive, Holds, Rest, NoLostBut, Rooted, Wake, WaitOK, OnlyThread;
    var p := s.threads[e.t].proc;
    if e.Vanish? { WakeNone(s, s.procs[p].parent, ofInit); }
    if e.FinalWake? {
      var s1 := Set(s, e.t, User);
      QuietWait(s, e.t, User);
      WakeNone(s1, p, ofInit);
      WakeStillOK(s1, p);
      WakeNone(Wake(s1, p), INIT, ofInit);
    }
  }

  lemma WakeNone(s: State, p: Pid, ofInit: bool)
    requires WaitOK(s) && NoneWaits(s, ofInit)
    ensures NoneWaits(Wake(s, p), ofInit)
    ensures forall t :: t in s.threads <==> t in Wake(s, p).threads
    ensures forall t :: t in s.threads ==> Wake(s, p).threads[t].proc == s.threads[t].proc
  {
    hide NoDuplicates;
  }

  lemma WakeStillOK(s: State, p: Pid)
    requires WaitOK(s)
    ensures WaitOK(Wake(s, p))
  {
    hide NoDuplicates, WaitOK;
    var i := FirstWaiter(s, p, 0);
    if i < |s.waiting| { RemoveWaiting(s, i); }
  }

  /** A run in which init never calls wait, or only init does, never comes to the circle. */
  lemma {:induction false} OneSideIsSafe(states: seq<State>, events: seq<Event>, n: nat, ofInit: bool)
    requires IsRun(states, events) && n < |states|
    requires forall i :: 0 <= i < n && events[i].CallWait? ==> !(states[i].threads[events[i].t].proc == INIT <==> ofInit)
    ensures NoneWaits(states[n], ofInit) && !Jammed(states[n])
  {
    hide Good, Enabled, Next, Jammed;
    if n > 0 {
      OneSideIsSafe(states, events, n - 1, ofInit);
      RunGood(states, events, n - 1);
      NoneWaitsKept(states[n - 1], events[n - 1], ofInit);
    }
    if Jammed(states[n]) { JamNeeds(states[n]); }
  }

  /** Such a state is reached: init forks a process, that one forks another, which exits;
      while the middle one reaps it, init waits. */
  function Three(a: Doing, b: Doing, c: Doing, two: seq<Pid>): State {
    State(map[0 := Thread(ROOT, User), 1 := Thread(INIT, a), 2 := Thread(2, b), 3 := Thread(3, c)],
          map[ROOT := Proc(ROOT, [INIT]), INIT := Proc(ROOT, [2]), 2 := Proc(INIT, two), 3 := Proc(2, [])], [])
  }

  function Two(): State {
    State(map[0 := Thread(ROOT, User), 1 := Thread(INIT, User), 2 := Thread(2, User)],
          map[ROOT := Proc(ROOT, [INIT]), INIT := Proc(ROOT, [2]), 2 := Proc(INIT, [])], [])
  }

  ghost predicate Goes(s: State, e: Event, s': State) { Enabled(s, e) && s' == Next(s, e) }

  lemma DeadlockForks()
    ensures Goes(Boot(), Fork(1, 2, 2), Two()) && Goes(Two(), Fork(2, 3, 3), Three(User, User, User, [3]))
  {
    var s, t := Boot(), Two();
    assert OnlyThread(s, 1) && OnlyThread(t, 2);
    assert Children(s, INIT) + [2] == [2] && Children(t, 2) + [3] == [3];
    assert Next(s, Fork(1, 2, 2)).procs == t.procs;
    assert Next(t, Fork(2, 3, 3)).procs == Three(User, User, User, [3]).procs;
  }

  lemma DeadlockExit()
    ensures Goes(Three(User, User, User, [3]), LockVanish(3), Three(User, User, Vanishing, [3]))
    ensures Goes(Three(User, User, Vanishing, [3]), Vanish(3), Three(User, User, Gone, [3]))
  {
    assert Unlocked(Three(User, User, User, [3]), 3);
    var s := Three(User, User, Vanishing, [3]);
    assert OnlyThread(s, 3);
    assert FirstWaiter(s, 2, 0) == 0;
  }

  lemma DeadlockLock()
    ensures Goes(Three(User, User, Gone, [3]), CallWait(2), Three(User, Entering, Gone, [3]))
    ensures Goes(Three(User, Entering, Gone, [3]), LockOwn(2), Three(User, Scanning(0), Gone, [3]))
  {
    assert Unlocked(Three(User, Entering, Gone, [3]), 2);
  }

  lemma DeadlockReap()
    ensures Goes(Three(User, Scanning(0), Gone, [3]), LockChild(2), Three(User, Reaping(3, Found), Gone, [3]))
    ensures Goes(Three(User, Reaping(3, Found), Gone, [3]), Detach(2), Three(User, Reaping(3, Detached), Gone, []))
  {
    var s := Three(User, Scanning(0), Gone, [3]);
    assert Children(s, 2)[..0] == [];
    assert Unlocked(s, 3);
    assert !Alive(s, 3);
    assert Remove([3], 3) == [];
  }

  lemma DeadlockMeet()
    ensures Goes(Three(User, Reaping(3, Detached), Gone, []), CallWait(1), Three(Entering, Reaping(3, Detached), Gone, []))
    ensures Goes(Three(Entering, Reaping(3, Detached), Gone, []), LockOwn(1), Three(Scanning(0), Reaping(3, Detached), Gone, []))
  {
    assert Unlocked(Three(Entering, Reaping(3, Detached), Gone, []), INIT);
  }

  lemma DeadlockThere()
    ensures Jam(Three(Scanning(0), Reaping(3, Detached), Gone, []), [1, 2])
  {
    var s := Three(Scanning(0), Reaping(3, Detached), Gone, []);
    assert Wants(s, 1, 2) && Holds(s, 2, 2);
    assert BlockedOn(s, 1, 2);
  }

  /** The run to the deadlock. */
  lemma DeadlockReachable() returns (states: seq<State>, events: seq<Event>)
    ensures IsRun(states, events) && Jam(states[|events|], [1, 2])
  {
    DeadlockForks();
    DeadlockExit();
    DeadlockLock();
    DeadlockReap();
    DeadlockMeet();
    DeadlockThere();
    hide Enabled, Next, Jam, Three, Two, Boot;
    events := [Fork(1, 2, 2), Fork(2, 3, 3), LockVanish(3), Vanish(3), CallWait(2), LockOwn(2), LockChild(2), Detach(2), CallWait(1), LockOwn(1)];
    states := [Boot(), Two(), Three(User, User, User, [3]), Three(User, User, Vanishing, [3]), Three(User, User, Gone, [3]),
               Three(User, Entering, Gone, [3]), Three(User, Scanning(0), Gone, [3]), Three(User, Reaping(3, Found), Gone, [3]),
               Three(User, Reaping(3, Detached), Gone, []), Three(Entering, Reaping(3, Detached), Gone, []),
               Three(Scanning(0), Reaping(3, Detached), Gone, [])];
  }
}
