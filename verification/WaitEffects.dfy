/** What the steps of wait and vanish do, said of the thread, the lists and the sleepers, and
    that each of them brings its call nearer to its end. */
module WaitEffects {
  import opened Basics
  import opened WaitProtocol
  import opened WaitSafety
  import opened WaitTree
  import opened WaitRuns
  import opened WaitDeadlock
  import opened WaitStranded

  // -------------------------------------------------------------------------- progress

  /** The stage of a call, and how far it is within it; both go down. */
  function StageOf(st: Doing): nat {
    match st
    case User => 0 case Gone => 0 case Blocked => 0
    case Vanishing => 1
    case Entering => 9 case Scanning(_) => 8
    case Reaping(_, stage) =>
      match stage
      case Found => 7 case Detached => 6 case HasInit => 5 case Walking(_) => 4 case Final => 3
  }

  function Within(st: Doing, children: nat): int {
    match st
    case Scanning(k) => children - k
    case Reaping(_, stage) => if stage.Walking? then |stage.rest| else 0
    case _ => 0
  }

  /** A call that has begun ends, or goes to sleep, after finitely many steps of its own: each
      one lowers the stage, or the number of children or orphans left to deal with. */
  lemma StepAdvances(s: State, e: Event)
    requires Good(s) && Enabled(s, e) && Continues(e)
    ensures var s', p := Next(s, e), s.threads[e.t].proc;
            && e.t in s'.threads && s'.threads[e.t].proc == p
            && var st, st' := s.threads[e.t].st, s'.threads[e.t].st;
               || StageOf(st') < StageOf(st)
               || (StageOf(st') == StageOf(st) && Children(s', p) == Children(s, p)
                   && 0 <= Within(st', |Children(s, p)|) < Within(st, |Children(s, p)|))
  {
    hide Alive, Holds, Rest, NoLostBut, Rooted, OnlyThread;
    if e.FinalWake? { FinalWakeAt(s, e.t, e.t); }
    if e.Walk? { WalkLists(s, e.t); }
  }

  lemma WalkLists(s: State, t: Tid)
    requires Enabled(s, Walk(t))
    ensures forall q :: Children(Next(s, Walk(t)), q) == Children(s, q)
  {
  }

  // ----------------------------------------------------------------------- one by one

  /** wait fails at once in a process without children. */
  lemma FailsAtOnce(s: State, t: Tid)
    requires Enabled(s, LockOwn(t))
    ensures var s', p := Next(s, LockOwn(t)), s.threads[t].proc;
            && s'.procs == s.procs && s'.waiting == s.waiting && (s'.threads[t].st.User? <==> s.procs[p].children == [])
            && (s.procs[p].children != [] ==> s'.threads[t].st == Scanning(0))
            && forall u :: u != t && u in s.threads ==> u in s'.threads && s'.threads[u] == s.threads[u]
  {
  }

  /** A process is alive while a thread of it has not terminated. */
  lemma AliveMeans(s: State, p: Pid)
    ensures Alive(s, p) <==> exists u :: u in s.threads && s.threads[u].proc == p && s.threads[u].st != Gone
  {
    if u :| u in s.threads && s.threads[u].proc == p && s.threads[u].st != Gone { assert LivesIn(s, u, p); }
  }

  /** The scan takes the first child that is not alive. */
  lemma FindsFirst(s: State, t: Tid)
    requires Good(s) && Enabled(s, LockChild(t))
    ensures var s', cs, k := Next(s, LockChild(t)), s.procs[s.threads[t].proc].children, s.threads[t].st.k;
            && k < |cs| && (forall j :: 0 <= j < k ==> Alive(s, cs[j]))
            && s'.procs == s.procs && s'.waiting == s.waiting
            && s'.threads[t].st == if Alive(s, cs[k]) then Scanning(k + 1) else Reaping(cs[k], Found)
  {
    hide Alive, Exclusive, TreeOK, ReapOK, WaitOK, NoLostBut, Rooted;
    assert ScanAt(s, s.threads[t].proc, s.threads[t].st);
  }

  /** A thread goes to sleep behind all others, and only when every child is alive. */
  lemma SleepsLast(s: State, t: Tid)
    requires Good(s) && Enabled(s, Sleep(t))
    ensures var s' := Next(s, Sleep(t));
            && s'.threads[t].st.Blocked? && s'.waiting == s.waiting + [t] && s'.procs == s.procs
            && forall c :: c in s.procs[s.threads[t].proc].children ==> Alive(s, c)
  {
    hide Alive, Exclusive, TreeOK, ReapOK, WaitOK, NoLostBut, Rooted;
    assert ScanAt(s, s.threads[t].proc, s.threads[t].st);
    assert Children(s, s.threads[t].proc) == s.procs[s.threads[t].proc].children;
  }

  /** The child found is taken out of its place in the list. */
  lemma TakesOut(s: State, t: Tid) returns (a: seq<Pid>, b: seq<Pid>)
    requires Good(s) && Enabled(s, Detach(t))
    ensures var s', p, c := Next(s, Detach(t)), s.threads[t].proc, s.threads[t].st.child;
            && s.procs[p].children == a + [c] + b && s'.procs == s.procs[p := Proc(s.procs[p].parent, a + b)]
            && (forall x :: c !in Children(s', x)) && s'.threads[t].st == Reaping(c, Detached) && s'.waiting == s.waiting
  {
    hide Alive, Exclusive, ScanOK, WaitOK, NoLostBut, Rooted, Holds;
    ReaperFacts(s, t);
    DetachLists(s, t);
    a, b := RemovedFrom(s.procs[s.threads[t].proc].children, s.threads[t].st.child);
  }

  lemma {:induction false} RemovedFrom(l: seq<Pid>, q: Pid) returns (a: seq<Pid>, b: seq<Pid>)
    requires q in l
    ensures l == a + [q] + b && Remove(l, q) == a + b
  {
    if l[0] == q {
      a, b := [], l[1..];
      assert l == [] + [q] + b;
    } else {
      a, b := RemovedFrom(l[1..], q);
      a := [l[0]] + a;
      assert l == [l[0]] + l[1..];
    }
  }

  /** Each orphan gets init for a parent, in turn. */
  lemma Adopts(s: State, t: Tid)
    requires Enabled(s, Walk(t))
    ensures var s', rest, c := Next(s, Walk(t)), s.threads[t].st.stage.rest, s.threads[t].st.child;
            && s'.procs == s.procs[rest[0] := Proc(INIT, s.procs[rest[0]].children)] && s'.waiting == s.waiting
            && s'.threads[t].st == Reaping(c, Walking(rest[1..]))
  {
  }

  /** The child is freed, and nothing else. */
  lemma Frees(s: State, t: Tid)
    requires Good(s) && Enabled(s, Release(t))
    ensures var s', c := Next(s, Release(t)), s.threads[t].st.child;
            && c in s.procs && s'.procs == s.procs - {c} && s'.waiting == s.waiting && s'.threads[t].st == Reaping(c, Final)
            && forall q :: q in s'.procs ==> c !in s'.procs[q].children && (q != ROOT ==> s'.procs[q].parent != c)
  {
    hide Alive, Exclusive, ScanOK, WaitOK, NoLostBut, Holds;
    ReaperFacts(s, t);
    ReleaseFacts(s, t);
    var c := s.threads[t].st.child;
    forall q | q in s.procs && q != c
      ensures c !in s.procs[q].children && (q != ROOT ==> s.procs[q].parent != c)
    {
      assert Children(s, q) == s.procs[q].children;
      if q != ROOT { NoOrphans(s, t, q); }
    }
  }

  /** The thread at place `i` is the first in the list of sleepers that is of process `p`. */
  ghost predicate FirstSleeper(s: State, p: Pid, i: nat) {
    i < |s.waiting| && s.waiting[i] in s.threads && s.threads[s.waiting[i]].proc == p
    && forall j :: 0 <= j < i && s.waiting[j] in s.threads ==> s.threads[s.waiting[j]].proc != p
  }

  /** Waking takes the first sleeper of the process off the list and has it look again; if
      there is none nothing changes. */
  lemma WakeFirst(s: State, p: Pid)
    ensures forall i: nat :: FirstSleeper(s, p, i) ==>
              Wake(s, p) == State(s.threads[s.waiting[i] := Thread(p, Entering)], s.procs, s.waiting[..i] + s.waiting[i + 1..])
    ensures (forall i: nat :: !FirstSleeper(s, p, i)) ==> Wake(s, p) == s
  {
    var k := FirstWaiter(s, p, 0);
    assert k < |s.waiting| ==> FirstSleeper(s, p, k);
    forall i: nat | FirstSleeper(s, p, i)
      ensures i == k
    {
      SamePlace(s, p, i);
    }
  }

  /** A thread that exits has terminated. If its process lives on without it, or nobody of the
      parent sleeps, nothing else changes; else the parent's first sleeper looks again. */
  lemma Exits(s: State, t: Tid)
    requires Good(s) && Enabled(s, Vanish(t))
    ensures var s', p := Next(s, Vanish(t)), s.threads[t].proc; var q := s.procs[p].parent;
            && t in s'.threads && s'.threads[t] == Thread(p, Gone) && s'.procs == s.procs
            && (forall i: nat :: FirstSleeper(s, q, i) && (forall u :: LivesIn(s, u, p) ==> u == t) ==>
                  s' == State(s.threads[s.waiting[i] := Thread(q, Entering)][t := Thread(p, Gone)], s.procs, s.waiting[..i] + s.waiting[i + 1..]))
            && ((forall i: nat :: !FirstSleeper(s, q, i)) || (exists u :: LivesIn(s, u, p) && u != t) ==>
                  s' == s.(threads := s.threads[t := Thread(p, Gone)]))
  {
    hide Alive, Holds, Rest, NoLostBut, Rooted, Wake;
    var p := s.threads[t].proc;
    var q := s.procs[p].parent;
    WakeFirst(s, q);
    SleeperAsleep(s, t);
    assert OnlyThread(s, t) <==> forall u :: LivesIn(s, u, p) ==> u == t;
    forall i: nat | FirstSleeper(s, q, i)
      ensures s.waiting[i] != t
    {
      assert s.waiting[i] in s.waiting;
    }
  }

  lemma SleeperAsleep(s: State, t: Tid)
    requires Good(s) && t in s.threads && !s.threads[t].st.Blocked?
    ensures t !in s.waiting
  {
  }

  /** At the end the reaper is back in its program, and the first sleepers of its process and
      of init look again. */
  lemma Finishes(s: State, t: Tid)
    requires Good(s) && Enabled(s, FinalWake(t))
    ensures var s', p := Next(s, FinalWake(t)), s.threads[t].proc;
            && t in s'.threads && s'.threads[t] == Thread(p, User) && s'.procs == s.procs
            && (forall i: nat :: FirstSleeper(s, p, i) ==> s'.threads[s.waiting[i]].st.Entering?)
            && (p != INIT ==> forall i: nat :: FirstSleeper(s, INIT, i) ==> s'.threads[s.waiting[i]].st.Entering?)
  {
    hide Rest, NoLostBut, Rooted, Wake, WaitOK;
    var p, s1 := s.threads[t].proc, Set(s, t, User);
    GoodWait(s);
    FinalWakeAt(s, t, t);
    SleeperAsleep(s, t);
    forall i: nat | FirstSleeper(s, p, i)
      ensures Next(s, FinalWake(t)).threads[s.waiting[i]].st.Entering?
    {
      SamePlace(s, p, i);
      FinalWakeAt(s, t, s.waiting[i]);
    }
    forall i: nat | p != INIT && FirstSleeper(s, INIT, i)
      ensures Next(s, FinalWake(t)).threads[s.waiting[i]].st.Entering?
    {
      InitLooks(s, t, i);
    }
  }

  lemma SamePlace(s: State, p: Pid, i: nat)
    requires FirstSleeper(s, p, i)
    ensures FirstWaiter(s, p, 0) == i
  {
  }

  /** Waking another process's sleeper leaves init's first one first. */
  lemma StillFirst(s: State, p: Pid, i: nat) returns (j: nat)
    requires FirstSleeper(s, INIT, i) && p != INIT
    ensures var s' := Wake(s, p); FirstSleeper(s', INIT, j) && s'.waiting[j] == s.waiting[i]
  {
    var k, s' := FirstWaiter(s, p, 0), Wake(s, p);
    j := i;
    if k < |s.waiting| {
      j := if k < i then i - 1 else i;
      assert s'.waiting == s.waiting[..k] + s.waiting[k + 1..];
      forall x | 0 <= x < j && s'.waiting[x] in s'.threads
        ensures s'.threads[s'.waiting[x]].proc != INIT
      {
        assert s'.waiting[x] == s.waiting[if x < k then x else x + 1];
      }
    }
  }

  lemma InitLooks(s: State, t: Tid, i: nat)
    requires Good(s) && Enabled(s, FinalWake(t)) && s.threads[t].proc != INIT && FirstSleeper(s, INIT, i)
    ensures s.waiting[i] in Next(s, FinalWake(t)).threads && Next(s, FinalWake(t)).threads[s.waiting[i]].st.Entering?
  {
    hide Rest, NoLostBut, Rooted, Wake, WaitOK;
    var p, s1 := s.threads[t].proc, Set(s, t, User);
    var j := StillFirst(s1, p, i);
    WakeFirst(Wake(s1, p), INIT);
  }
}
