/** wait and vanish as a protocol: every step that other threads can see is a step of a
    transition system. Locks are held from one step to another; what runs with interrupts
    disabled is one step. */
module WaitProtocol {

  type Tid = nat
  type Pid = nat

  const ROOT: Pid := 0
  const INIT: Pid := 1

  /** How far a thread that has found an exited child has come. */
  datatype Stage = Found | Detached | HasInit | Walking(rest: seq<Pid>) | Final

  /** What a thread is doing: in user code; about to take its process's lock in wait;
      holding it, with its first `k` children locked too and none of them exited; asleep
      in VANISH_WAIT; reaping a child; holding its process's lock in vanish; terminated. */
  datatype Doing = User | Entering | Scanning(k: nat) | Blocked | Reaping(child: Pid, stage: Stage) | Vanishing | Gone

  datatype Thread = Thread(proc: Pid, st: Doing)

  datatype Proc = Proc(parent: Pid, children: seq<Pid>)

  /** `waiting` is the VANISH_WAIT list in its order. */
  datatype State = State(threads: map<Tid, Thread>, procs: map<Pid, Proc>, waiting: seq<Tid>)

  datatype Event =
    | CallWait(t: Tid)
    | LockOwn(t: Tid)
    | LockChild(t: Tid)
    | Sleep(t: Tid)
    | Detach(t: Tid)
    | LockInit(t: Tid)
    | Splice(t: Tid)
    | Walk(t: Tid)
    | Release(t: Tid)
    | FinalWake(t: Tid)
    | LockVanish(t: Tid)
    | Vanish(t: Tid)
    | Fork(t: Tid, newThread: Tid, newProc: Pid)
    | ThreadFork(t: Tid, newThread: Tid)

  // ------------------------------------------------------------------------- reading

  ghost predicate Known(s: State, t: Tid) { t in s.threads && s.threads[t].proc in s.procs }

  function Children(s: State, p: Pid): seq<Pid> { if p in s.procs then s.procs[p].children else [] }

  /** A thread of process `p` that has not terminated. */
  ghost predicate LivesIn(s: State, t: Tid, p: Pid) { t in s.threads && s.threads[t].proc == p && !s.threads[t].st.Gone? }

  /** The process still has a thread. */
  ghost predicate Alive(s: State, p: Pid) { exists t :: LivesIn(s, t, p) }

  /** The thread holds the lock of process `p`. */
  ghost predicate Holds(s: State, t: Tid, p: Pid) {
    && t in s.threads
    && match s.threads[t].st
       case Scanning(k) => p == s.threads[t].proc || p in Children(s, s.threads[t].proc)[..Cap(k, |Children(s, s.threads[t].proc)|)]
       case Reaping(_, stage) =>
         (p == s.threads[t].proc && !stage.Final?) || (p == INIT && (stage.HasInit? || stage.Walking?))
       case Vanishing => p == s.threads[t].proc
       case _ => false
  }

  function Cap(k: nat, n: nat): nat { if k <= n then k else n }

  ghost predicate Unlocked(s: State, p: Pid) { forall t :: !Holds(s, t, p) }

  /** find_tcb_in_list on VANISH_WAIT: the first waiting thread of process `p`. */
  function FirstWaiter(s: State, p: Pid, i: nat): (r: nat)
    requires i <= |s.waiting|
    ensures i <= r <= |s.waiting|
    ensures r < |s.waiting| ==> s.waiting[r] in s.threads && s.threads[s.waiting[r]].proc == p
    ensures forall j :: i <= j < r && s.waiting[j] in s.threads ==> s.threads[s.waiting[j]].proc != p
    decreases |s.waiting| - i
  {
    if i == |s.waiting| then i
    else if s.waiting[i] in s.threads && s.threads[s.waiting[i]].proc == p then i
    else FirstWaiter(s, p, i + 1)
  }

  // ------------------------------------------------------------------------- writing

  function Set(s: State, t: Tid, st: Doing): State
    requires t in s.threads
  {
    s.(threads := s.threads[t := Thread(s.threads[t].proc, st)])
  }

  function SetChildren(s: State, p: Pid, cs: seq<Pid>): State
    requires p in s.procs
  {
    s.(procs := s.procs[p := Proc(s.procs[p].parent, cs)])
  }

  function SetParent(s: State, q: Pid, p: Pid): State
    requires q in s.procs
  {
    s.(procs := s.procs[q := Proc(p, s.procs[q].children)])
  }

  /** Make the first waiter of process `p`, if there is one, ready to look again. */
  function Wake(s: State, p: Pid): State
  {
    var i := FirstWaiter(s, p, 0);
    if i == |s.waiting| then s
    else Set(s, s.waiting[i], Entering).(waiting := s.waiting[..i] + s.waiting[i + 1..])
  }

  function Remove(l: seq<Pid>, q: Pid): seq<Pid>
  {
    if l == [] then [] else if l[0] == q then l[1..] else [l[0]] + Remove(l[1..], q)
  }

  // --------------------------------------------------------------------------- steps

  /** The thread is alone in its process. */
  ghost predicate OnlyThread(s: State, t: Tid) {
    t in s.threads && forall u :: LivesIn(s, u, s.threads[t].proc) ==> u == t
  }

  ghost predicate Enabled(s: State, e: Event) {
    && Known(s, e.t)
    && var p, st := s.threads[e.t].proc, s.threads[e.t].st;
       match e
       case CallWait(t) => st.User? && p != ROOT
       case LockOwn(t) => st.Entering? && Unlocked(s, p)
       case LockChild(t) => st.Scanning? && st.k < |Children(s, p)| && Unlocked(s, Children(s, p)[st.k])
       case Sleep(t) => st.Scanning? && st.k == |Children(s, p)|
       case Detach(t) => st.Reaping? && st.stage.Found?
       case LockInit(t) => st.Reaping? && st.stage.Detached? && p != INIT && Unlocked(s, INIT)
       case Splice(t) => st.Reaping? && st.child in s.procs && INIT in s.procs && (if p == INIT then st.stage.Detached? else st.stage.HasInit?)
       case Walk(t) => st.Reaping? && st.stage.Walking? && st.stage.rest != [] && st.stage.rest[0] in s.procs
       case Release(t) => st.Reaping? && st.stage == Walking([])
       case FinalWake(t) => st.Reaping? && st.stage.Final?
       case LockVanish(t) => st.User? && p != ROOT && Unlocked(s, p)
       case Vanish(t) => st.Vanishing?
       case Fork(t, t', p') => st.User? && p != ROOT && OnlyThread(s, t) && t' !in s.threads && p' !in s.procs && (forall q :: q in s.procs ==> q < p')
       case ThreadFork(t, t') => st.User? && p != ROOT && t' !in s.threads
  }

  ghost function Next(s: State, e: Event): State
    requires Enabled(s, e)
  {
    var t := e.t;
    var p, st := s.threads[t].proc, s.threads[t].st;
    match e
    case CallWait(_) => Set(s, t, Entering)
    case LockOwn(_) => Set(s, t, if Children(s, p) == [] then User else Scanning(0))
    case LockChild(_) =>
      var c := Children(s, p)[st.k];
      Set(s, t, if Alive(s, c) then Scanning(st.k + 1) else Reaping(c, Found))
    case Sleep(_) => Set(s, t, Blocked).(waiting := s.waiting + [t])
    case Detach(_) => Set(SetChildren(s, p, Remove(Children(s, p), st.child)), t, Reaping(st.child, Detached))
    case LockInit(_) => Set(s, t, Reaping(st.child, HasInit))
    case Splice(_) =>
      var grandchildren := Children(s, st.child);
      var s1 := SetChildren(s, st.child, []);
      var s2 := if grandchildren == [] then s1
                else if Children(s, INIT) == [] then SetChildren(s1, p, grandchildren)
                else SetChildren(s1, INIT, Children(s1, INIT) + grandchildren);
      Set(s2, t, Reaping(st.child, Walking(grandchildren)))
    case Walk(_) => Set(SetParent(s, st.stage.rest[0], INIT), t, Reaping(st.child, Walking(st.stage.rest[1..])))
    case Release(_) => Set(s.(procs := map q | q in s.procs && q != st.child :: s.procs[q]), t, Reaping(st.child, Final))
    case FinalWake(_) => Wake(Wake(Set(s, t, User), p), INIT)
    case LockVanish(_) => Set(s, t, Vanishing)
    case Vanish(_) => Set(if OnlyThread(s, t) then Wake(s, s.procs[p].parent) else s, t, Gone)
    case Fork(_, t', p') =>
      s.(threads := s.threads[t' := Thread(p', User)],
         procs := s.procs[p := Proc(s.procs[p].parent, s.procs[p].children + [p'])][p' := Proc(p, [])])
    case ThreadFork(_, t') => s.(threads := s.threads[t' := Thread(p, User)])
  }
}
