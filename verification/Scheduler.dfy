/** The scheduler as a state machine over the thread lists: what each system call and
    timer tick does to them, and the invariant of every run. */
module Scheduler {
  import opened Basics
  import opened ThreadLists

  const NoDetail := Blocking(0, 0, false)

  datatype Event =
    | Tick                              // handle_timer
    | YieldAny | YieldTo(tid: Tid)      // handle_yield
    | Sleep(ticks: nat)                 // handle_sleep
    | Deschedule                        // handle_deschedule, reject == 0
    | MakeRunnable(tid: Tid)            // handle_make_runnable
    | WaitBlock                         // handle_wait finds no exited child
    | WakeWaiter(pid: Pid)              // the end of handle_wait
    | ReadlineBlock(first: bool)        // handle_readline waits
    | ReadlineSwitch                    // handle_readline hands over
    | Vanish(parent: Pid)               // handle_vanish
    | ThreadFork(tid: Tid)              // thread_fork_ctrl_blk
    | Fork(tid: Tid, pid: Pid)          // fork_ctrl_blk
    | Reap(pid: Pid)                    // handle_wait frees a child

  // ---------------------------------------------------------------- choosing

  /** How far round_robin turns the ready list: past the threads of the first one's
      process, or not at all when there are no others. */
  function TurnBy(l: seq<Tid>, tcbs: map<Tid, Tcb>, i: nat): (k: nat)
    requires 0 < i <= |l|
    ensures k == 0 || (i <= k < |l| && Owner(tcbs, l[k]) != Owner(tcbs, l[0]))
    ensures forall j :: i <= j < (if k == 0 then |l| else k) ==> Owner(tcbs, l[j]) == Owner(tcbs, l[0])
    decreases |l| - i
  {
    if i == |l| then 0
    else if Owner(tcbs, l[i]) != Owner(tcbs, l[0]) then i
    else TurnBy(l, tcbs, i + 1)
  }

  function Turned(l: seq<Tid>, tcbs: map<Tid, Tcb>): seq<Tid>
  {
    if l == [] then [] else l[TurnBy(l, tcbs, 1)..] + l[..TurnBy(l, tcbs, 1)]
  }

  function Rotate(s: Sched): Sched
    requires |s.lists| == LIST_COUNT
  {
    s.(lists := s.lists[READY := Turned(s.lists[READY], s.tcbs)])
  }

  /** The first ready thread in a tcb_list. */
  function FirstReady(l: seq<Tid>, tcbs: map<Tid, Tcb>): (r: Option<Tid>)
    ensures r.Some? ==> r.value in l && r.value in tcbs && tcbs[r.value].state == READY
    ensures r.None? ==> forall t :: t in l && t in tcbs ==> tcbs[t].state != READY
  {
    if l == [] then None
    else if l[0] in tcbs && tcbs[l[0]].state == READY then Some(l[0])
    else FirstReady(l[1..], tcbs)
  }

  /** The first thread of process `p` in a list. */
  function FirstOf(l: seq<Tid>, tcbs: map<Tid, Tcb>, p: Pid): (r: Option<Tid>)
    ensures r.Some? ==> r.value in l && Owner(tcbs, r.value) == p
  {
    if l == [] then None
    else if Owner(tcbs, l[0]) == p then Some(l[0])
    else FirstOf(l[1..], tcbs, p)
  }

  function Alive(l: seq<Tid>, tcbs: map<Tid, Tcb>): nat
  {
    if l == [] then 0
    else (if l[0] in tcbs && tcbs[l[0]].state != TERMINATED then 1 else 0) + Alive(l[1..], tcbs)
  }

  // --------------------------------------------------------------- rotation

  lemma TurnedMembers(l: seq<Tid>, tcbs: map<Tid, Tcb>)
    ensures |Turned(l, tcbs)| == |l|
    ensures forall t :: t in Turned(l, tcbs) <==> t in l
    ensures NoDuplicates(l) ==> NoDuplicates(Turned(l, tcbs))
  {
    if l != [] {
      var k := TurnBy(l, tcbs, 1);
      assert l == l[..k] + l[k..];
    }
  }

  lemma TurnedGrouped(l: seq<Tid>, tcbs: map<Tid, Tcb>)
    requires Grouped(l, tcbs)
    ensures Grouped(Turned(l, tcbs), tcbs)
  {
    if l != [] {
      var k, ps := TurnBy(l, tcbs, 1), Owners(l, tcbs);
      assert Owners(Turned(l, tcbs), tcbs) == ps[k..] + ps[..k];
      if k > 0 { RotateContiguous(ps, k); } else { assert ps[0..] + ps[..0] == ps; }
    }
  }

  lemma RotateContiguous(ps: seq<Pid>, k: nat)
    requires 0 < k < |ps| && Contiguous(ps)
    requires ps[k] != ps[0] && forall j :: 0 <= j < k ==> ps[j] == ps[0]
    ensures Contiguous(ps[k..] + ps[..k])
    ensures forall j :: k <= j < |ps| ==> ps[j] != ps[0]
  {
    var qs, m := ps[k..] + ps[..k], |ps| - k;
    forall j | k <= j < |ps|
      ensures ps[j] != ps[0]
    {
    }
    forall x, y, z | 0 <= x < y < z < |qs| && qs[x] == qs[z]
      ensures qs[y] == qs[x]
    {
      assert qs[x] == ps[if x < m then x + k else x - m];
      assert qs[y] == ps[if y < m then y + k else y - m];
      assert qs[z] == ps[if z < m then z + k else z - m];
    }
  }

  lemma RotateKeeps(s: Sched)
    requires Inv(s)
    ensures Inv(Rotate(s))
  {
    var s', l := Rotate(s), s.lists[READY];
    TurnedMembers(l, s.tcbs);
    TurnedGrouped(l, s.tcbs);
    assert forall i :: 0 <= i < LIST_COUNT && i != READY ==> s'.lists[i] == s.lists[i];
  }

  // ----------------------------------------------------------- switch_context

  /** A thread switch_context may switch to: in a list, but not running. */
  ghost predicate Waiting(s: Sched, t: Tid) {
    && t in s.tcbs && s.tcbs[t].state != TERMINATED && s.tcbs[t].state != RUNNING
  }

  ghost function Running(s: Sched): (t: Tid)
    requires Inv(s)
    ensures t in s.tcbs && s.tcbs[t].state == RUNNING && s.lists[RUNNING] == [t]
  {
    assert s.lists[RUNNING][0] in s.lists[RUNNING];
    assert s.lists[RUNNING] == [s.lists[RUNNING][0]];
    s.lists[RUNNING][0]
  }

  /** A state switch_context may leave the old thread in. */
  predicate Leaving(state: int, d: Blocking) {
    || state == READY || state == TERMINATED
    || (state == WAITING && TERMINATED < d.reason < LIST_COUNT)
  }

  ghost function SwitchTo(s: Sched, t: Tid, state: int, d: Blocking): (s': Sched)
    requires Inv(s) && Waiting(s, t) && Leaving(state, d)
    ensures Inv(s') && s'.lists[RUNNING] == [t] && s'.tick == s.tick
  {
    var r := Running(s);
    AlterKeepsLists(s, r, state, d);
    var s1 := Alter(s, r, state, d);
    AlterKeepsLists(s1, t, RUNNING, NoDetail);
    assert Without([r], r) == [];
    assert s1.lists[RUNNING] == [] && InsertAt([], 0, t) == [t];
    Alter(s1, t, RUNNING, NoDetail)
  }

  /** The two alter_state calls of switch_context both apply. */
  lemma SwitchSteps(s: Sched, t: Tid, state: int, d: Blocking)
    requires Inv(s) && Waiting(s, t) && Leaving(state, d)
    ensures var r := s.lists[RUNNING][0];
            && r in s.tcbs && s.tcbs[r].state == RUNNING
            && Alterable(s, r, state, d)
            && var s1 := Alter(s, r, state, d);
               && ListsInv(s1) && Alterable(s1, t, RUNNING, NoDetail) && ListOf(s1.tcbs[t]) != RUNNING
               && ListOf(s1.tcbs[t]) == ListOf(s.tcbs[t])
               && SwitchTo(s, t, state, d) == Alter(s1, t, RUNNING, NoDetail)
  {
    var r := Running(s);
    AlterKeepsLists(s, r, state, d);
  }

  /** The states switch_context accepts. */
  predicate Accepted(state: int) { NEW_STATE <= state <= TERMINATED }

  /** What switch_context leaves: with a state the old thread cannot be left in, the first
      alter_state changes nothing, and the second puts the new thread beside the old one. */
  ghost function Switched(s: Sched, t: Tid, state: int, d: Blocking): Sched
    requires Inv(s) && Waiting(s, t)
  {
    if Leaving(state, d) then SwitchTo(s, t, state, d) else Alter(s, t, RUNNING, NoDetail)
  }

  lemma CrowdedSteps(s: Sched, t: Tid, state: int, d: Blocking)
    requires Inv(s) && Waiting(s, t) && !Leaving(state, d) && Accepted(state)
    ensures var r := s.lists[RUNNING][0]; r in s.tcbs && s.tcbs[r].state == RUNNING && s.lists[RUNNING] == [r]
    ensures !Alterable(s, s.lists[RUNNING][0], state, d) || state == RUNNING
    ensures Alterable(s, t, RUNNING, NoDetail) && ListOf(s.tcbs[t]) != RUNNING
  {
    var r := Running(s);
  }

  /** switch_context keeps the invariant, and leaves one running thread, exactly when the
      state is one the old thread can be left in. Otherwise, as for NEW_STATE, both
      threads end up in the running list. */
  lemma SwitchedInv(s: Sched, t: Tid, state: int, d: Blocking)
    requires Inv(s) && Waiting(s, t) && Accepted(state)
    ensures Inv(Switched(s, t, state, d)) <==> Leaving(state, d)
    ensures Switched(s, t, state, d).lists[RUNNING] == if Leaving(state, d) then [t] else [t, Running(s)]
    ensures !Leaving(NEW_STATE, d)
  {
    if !Leaving(state, d) {
      CrowdedSteps(s, t, state, d);
      assert InsertAt(s.lists[RUNNING], 0, t) == [t, Running(s)];
    }
  }

  /** round_robin, then switch_context on its result; None when nobody is ready. */
  ghost function RoundRobin(s: Sched, state: int, d: Blocking): (r: Option<Sched>)
    requires Inv(s) && Leaving(state, d)
    ensures r.Some? ==> Inv(r.value)
    ensures r.None? <==> s.lists[READY] == []
  {
    if s.lists[READY] == [] then None
    else
      var h := s.lists[READY][0];
      assert h in s.lists[READY];
      RotateKeeps(s);
      Some(SwitchTo(Rotate(s), h, state, d))
  }

  /** find_next_thread, then switch_context on its result. */
  ghost function SwitchNext(s: Sched, state: int, d: Blocking): (r: Option<Sched>)
    requires Inv(s) && Leaving(state, d)
    ensures r.Some? ==> Inv(r.value)
  {
    var mates := s.threads[s.tcbs[Running(s)].pcb];
    match FirstReady(mates, s.tcbs)
    case Some(t) => Some(SwitchTo(s, t, state, d))
    case None => RoundRobin(s, state, d)
  }

  ghost function Wake(s: Sched, t: Tid): (s': Sched)
    requires Inv(s) && t in s.lists[DESCHEDULE] + s.lists[VANISH_WAIT]
    ensures Inv(s') && s'.lists[RUNNING] == s.lists[RUNNING]
  {
    AlterKeepsLists(s, t, READY, NoDetail);
    Alter(s, t, READY, NoDetail)
  }

  ghost function WakeWaiterOf(s: Sched, p: Pid): (s': Sched)
    requires Inv(s)
    ensures Inv(s') && s'.lists[RUNNING] == s.lists[RUNNING]
  {
    match FirstOf(s.lists[VANISH_WAIT], s.tcbs, p)
    case Some(t) => Wake(s, t)
    case None => s
  }

  // ------------------------------------------------------------- transitions

  /** Creating a thread of process `p` with the running thread's registers. */
  ghost function Spawn(s: Sched, t: Tid, p: Pid): (s': Sched)
    requires Inv(s) && t !in s.tcbs
    ensures Inv(s') && s'.lists[RUNNING] == s.lists[RUNNING]
  {
    var l := s.lists[READY];
    var mates := if p in s.threads then s.threads[p] else [];
    var s' := s.(lists := s.lists[READY := InsertAt(l, GroupEnd(l, s.tcbs, p), t)],
                 tcbs := s.tcbs[t := Tcb(p, READY, s.tcbs[Running(s)].detail)],
                 threads := s.threads[p := mates + [t]]);
    SpawnKeeps(s, t, p, s', mates);
    s'
  }

  lemma SpawnKeeps(s: Sched, t: Tid, p: Pid, s': Sched, mates: seq<Tid>)
    requires Inv(s) && t !in s.tcbs
    requires mates == if p in s.threads then s.threads[p] else []
    requires var l := s.lists[READY];
             s' == s.(lists := s.lists[READY := InsertAt(l, GroupEnd(l, s.tcbs, p), t)],
                      tcbs := s.tcbs[t := Tcb(p, READY, s.tcbs[Running(s)].detail)],
                      threads := s.threads[p := mates + [t]])
    ensures Inv(s')
  {
    var l := s.lists[READY];
    InsertGrouped(l, s.tcbs, s'.tcbs, t, p);
    SameSorted(s.lists[SLEEP], s.tcbs, s'.tcbs, t);
    SpawnRostered(s, t, p, s', mates);
    SpawnSound(s, t, GroupEnd(l, s.tcbs, p), s');
  }

  lemma SpawnSound(s: Sched, t: Tid, k: nat, s': Sched)
    requires Sound(s) && Complete(s) && t !in s.tcbs && k <= |s.lists[READY]|
    requires s'.lists == s.lists[READY := InsertAt(s.lists[READY], k, t)]
    requires t in s'.tcbs && s'.tcbs == s.tcbs[t := s'.tcbs[t]] && s'.tcbs[t].state == READY
    ensures Sound(s') && Complete(s')
  {
    InsertMembers(s.lists[READY], k, t);
    assert forall i :: 0 <= i < LIST_COUNT && i != READY ==> s'.lists[i] == s.lists[i];
    forall u | u in s'.tcbs && s'.tcbs[u].state != TERMINATED
      ensures u in s'.lists[ListOf(s'.tcbs[u])]
    {
      if u != t { assert u in s.lists[ListOf(s.tcbs[u])]; }
    }
  }

  lemma SpawnRostered(s: Sched, t: Tid, p: Pid, s': Sched, mates: seq<Tid>)
    requires Rostered(s) && t !in s.tcbs
    requires mates == if p in s.threads then s.threads[p] else []
    requires s'.threads == s.threads[p := mates + [t]]
    requires t in s'.tcbs && s'.tcbs == s.tcbs[t := s'.tcbs[t]] && s'.tcbs[t].pcb == p
    ensures Rostered(s')
  {
    assert (mates + [t])[|mates|] == t;
    assert t !in mates;
  }

  /** handle_wait frees the TCBs of a dead process and every node of the TERMINATED list. */
  ghost function Bury(s: Sched, p: Pid): (s': Sched)
    requires Inv(s)
    requires forall t :: t in s.tcbs && s.tcbs[t].pcb == p ==> s.tcbs[t].state == TERMINATED
    ensures Inv(s') && s'.lists[RUNNING] == s.lists[RUNNING] && s'.lists[READY] == s.lists[READY]
  {
    var s' := s.(lists := s.lists[TERMINATED := []],
                 tcbs := map t | t in s.tcbs && s.tcbs[t].pcb != p :: s.tcbs[t],
                 threads := s.threads - {p});
    BuryKeeps(s, p, s');
    s'
  }

  lemma BuryKeeps(s: Sched, p: Pid, s': Sched)
    requires Inv(s)
    requires forall t :: t in s.tcbs && s.tcbs[t].pcb == p ==> s.tcbs[t].state == TERMINATED
    requires s' == s.(lists := s.lists[TERMINATED := []],
                      tcbs := map t | t in s.tcbs && s.tcbs[t].pcb != p :: s.tcbs[t],
                      threads := s.threads - {p})
    ensures Inv(s')
  {
    assert forall i :: 0 <= i < LIST_COUNT && i != TERMINATED ==> s'.lists[i] == s.lists[i];
    forall i, t | 0 <= i < LIST_COUNT && t in s'.lists[i]
      ensures t in s'.tcbs && HasList(s'.tcbs[t]) && ListOf(s'.tcbs[t]) == i
    {
      assert t in s.lists[i];
    }
    forall t | t in s.lists[READY]
      ensures Owner(s'.tcbs, t) == Owner(s.tcbs, t)
    {
    }
    assert Owners(s'.lists[READY], s'.tcbs) == Owners(s.lists[READY], s.tcbs);
  }

  /** The event makes sense in this state: new identifiers are new, and only a dead
      process is reaped. */
  ghost predicate Enabled(s: Sched, e: Event)
    requires Inv(s)
  {
    match e
    case Sleep(n) => n > 0
    case ThreadFork(t) => t !in s.tcbs
    case Fork(t, p) => t !in s.tcbs && p !in s.threads
    case Reap(p) => forall t :: t in s.tcbs && s.tcbs[t].pcb == p ==> s.tcbs[t].state == TERMINATED
    case _ => true
  }

  /** A tick wakes the first sleeper if it is due, and otherwise schedules. */
  ghost function TickStep(s: Sched): (s': Sched)
    requires Inv(s)
    ensures Inv(s')
  {
    var s1 := s.(tick := s.tick + 1);
    if SleeperDue(s1) then
      assert s.lists[SLEEP][0] in s.lists[SLEEP];
      SwitchTo(s1, s.lists[SLEEP][0], READY, NoDetail)
    else if s.lists[READY] == [] then s1
    else RoundRobin(s1, READY, NoDetail).value
  }

  ghost function YieldAnyStep(s: Sched): (s': Sched)
    requires Inv(s)
    ensures Inv(s')
  {
    if s.lists[READY] == [] then s else RoundRobin(s, READY, NoDetail).value
  }

  ghost function YieldToStep(s: Sched, t: Tid): (s': Sched)
    requires Inv(s)
    ensures Inv(s')
  {
    if t in s.lists[READY] then SwitchTo(s, t, READY, NoDetail) else s
  }

  ghost function MakeRunnableStep(s: Sched, t: Tid): (s': Sched)
    requires Inv(s)
    ensures Inv(s')
  {
    if t in s.lists[DESCHEDULE] then Wake(s, t) else s
  }

  ghost function ReadlineStep(s: Sched): (s': Sched)
    requires Inv(s)
    ensures Inv(s')
  {
    if s.lists[READLINE] == [] then s
    else
      assert s.lists[READLINE][0] in s.lists[READLINE];
      SwitchTo(s, s.lists[READLINE][0], READY, NoDetail)
  }

  /** The last thread of a process wakes a waiter of the parent and gives way to any
      ready thread; another thread gives way to one of its own process first. */
  ghost function VanishStep(s: Sched, parent: Pid): (r: Option<Sched>)
    requires Inv(s)
    ensures r.Some? ==> Inv(r.value)
  {
    if LastAlive(s)
    then RoundRobin(WakeWaiterOf(s, parent), TERMINATED, NoDetail)
    else SwitchNext(s, TERMINATED, NoDetail)
  }

  ghost predicate LastAlive(s: Sched)
    requires Inv(s)
  {
    Alive(s.threads[s.tcbs[Running(s)].pcb], s.tcbs) == 1
  }

  /** One event; None when the kernel halts because no thread is ready. */
  ghost function Step(s: Sched, e: Event): (r: Option<Sched>)
    requires Inv(s) && Enabled(s, e)
    ensures r.Some? ==> Inv(r.value)
  {
    match e
    case Tick => Some(TickStep(s))
    case YieldAny => Some(YieldAnyStep(s))
    case YieldTo(t) => Some(YieldToStep(s, t))
    case Sleep(n) => SwitchNext(s, WAITING, Blocking(SLEEP, s.tick + n, false))
    case Deschedule => SwitchNext(s, WAITING, Blocking(DESCHEDULE, 0, false))
    case MakeRunnable(t) => Some(MakeRunnableStep(s, t))
    case WaitBlock => SwitchNext(s, WAITING, Blocking(VANISH_WAIT, 0, false))
    case WakeWaiter(p) => Some(WakeWaiterOf(s, p))
    case ReadlineBlock(first) => SwitchNext(s, WAITING, Blocking(READLINE, 0, first))
    case ReadlineSwitch => Some(ReadlineStep(s))
    case Vanish(parent) => VanishStep(s, parent)
    case ThreadFork(t) => Some(Spawn(s, t, s.tcbs[Running(s)].pcb))
    case Fork(t, p) => Some(Spawn(s, t, p))
    case Reap(p) => Some(Bury(s, p))
  }

  predicate SleeperDue(s: Sched)
    requires |s.lists| == LIST_COUNT
  {
    s.lists[SLEEP] != [] && s.lists[SLEEP][0] in s.tcbs && s.tcbs[s.lists[SLEEP][0]].detail.wakeup <= s.tick
  }

  // ------------------------------------------------------------------- runs

  /** The state init_ctrl_blk sets up: one process with one running thread. */
  function Boot(): Sched
  {
    Sched([[], [], [0], [], [], [], [], [], []], map[0 := Tcb(0, RUNNING, NoDetail)], map[0 := [0]], 0)
  }

  lemma BootInv()
    ensures Inv(Boot())
  {
    var s := Boot();
    assert forall i, t :: 0 <= i < LIST_COUNT && t in s.lists[i] ==> i == 2 && t == 0;
  }

  /** `states` is a run of the kernel under `events`. */
  ghost predicate Run(states: seq<Sched>, events: seq<Event>) {
    && |states| == |events| + 1
    && Inv(states[0])
    && forall i {:trigger events[i]} :: 0 <= i < |events| && Inv(states[i]) ==>
         Enabled(states[i], events[i]) && Step(states[i], events[i]) == Some(states[i + 1])
  }

  /** In every state of every run, each live thread is in exactly the list its state
      names, one thread runs, sleepers are in order, and processes are contiguous. */
  lemma {:induction false} RunInvariant(states: seq<Sched>, events: seq<Event>, i: nat)
    requires Run(states, events) && i < |states|
    ensures Inv(states[i])
  {
    if i > 0 {
      RunInvariant(states, events, i - 1);
      var e := events[i - 1];
      assert Step(states[i - 1], e) == Some(states[i - 1 + 1]);
    }
  }
}
