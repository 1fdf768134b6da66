/** The functions that change the thread lists, statement by statement, each proved
    to do what the scheduler's state machine says. */
module KernelThreads {
  import opened Basics
  import opened ThreadLists
  import opened Scheduler
  import opened ThreadEffects

  class Kernel {
    var lists: seq<seq<Tid>>
    var tcbs: map<Tid, Tcb>
    var threads: map<Pid, seq<Tid>>
    var tickCount: nat

    function State(): Sched
      reads this
    {
      Sched(lists, tcbs, threads, tickCount)
    }

    /** init_ctrl_blk */
    constructor ()
      ensures State() == Boot() && Inv(State())
    {
      lists := [[], [], [0], [], [], [], [], [], []];
      tcbs := map[0 := Tcb(0, RUNNING, NoDetail)];
      threads := map[0 := [0]];
      tickCount := 0;
      new;
      BootInv();
    }

    /** The walk that finds a thread in the list its state names. */
    method FindSource(t: Tid, src: int) returns (i: int)
      requires 0 <= src < |lists|
      ensures i >= 0 ==> t in lists[src] && i == Index(lists[src], t)
      ensures i < 0 ==> t !in lists[src]
    {
      i := 0;
      while i < |lists[src]|
        invariant 0 <= i <= |lists[src]|
        invariant forall j :: 0 <= j < i ==> lists[src][j] != t
      {
        if lists[src][i] == t {
          return;
        }
        i := i + 1;
      }
      i := -1;
    }

    /** The walk over the sleep list. */
    method FindSleepPosition(w: nat) returns (k: nat)
      requires |lists| == LIST_COUNT && forall t :: t in lists[SLEEP] ==> t in tcbs
      ensures k == SleepPosition(lists[SLEEP], tcbs, w)
    {
      var l := lists[SLEEP];
      if l == [] || tcbs[l[0]].detail.wakeup >= w {
        k := 0;
      } else {
        k := 1;
        while k < |l| && tcbs[l[k]].detail.wakeup < w
          invariant 1 <= k <= |l|
          invariant forall i :: 0 <= i < k ==> tcbs[l[i]].detail.wakeup < w
        {
          k := k + 1;
        }
      }
      SleepPositionUnique(l, tcbs, w, k);
    }

    /** The backward walk over the ready list. */
    method FindGroupEnd(p: Pid) returns (k: nat)
      requires |lists| == LIST_COUNT && forall t :: t in lists[READY] ==> t in tcbs
      ensures k == GroupEnd(lists[READY], tcbs, p)
    {
      var l := lists[READY];
      k := |l|;
      while k > 0
        invariant 0 <= k <= |l|
        invariant forall i :: k <= i < |l| ==> tcbs[l[i]].pcb != p
      {
        if tcbs[l[k - 1]].pcb == p {
          GroupEndUnique(l, tcbs, p, k);
          return;
        }
        k := k - 1;
      }
      k := |l|;
      GroupEndUnique(l, tcbs, p, k);
    }

    /** Where the thread goes: the list, and the position before which it is linked. */
    method FindDestination(p: Pid, state: int, d: Blocking) returns (ok: bool, dst: int, k: nat)
      requires ListsInv(State()) && READY <= state <= TERMINATED
      ensures ok <==> (state == WAITING ==> TERMINATED < d.reason < LIST_COUNT)
      ensures ok ==> dst == Target(state, d) && k == Position(State(), p, state, d)
    {
      assert forall i, t :: 0 <= i < LIST_COUNT && t in lists[i] ==> t in tcbs;
      hide Sound, Complete, Rostered, SleepSorted, Grouped;
      ok, dst, k := true, state, 0;
      if state == WAITING {
        dst := d.reason;
        if dst == SLEEP {
          k := FindSleepPosition(d.wakeup);
        } else if dst == DESCHEDULE || dst == VANISH_WAIT {
          k := |lists[dst]|;
        } else if dst == READLINE {
          k := if d.firstReader then 0 else |lists[dst]|;
        } else {
          ok := false;
        }
      } else if state == READY {
        k := FindGroupEnd(p);
      } else if state == RUNNING {
        k := 0;
      } else {
        k := |lists[dst]|;
      }
    }

    /** alter_state. A thread may only stay in its list as the one running thread; then
        nothing changes. */
    method AlterState(t: Option<Tid>, state: int, d: Option<Blocking>) returns (rc: int)
      requires ListsInv(State())
      requires t.Some? ==> t.value in tcbs
      requires t.Some? && (state == WAITING ==> d.Some?) && Alterable(State(), t.value, state, if d.Some? then d.value else NoDetail) ==>
                 ListOf(tcbs[t.value]) != Target(state, if d.Some? then d.value else NoDetail) || (state == RUNNING && lists[RUNNING] == [t.value])
      modifies this
      ensures rc == 0 || rc == -1
      ensures rc == 0 <==> t.Some? && (state == WAITING ==> d.Some?)
                           && Alterable(old(State()), t.value, state, if d.Some? then d.value else NoDetail)
      ensures rc == 0 ==>
                var d' := if d.Some? then d.value else NoDetail;
                State() == if ListOf(old(tcbs)[t.value]) == Target(state, d') then old(State()) else Alter(old(State()), t.value, state, d')
      ensures rc != 0 ==> State() == old(State())
    {
      hide Complete, Rostered, SleepSorted, Grouped, NoDuplicates;
      if t.None? || !(READY <= state <= TERMINATED) {
        return -1;
      }
      if state == WAITING && d.None? {
        return -1;
      }
      var tid := t.value;
      var c := tcbs[tid];
      var i := -1;
      var src := if c.state == WAITING then c.detail.reason else c.state;
      if READY <= c.state <= TERMINATED && (c.state != WAITING || TERMINATED < c.detail.reason < LIST_COUNT) {
        i := FindSource(tid, src);
      }
      if i < 0 {
        return -1;
      }
      var ok, dst, k := FindDestination(c.pcb, state, if state == WAITING then d.value else NoDetail);
      if !ok {
        return -1;
      }
      lists := lists[src := lists[src][..i] + lists[src][i + 1..]];
      lists := lists[dst := lists[dst][..k] + [tid] + lists[dst][k..]];
      tcbs := tcbs[tid := Tcb(c.pcb, state, if state == WAITING then d.value else c.detail)];
      assert src == dst ==> lists[dst] == [tid] && State() == old(State());
      return 0;
    }

    /** round_robin */
    method RoundRobin() returns (r: Option<Tid>)
      requires Inv(State())
      modifies this`lists
      ensures old(lists[READY]) == [] ==> r == None && State() == old(State())
      ensures old(lists[READY]) != [] ==> r == Some(old(lists[READY][0])) && State() == Rotate(old(State()))
    {
      var l := lists[READY];
      if l == [] {
        return None;
      }
      r := Some(l[0]);
      assert forall j :: 0 <= j < |l| ==> l[j] in l;
      var k := 1;
      while k < |l|
        invariant 1 <= k <= |l|
        invariant lists == old(lists) && TurnBy(l, tcbs, 1) == TurnBy(l, tcbs, k)
      {
        if tcbs[l[k]].pcb != tcbs[l[0]].pcb {
          lists := lists[READY := l[k..] + l[..k]];
          return;
        }
        k := k + 1;
      }
      assert l[0..] + l[..0] == l;
      assert lists == lists[READY := l];
    }

    /** The scan of the running process's own threads in find_next_thread. */
    method FindMate() returns (r: Option<Tid>)
      requires Inv(State())
      ensures r == FirstReady(threads[tcbs[Scheduler.Running(State())].pcb], tcbs)
    {
      assert lists[RUNNING][0] in lists[RUNNING];
      var mates := threads[tcbs[lists[RUNNING][0]].pcb];
      var i := 0;
      while i < |mates|
        invariant 0 <= i <= |mates|
        invariant FirstReady(mates, tcbs) == FirstReady(mates[i..], tcbs)
      {
        assert mates[i] in mates;
        if tcbs[mates[i]].state == READY {
          return Some(mates[i]);
        }
        assert mates[i..][1..] == mates[i + 1..];
        i := i + 1;
      }
      r := None;
    }

    /** find_next_thread */
    method FindNextThread() returns (r: Option<Tid>)
      requires Inv(State())
      modifies this`lists
      ensures var s := old(State());
              match FirstReady(s.threads[s.tcbs[Scheduler.Running(s)].pcb], s.tcbs)
              case Some(t) => r == Some(t) && State() == s
              case None => if s.lists[READY] == [] then r == None && State() == s
                           else r == Some(s.lists[READY][0]) && State() == Rotate(s)
    {
      r := FindMate();
      if r.None? {
        r := RoundRobin();
      }
    }

    /** switch_context. It notices a missing thread or a bad state, but not a failure of
        its first alter_state. */
    method SwitchContext(t: Option<Tid>, state: int, d: Option<Blocking>) returns (rc: int)
      requires Inv(State())
      requires t.Some? ==> Waiting(State(), t.value)
      modifies this
      ensures rc == 0 || rc == -1
      ensures rc == 0 <==> t.Some? && Accepted(state) && (state == WAITING ==> d.Some?)
      ensures rc == 0 ==> State() == Switched(old(State()), t.value, state, if d.Some? then d.value else NoDetail)
      ensures rc != 0 ==> State() == old(State())
    {
      if t.None? || !(NEW_STATE <= state <= TERMINATED) {
        return -1;
      }
      if state == WAITING && d.None? {
        return -1;
      }
      ghost var s := State();
      ghost var d' := if d.Some? then d.value else NoDetail;
      var original := lists[RUNNING][0];
      if Leaving(state, d') { SwitchSteps(s, t.value, state, d'); } else { CrowdedSteps(s, t.value, state, d'); }
      var rc1 := AlterState(Some(original), state, d);
      var rc2 := AlterState(t, RUNNING, None);
      return 0;
    }

    /** find_tcb_in_list for a thread identifier. */
    method FindTid(tid: int, list: int) returns (r: Option<Tid>)
      requires 0 <= list < |lists|
      ensures r.Some? ==> r.value in lists[list] && r.value == tid
      ensures r.None? ==> forall t :: t in lists[list] ==> t != tid
    {
      var i := 0;
      while i < |lists[list]|
        invariant 0 <= i <= |lists[list]|
        invariant forall j :: 0 <= j < i ==> lists[list][j] != tid
      {
        if lists[list][i] == tid {
          return Some(lists[list][i]);
        }
        i := i + 1;
      }
      r := None;
    }

    /** find_tcb_in_list for a process, used on the VANISH_WAIT list. */
    method FindWaiter(p: Pid) returns (r: Option<Tid>)
      requires Inv(State())
      ensures r == FirstOf(lists[VANISH_WAIT], tcbs, p)
    {
      var l, i := lists[VANISH_WAIT], 0;
      while i < |l|
        invariant 0 <= i <= |l|
        invariant FirstOf(l, tcbs, p) == FirstOf(l[i..], tcbs, p)
      {
        assert l[i] in l;
        if tcbs[l[i]].pcb == p {
          return Some(l[i]);
        }
        assert l[i..][1..] == l[i + 1..];
        i := i + 1;
      }
      r := None;
    }

    /** get_thread_alive_count */
    method AliveCount(p: Pid) returns (count: nat)
      requires Inv(State()) && p in threads
      ensures count == Alive(threads[p], tcbs)
    {
      var l, i := threads[p], 0;
      count := 0;
      while i < |l|
        invariant 0 <= i <= |l|
        invariant count + Alive(l[i..], tcbs) == Alive(l, tcbs)
      {
        assert l[i] in l;
        if tcbs[l[i]].state != TERMINATED {
          count := count + 1;
        }
        assert l[i..][1..] == l[i + 1..];
        i := i + 1;
      }
    }

    /** round_robin, then switch_context on its result. */
    method SwitchRoundRobin(state: int) returns (found: bool)
      requires Inv(State()) && (state == READY || state == TERMINATED)
      modifies this
      ensures Inv(State())
      ensures found <==> old(lists[READY]) != []
      ensures found <==> Scheduler.RoundRobin(old(State()), state, NoDetail).Some?
      ensures !found ==> State() == old(State())
      ensures found ==> Scheduler.RoundRobin(old(State()), state, NoDetail) == Some(State())
    {
      ghost var s := State();
      RotateKeeps(s);
      var t := RoundRobin();
      if t.None? {
        return false;
      }
      assert t.value in s.lists[READY];
      var rc := SwitchContext(t, state, None);
      found := true;
    }

    /** handle_timer: wake the first sleeper if it is due, else round robin. */
    method HandleTimer()
      requires Inv(State())
      modifies this
      ensures State() == TickStep(old(State())) && Effect(old(State()), Tick, State())
    {
      SleepHead(State());
      TickMeans(State());
      hide Inv, Effect, Scheduler.RoundRobin, SwitchTo;
      tickCount := tickCount + 1;
      if lists[SLEEP] != [] && tcbs[lists[SLEEP][0]].detail.wakeup <= tickCount {
        var rc := SwitchContext(Some(lists[SLEEP][0]), READY, None);
      } else {
        var found := SwitchRoundRobin(READY);
      }
    }

    /** handle_yield */
    method HandleYield(tid: int) returns (eax: int)
      requires Inv(State())
      modifies this
      ensures tid == -1 ==> State() == YieldAnyStep(old(State()))
      ensures tid == -1 ==> eax == if old(lists[READY]) == [] then -1 else 0
      ensures tid >= 0 ==> State() == YieldToStep(old(State()), tid)
      ensures tid < -1 ==> State() == old(State())
      ensures tid != -1 ==> eax == if tid >= 0 && tid in old(lists[READY]) then 0 else -1
      ensures tid >= -1 ==> Effect(old(State()), if tid == -1 then YieldAny else YieldTo(tid), State())
    {
      hide Effect;
      if tid >= -1 { StepMeans(State(), if tid == -1 then YieldAny else YieldTo(tid)); }
      if tid == -1 {
        var found := SwitchRoundRobin(READY);
        if !found {
          return -1;
        }
      } else {
        var t := FindTid(tid, READY);
        if t.None? {
          return -1;
        }
        var rc := SwitchContext(t, READY, None);
      }
      eax := 0;
    }

    /** find_next_thread, then switch_context on its result. */
    method SwitchToNext(state: int, d: Option<Blocking>) returns (found: bool)
      requires Inv(State()) && (state == TERMINATED || (state == WAITING && d.Some? && TERMINATED < d.value.reason < LIST_COUNT))
      modifies this
      ensures found <==> SwitchNext(old(State()), state, if d.Some? then d.value else NoDetail).Some?
      ensures found ==> SwitchNext(old(State()), state, if d.Some? then d.value else NoDetail) == Some(State())
      ensures !found ==> State() == old(State())
    {
      ghost var s := State();
      RotateKeeps(s);
      var t := FindNextThread();
      if t.None? {
        return false;
      }
      NextIsWaiting(s, t.value);
      var rc := SwitchContext(t, state, d);
      found := true;
    }

    /** The blocking calls switch to the next thread; the kernel halts when none is ready. */
    method BlockRunning(d: Blocking) returns (halted: bool)
      requires Inv(State()) && TERMINATED < d.reason < LIST_COUNT
      modifies this
      ensures halted <==> SwitchNext(old(State()), WAITING, d).None?
      ensures !halted ==> SwitchNext(old(State()), WAITING, d) == Some(State())
    {
      var found := SwitchToNext(WAITING, Some(d));
      halted := !found;
    }

    /** handle_sleep */
    method HandleSleep(ticks: int) returns (eax: int, halted: bool)
      requires Inv(State())
      modifies this
      ensures ticks < 0 ==> eax == -1 && !halted
      ensures ticks >= 0 ==> eax == 0
      ensures ticks <= 0 ==> State() == old(State()) && !halted
      ensures ticks > 0 ==> var r := SwitchNext(old(State()), WAITING, Blocking(SLEEP, old(tickCount) + ticks, false));
                            if r.None? then halted else !halted && r == Some(State())
      ensures ticks > 0 ==> if halted then old(lists[READY]) == [] else Effect(old(State()), Sleep(ticks), State())
    {
      hide Inv, Effect, SwitchNext;
      if ticks > 0 { StepMeans(State(), Sleep(ticks)); }
      eax, halted := 0, false;
      if ticks < 0 {
        return -1, false;
      }
      if ticks == 0 {
        return;
      }
      halted := BlockRunning(Blocking(SLEEP, tickCount + ticks, false));
    }

    /** handle_deschedule; `readable` is the check of the user's pointer. */
    method HandleDeschedule(readable: bool, reject: int) returns (eax: int, halted: bool)
      requires Inv(State())
      modifies this
      ensures eax == if readable then 0 else -1
      ensures !readable || reject != 0 ==> State() == old(State()) && !halted
      ensures readable && reject == 0 ==> var r := SwitchNext(old(State()), WAITING, Blocking(DESCHEDULE, 0, false));
                                          if r.None? then halted else !halted && r == Some(State())
      ensures readable && reject == 0 ==> if halted then old(lists[READY]) == [] else Effect(old(State()), Deschedule, State())
    {
      hide Inv, Effect, SwitchNext;
      StepMeans(State(), Deschedule);
      eax, halted := 0, false;
      if !readable {
        return -1, false;
      }
      if reject != 0 {
        return;
      }
      halted := BlockRunning(Blocking(DESCHEDULE, 0, false));
    }

    /** handle_make_runnable */
    method HandleMakeRunnable(tid: int) returns (eax: int)
      requires Inv(State())
      modifies this
      ensures tid >= 0 ==> State() == MakeRunnableStep(old(State()), tid)
      ensures tid < 0 ==> State() == old(State())
      ensures eax == if tid >= 0 && tid in old(lists[DESCHEDULE]) then 0 else -1
      ensures tid >= 0 ==> Effect(old(State()), MakeRunnable(tid), State())
    {
      hide Effect;
      if tid >= 0 { StepMeans(State(), MakeRunnable(tid)); }
      var t := FindTid(tid, DESCHEDULE);
      if t.None? {
        return -1;
      }
      var rc := AlterState(t, READY, None);
      eax := 0;
    }

    /** Waking one waiter of a process, as handle_vanish and handle_wait do. */
    method WakeOneWaiter(p: Pid)
      requires Inv(State())
      modifies this
      ensures State() == WakeWaiterOf(old(State()), p) && Inv(State())
    {
      var t := FindWaiter(p);
      if t.Some? {
        var rc := AlterState(t, READY, None);
      }
    }

    /** handle_vanish, from the alive count on. */
    method HandleVanish(parent: Pid) returns (halted: bool)
      requires Inv(State())
      modifies this
      ensures var r := VanishStep(old(State()), parent);
              && (r.Some? ==> !halted && r == Some(State()))
              && (r.None? ==> halted == LastAlive(old(State())))
              && (r.None? && !halted ==> State() == old(State()))
      ensures halted ==> old(lists[READY]) == [] && Alone(old(State()))
      ensures !halted ==> Vanishes(old(State()), State(), parent)
                          || (State() == old(State()) && lists[READY] == [] && !Alone(State()))
    {
      VanishMeans(State(), parent);
      AloneMeans(State());
      assert lists[RUNNING][0] in lists[RUNNING];
      var p := tcbs[lists[RUNNING][0]].pcb;
      assert p == tcbs[Scheduler.Running(State())].pcb && p in threads;
      var count := AliveCount(p);
      assert LastAlive(State()) <==> count == 1;
      hide Scheduler.RoundRobin, SwitchNext, WakeWaiterOf, LastAlive, Inv, Vanishes, Alone;
      if count == 1 {
        WakeOneWaiter(parent);
        var found := SwitchRoundRobin(TERMINATED);
        halted := !found;
      } else {
        var found := SwitchToNext(TERMINATED, None);
        halted := false;
      }
    }
  }

  lemma SleepHead(s: Sched)
    requires Inv(s)
    ensures |s.lists| == LIST_COUNT && Inv(s.(tick := s.tick + 1))
    ensures s.lists[SLEEP] != [] ==> s.lists[SLEEP][0] in s.tcbs && Waiting(s, s.lists[SLEEP][0])
  {
    if s.lists[SLEEP] != [] { assert s.lists[SLEEP][0] in s.lists[SLEEP]; }
  }

  lemma NextIsWaiting(s: Sched, t: Tid)
    requires Inv(s)
    requires match FirstReady(s.threads[s.tcbs[Scheduler.Running(s)].pcb], s.tcbs)
             case Some(u) => t == u
             case None => s.lists[READY] != [] && t == s.lists[READY][0]
    ensures Waiting(s, t) && Waiting(Rotate(s), t)
  {
    if s.lists[READY] != [] { assert s.lists[READY][0] in s.lists[READY]; }
  }

  lemma SleepPositionUnique(l: seq<Tid>, tcbs: map<Tid, Tcb>, w: nat, k: nat)
    requires k <= |l| && forall t :: t in l ==> t in tcbs
    requires forall i :: 0 <= i < k ==> tcbs[l[i]].detail.wakeup < w
    requires k < |l| ==> tcbs[l[k]].detail.wakeup >= w
    ensures k == SleepPosition(l, tcbs, w)
  {
  }

  lemma GroupEndUnique(l: seq<Tid>, tcbs: map<Tid, Tcb>, p: Pid, k: nat)
    requires k <= |l| && forall t :: t in l ==> t in tcbs
    requires forall i :: k <= i < |l| ==> tcbs[l[i]].pcb != p
    requires (0 < k && tcbs[l[k - 1]].pcb == p) || (k == |l| && forall i :: 0 <= i < |l| ==> tcbs[l[i]].pcb != p)
    ensures k == GroupEnd(l, tcbs, p)
  {
  }
}
