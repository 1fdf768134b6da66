/** What each event of the scheduler does to the threads, said of their control blocks and
    of the places in the lists, without the functions that compute it. */
module ThreadEffects {
  import opened Basics
  import opened ThreadLists
  import opened Scheduler

  // ------------------------------------------------------------------- one thread moves

  /** Between which threads of its new list a thread is put. */
  ghost predicate Between(tcbs: map<Tid, Tcb>, a: seq<Tid>, b: seq<Tid>, p: Pid, state: int, d: Blocking) {
    if state == RUNNING then a == []
    else if state == READY then (forall u :: u in b ==> Owner(tcbs, u) != p) && (b == [] || (a != [] && Owner(tcbs, a[|a| - 1]) == p))
    else if state == WAITING && d.reason == SLEEP then
      && (forall u :: u in a ==> u in tcbs && tcbs[u].detail.wakeup < d.wakeup)
      && (b == [] || (b[0] in tcbs && tcbs[b[0]].detail.wakeup >= d.wakeup))
    else if state == WAITING && d.reason == READLINE && d.firstReader then a == []
    else b == []
  }

  /** alter_state takes the thread out of its place in one list and puts it between two others
      in another, where its state and its process say; every other list, and every other
      thread, is as it was. */
  lemma AlterMeans(s: Sched, t: Tid, state: int, d: Blocking) returns (x: seq<Tid>, y: seq<Tid>, a: seq<Tid>, b: seq<Tid>)
    requires ListsInv(s) && Alterable(s, t, state, d) && ListOf(s.tcbs[t]) != Target(state, d)
    ensures var s', src, dst := Alter(s, t, state, d), (if s.tcbs[t].state == WAITING then s.tcbs[t].detail.reason else s.tcbs[t].state),
                                (if state == WAITING then d.reason else state);
            && |s'.lists| == LIST_COUNT && 0 <= src < LIST_COUNT && 0 <= dst < LIST_COUNT
            && s.lists[src] == x + [t] + y && s'.lists[src] == x + y
            && s.lists[dst] == a + b && s'.lists[dst] == a + [t] + b && Between(s.tcbs, a, b, s.tcbs[t].pcb, state, d)
            && (forall i :: 0 <= i < LIST_COUNT && i != src && i != dst ==> s'.lists[i] == s.lists[i])
            && s'.tcbs == s.tcbs[t := Tcb(s.tcbs[t].pcb, state, if state == WAITING then d else s.tcbs[t].detail)]
            && s'.threads == s.threads && s'.tick == s.tick
  {
    hide ListsInv, NoDuplicates, Position, Between;
    var src, dst := ListOf(s.tcbs[t]), Target(state, d);
    var i := Index(s.lists[src], t);
    var k := Places(s, t, state, d);
    x, y := s.lists[src][..i], s.lists[src][i + 1..];
    a, b := s.lists[dst][..k], s.lists[dst][k..];
  }

  /** The place alter_state finds is such a place. */
  lemma Places(s: Sched, t: Tid, state: int, d: Blocking) returns (k: nat)
    requires ListsInv(s) && Alterable(s, t, state, d)
    ensures var l := s.lists[Target(state, d)];
            && (forall u :: u in l ==> u in s.tcbs) && k == Position(s, s.tcbs[t].pcb, state, d) <= |l|
            && Between(s.tcbs, l[..k], l[k..], s.tcbs[t].pcb, state, d)
  {
    hide Complete, Rostered, SleepSorted, Grouped, NoDuplicates;
    var l, p := s.lists[Target(state, d)], s.tcbs[t].pcb;
    assert forall u :: u in l ==> u in s.tcbs;
    k := Position(s, p, state, d);
    var a, b := l[..k], l[k..];
    forall u | u in a
      ensures u in l
    {
    }
    if state == READY {
      forall u | u in b
        ensures Owner(s.tcbs, u) != p
      {
        var j :| 0 <= j < |b| && b[j] == u;
        assert l[k + j] == u;
      }
    }
  }

  /** round_robin turns the ready list: the threads at its front that belong to the first
      one's process go behind all others, in their order; with no others nothing changes. */
  lemma TurnMeans(l: seq<Tid>, tcbs: map<Tid, Tcb>) returns (a: seq<Tid>, b: seq<Tid>)
    ensures l == a + b && Turned(l, tcbs) == b + a
    ensures forall t :: t in a ==> Owner(tcbs, t) == Owner(tcbs, l[0])
    ensures if a == [] then forall t :: t in l ==> Owner(tcbs, t) == Owner(tcbs, l[0]) else b != [] && Owner(tcbs, b[0]) != Owner(tcbs, l[0])
  {
    if l == [] {
      return [], [];
    }
    var k := TurnBy(l, tcbs, 1);
    a, b := l[..k], l[k..];
    assert forall j :: 0 <= j < (if k == 0 then |l| else k) ==> Owner(tcbs, l[j]) == Owner(tcbs, l[0]);
  }

  // ------------------------------------------------------------------------ who is chosen

  /** The first thread in a list of which `p` is the process. */
  ghost predicate IsFirstOf(l: seq<Tid>, tcbs: map<Tid, Tcb>, p: Pid, t: Tid) {
    exists i :: 0 <= i < |l| && l[i] == t && Owner(tcbs, t) == p && forall j :: 0 <= j < i ==> Owner(tcbs, l[j]) != p
  }

  ghost predicate IsFirstReady(l: seq<Tid>, tcbs: map<Tid, Tcb>, t: Tid) {
    exists i :: 0 <= i < |l| && l[i] == t && IsReady(tcbs, t) && forall j :: 0 <= j < i ==> !IsReady(tcbs, l[j])
  }

  predicate IsReady(tcbs: map<Tid, Tcb>, t: Tid) { t in tcbs && tcbs[t].state == READY }

  lemma {:induction false} FirstOfMeans(l: seq<Tid>, tcbs: map<Tid, Tcb>, p: Pid)
    ensures match FirstOf(l, tcbs, p)
            case Some(t) => IsFirstOf(l, tcbs, p, t)
            case None => forall t :: t in l ==> Owner(tcbs, t) != p
  {
    if l != [] && Owner(tcbs, l[0]) != p {
      FirstOfMeans(l[1..], tcbs, p);
      var r := FirstOf(l[1..], tcbs, p);
      if r.Some? {
        var i :| 0 <= i < |l[1..]| && l[1..][i] == r.value && forall j :: 0 <= j < i ==> Owner(tcbs, l[1..][j]) != p;
        assert forall j :: 0 < j < i + 1 ==> l[j] == l[1..][j - 1];
        assert l[i + 1] == r.value;
      }
    }
  }

  lemma {:induction false} FirstReadyMeans(l: seq<Tid>, tcbs: map<Tid, Tcb>)
    ensures match FirstReady(l, tcbs)
            case Some(t) => IsFirstReady(l, tcbs, t)
            case None => forall t :: t in l ==> !IsReady(tcbs, t)
  {
    if l != [] && !IsReady(tcbs, l[0]) {
      FirstReadyMeans(l[1..], tcbs);
      var r := FirstReady(l[1..], tcbs);
      if r.Some? {
        var i :| 0 <= i < |l[1..]| && l[1..][i] == r.value && forall j :: 0 <= j < i ==> !IsReady(tcbs, l[1..][j]);
        assert forall j :: 0 < j < i + 1 ==> l[j] == l[1..][j - 1];
        assert l[i + 1] == r.value;
      }
    }
  }

  /** The thread that find_next_thread finds: the first ready one of the running process, or
      the head of the ready list. */
  ghost predicate IsNext(s: Sched, t: Tid)
    requires Inv(s)
  {
    var mates := s.threads[s.tcbs[Running(s)].pcb];
    if exists u :: IsFirstReady(mates, s.tcbs, u) then IsFirstReady(mates, s.tcbs, t) else s.lists[READY] != [] && t == s.lists[READY][0]
  }

  /** No other thread of the running one's process is alive. */
  ghost predicate Alone(s: Sched)
    requires Inv(s)
  {
    forall u :: u in s.tcbs && u != Running(s) && s.tcbs[u].pcb == s.tcbs[Running(s)].pcb ==> s.tcbs[u].state == TERMINATED
  }

  // -------------------------------------------------------------------- what events leave

  /** The thread in its new state; its process and, unless it blocks, its blocking detail stay. */
  function Becomes(tcbs: map<Tid, Tcb>, t: Tid, state: int, d: Blocking): map<Tid, Tcb> {
    if t in tcbs then tcbs[t := Tcb(tcbs[t].pcb, state, if state == WAITING then d else tcbs[t].detail)] else tcbs
  }

  /** The running thread has given way to `t`: it is in the state given, at the end of the
      list if it has terminated, `t` runs, and no other thread is in another state. */
  ghost predicate Switches(s: Sched, s': Sched, t: Tid, state: int, d: Blocking)
    requires Inv(s)
  {
    && Inv(s') && s'.lists[RUNNING] == [t] && s'.tcbs == Becomes(Becomes(s.tcbs, Running(s), state, d), t, RUNNING, d)
    && s'.threads == s.threads && s'.tick == s.tick
    && s'.lists[TERMINATED] == s.lists[TERMINATED] + if state == TERMINATED then [Running(s)] else []
  }

  /** Thread `t` has been made ready, and nothing else has changed. */
  ghost predicate Wakes(s: Sched, s': Sched, t: Tid)
    requires Inv(s)
  {
    && Inv(s') && s'.lists[RUNNING] == s.lists[RUNNING] && s'.tcbs == Becomes(s.tcbs, t, READY, NoDetail)
    && s'.threads == s.threads && s'.tick == s.tick && s'.lists[TERMINATED] == s.lists[TERMINATED]
  }

  lemma SwitchMeans(s: Sched, t: Tid, state: int, d: Blocking)
    requires Inv(s) && Waiting(s, t) && Leaving(state, d)
    ensures Switches(s, SwitchTo(s, t, state, d), t, state, d)
  {
    hide Complete, Rostered, SleepSorted, Grouped, NoDuplicates, Alter;
    SwitchSteps(s, t, state, d);
    var r := s.lists[RUNNING][0];
    var s1 := Alter(s, r, state, d);
    var x, y, a, b := AlterMeans(s, r, state, d);
    var x', y', a', b' := AlterMeans(s1, t, RUNNING, NoDetail);
    var s' := Alter(s1, t, RUNNING, NoDetail);
    assert s1.lists[TERMINATED] == s.lists[TERMINATED] + if state == TERMINATED then [r] else [];
    assert s'.lists[TERMINATED] == s1.lists[TERMINATED];
    assert s'.tcbs == Becomes(Becomes(s.tcbs, r, state, d), t, RUNNING, d);
  }

  lemma WakeMeans(s: Sched, t: Tid)
    requires Inv(s) && t in s.lists[DESCHEDULE] + s.lists[VANISH_WAIT]
    ensures Wakes(s, Wake(s, t), t) && t !in Wake(s, t).lists[VANISH_WAIT]
    ensures Wake(s, t).lists[READY] != [] && Wake(s, t).lists[READY][0] == if s.lists[READY] == [] then t else s.lists[READY][0]
  {
    hide Complete, Rostered, SleepSorted, Grouped, NoDuplicates, Alter;
    AlterKeepsLists(s, t, READY, NoDetail);
    var x, y, a, b := AlterMeans(s, t, READY, NoDetail);
    var s' := Wake(s, t);
    assert s'.tcbs[t].state == READY;
    assert s'.lists[READY] == a + [t] + b && s.lists[READY] == a + b;
    assert t in s'.lists[VANISH_WAIT] ==> ListOf(s'.tcbs[t]) == VANISH_WAIT;
  }

  /** The running thread gives way to the head of the ready list, if there is one. */
  ghost predicate ToHead(s: Sched, s': Sched, state: int)
    requires Inv(s)
  {
    s.lists[READY] != [] && Switches(s, s', s.lists[READY][0], state, NoDetail)
  }

  lemma RoundRobinMeans(s: Sched, state: int)
    requires Inv(s) && Leaving(state, NoDetail) && state != WAITING
    ensures match RoundRobin(s, state, NoDetail)
            case Some(s') => ToHead(s, s', state)
            case None => s.lists[READY] == []
  {
    hide Complete, Rostered, SleepSorted, Grouped, NoDuplicates, SwitchTo;
    if s.lists[READY] != [] {
      HeadWaits(s);
      RotateKeeps(s);
      SwitchMeans(Rotate(s), s.lists[READY][0], state, NoDetail);
    }
  }

  lemma HeadWaits(s: Sched)
    requires Inv(s) && s.lists[READY] != []
    ensures Waiting(s, s.lists[READY][0]) && Waiting(Rotate(s), s.lists[READY][0])
    ensures Inv(Rotate(s)) && Running(Rotate(s)) == Running(s)
  {
    assert s.lists[READY][0] in s.lists[READY];
    RotateKeeps(s);
  }

  /** The running thread gives way to the thread that find_next_thread finds. */
  ghost predicate ToNext(s: Sched, s': Sched, state: int, d: Blocking)
    requires Inv(s)
  {
    exists t :: IsNext(s, t) && Switches(s, s', t, state, d)
  }

  lemma SwitchNextMeans(s: Sched, state: int, d: Blocking)
    requires Inv(s) && Leaving(state, d)
    ensures match SwitchNext(s, state, d)
            case Some(s') => ToNext(s, s', state, d)
            case None => s.lists[READY] == []
  {
    hide Complete, SleepSorted, Grouped, NoDuplicates, SwitchTo, Switches, FirstReady;
    var mates := s.threads[s.tcbs[Running(s)].pcb];
    FirstReadyMeans(mates, s.tcbs);
    match FirstReady(mates, s.tcbs)
    case Some(t) =>
      ReadyWaits(s, t);
      SwitchMeans(s, t, state, d);
      assert IsNext(s, t);
    case None =>
      if s.lists[READY] != [] {
        var t := s.lists[READY][0];
        HeadWaits(s);
        SwitchMeans(Rotate(s), t, state, d);
        TurnedSwitch(s, SwitchTo(Rotate(s), t, state, d), t, state, d);
        assert forall u :: !IsFirstReady(mates, s.tcbs, u);
        assert IsNext(s, t);
      }
  }

  lemma TurnedSwitch(s: Sched, s': Sched, t: Tid, state: int, d: Blocking)
    requires Inv(s) && Inv(Rotate(s)) && Running(Rotate(s)) == Running(s) && Switches(Rotate(s), s', t, state, d)
    ensures Switches(s, s', t, state, d)
  {
  }

  lemma ReadyWaits(s: Sched, t: Tid)
    requires Inv(s) && IsReady(s.tcbs, t)
    ensures Waiting(s, t) && s.lists[READY] != []
  {
    assert t in s.lists[READY];
  }

  /** A thread of process `p` is asleep in wait: the first one is woken; else nothing changes. */
  ghost predicate WakesFirst(s: Sched, s': Sched, p: Pid)
    requires Inv(s)
  {
    if exists w :: IsFirstOf(s.lists[VANISH_WAIT], s.tcbs, p, w)
    then exists w :: IsFirstOf(s.lists[VANISH_WAIT], s.tcbs, p, w) && Wakes(s, s', w)
    else s' == s
  }

  lemma WakeWaiterMeans(s: Sched, p: Pid)
    requires Inv(s)
    ensures WakesFirst(s, WakeWaiterOf(s, p), p)
    ensures WakeWaiterOf(s, p).lists[READY] == [] <==> s.lists[READY] == [] && forall w :: !IsFirstOf(s.lists[VANISH_WAIT], s.tcbs, p, w)
  {
    hide Complete, Rostered, SleepSorted, Grouped, NoDuplicates, Wakes, Wake;
    FirstOfMeans(s.lists[VANISH_WAIT], s.tcbs, p);
    match FirstOf(s.lists[VANISH_WAIT], s.tcbs, p)
    case Some(t) => WakeMeans(s, t);
    case None => assert forall w :: !IsFirstOf(s.lists[VANISH_WAIT], s.tcbs, p, w);
  }

  /** handle_vanish. The last thread of a process wakes the parent's first waiter, and then
      gives way to the head of the ready list, which is that waiter if no thread was ready;
      another thread gives way to the next one. Either way it has terminated. */
  ghost predicate Vanishes(s: Sched, s': Sched, parent: Pid)
    requires Inv(s)
  {
    if Alone(s) then
      exists s1 :: Inv(s1) && WakesFirst(s, s1, parent) && (s.lists[READY] != [] ==> s1.lists[READY] != [] && s1.lists[READY][0] == s.lists[READY][0])
                   && ToHead(s1, s', TERMINATED)
    else ToNext(s, s', TERMINATED, NoDetail)
  }

  lemma AloneMeans(s: Sched)
    requires Inv(s)
    ensures LastAlive(s) <==> Alone(s)
  {
    hide Complete, SleepSorted, Grouped, Sound;
    var r := Running(s);
    var l := s.threads[s.tcbs[r].pcb];
    assert r in l;
    OneAlive(l, s.tcbs, r);
  }

  /** A count of one means that nobody else in the list is alive. */
  lemma {:induction false} OneAlive(l: seq<Tid>, tcbs: map<Tid, Tcb>, r: Tid)
    requires NoDuplicates(l) && r in tcbs && tcbs[r].state != TERMINATED
    ensures r in l ==> (Alive(l, tcbs) == 1 <==> forall u :: u in l && u != r ==> !IsAlive(tcbs, u))
    ensures r in l ==> Alive(l, tcbs) > 0
    ensures Alive(l, tcbs) == 0 <==> forall u :: u in l ==> !IsAlive(tcbs, u)
  {
    if l != [] {
      assert l == [l[0]] + l[1..] && l[0] !in l[1..];
      assert forall u :: u in l <==> u == l[0] || u in l[1..];
      OneAlive(l[1..], tcbs, r);
    }
  }

  predicate IsAlive(tcbs: map<Tid, Tcb>, u: Tid) { u in tcbs && tcbs[u].state != TERMINATED }

  lemma VanishMeans(s: Sched, parent: Pid)
    requires Inv(s)
    ensures match VanishStep(s, parent)
            case Some(s') => Vanishes(s, s', parent)
            case None => s.lists[READY] == []
    ensures VanishStep(s, parent).None? && Alone(s) ==> forall w :: !IsFirstOf(s.lists[VANISH_WAIT], s.tcbs, parent, w)
  {
    hide Inv, WakesFirst, RoundRobin, SwitchNext, WakeWaiterOf, ToHead, ToNext, LastAlive, Alone;
    AloneMeans(s);
    InvLists(s);
    if LastAlive(s) {
      WakeWaiterMeans(s, parent);
      WokenHead(s, parent);
      RoundRobinMeans(WakeWaiterOf(s, parent), TERMINATED);
    } else {
      SwitchNextMeans(s, TERMINATED, NoDetail);
    }
  }

  lemma InvLists(s: Sched)
    requires Inv(s)
    ensures |s.lists| == LIST_COUNT
  {
  }

  lemma WokenHead(s: Sched, p: Pid)
    requires Inv(s)
    ensures |s.lists| == LIST_COUNT && |WakeWaiterOf(s, p).lists| == LIST_COUNT
    ensures s.lists[READY] != [] ==> WakeWaiterOf(s, p).lists[READY] != [] && WakeWaiterOf(s, p).lists[READY][0] == s.lists[READY][0]
  {
    hide Complete, Rostered, SleepSorted, Grouped, NoDuplicates, Wakes, Wake;
    match FirstOf(s.lists[VANISH_WAIT], s.tcbs, p)
    case Some(t) => WakeMeans(s, t);
    case None =>
  }

  /** In plain words: the thread has terminated and is in the list of the terminated. If it
      was the last of its process, the parent's first waiter is not waiting any more, and
      the head of the ready list runs, or that waiter where there was none; otherwise a ready
      thread of the same process runs if there is one. */
  lemma VanishedMeans(s: Sched, s': Sched, parent: Pid)
    requires Inv(s) && Vanishes(s, s', parent)
    ensures var r := Running(s); r in s'.tcbs && s'.tcbs[r].state == TERMINATED && |s'.lists| == LIST_COUNT && r in s'.lists[TERMINATED]
    ensures |s.lists| == LIST_COUNT && s.tcbs[Running(s)].pcb in s.threads
    ensures forall w: Tid :: Alone(s) && IsFirstOf(s.lists[VANISH_WAIT], s.tcbs, parent, w) ==>
              w in s'.tcbs && w !in s'.lists[VANISH_WAIT] && (s'.tcbs[w].state == READY || s'.lists[RUNNING] == [w])
    ensures Alone(s) ==> if s.lists[READY] != [] then s'.lists[RUNNING] == [s.lists[READY][0]]
                         else exists w: Tid :: IsFirstOf(s.lists[VANISH_WAIT], s.tcbs, parent, w) && s'.lists[RUNNING] == [w]
    ensures forall t: Tid :: !Alone(s) && IsFirstReady(s.threads[s.tcbs[Running(s)].pcb], s.tcbs, t) ==> s'.lists[RUNNING] == [t]
  {
    hide Complete, SleepSorted, Grouped, NoDuplicates, Alone;
    InvLists(s);
    if Alone(s) {
      var s1 :| Inv(s1) && WakesFirst(s, s1, parent) && (s.lists[READY] != [] ==> s1.lists[READY] != [] && s1.lists[READY][0] == s.lists[READY][0])
                && ToHead(s1, s', TERMINATED);
      OnlyWaiter(s, s1, parent);
      FirstUnique(s.lists[VANISH_WAIT], s.tcbs, parent);
      SameRunner(s, s1, parent);
      HandedOver(s1, s', s1.lists[READY][0]);
      forall w: Tid | IsFirstOf(s.lists[VANISH_WAIT], s.tcbs, parent, w)
        ensures w in s'.tcbs && w !in s'.lists[VANISH_WAIT] && (s'.tcbs[w].state == READY || s'.lists[RUNNING] == [w])
      {
        WokenReady(s, s1, parent, w);
      }
    } else {
      var t: Tid :| IsNext(s, t) && Switches(s, s', t, TERMINATED, NoDetail);
      NextIsReady(s, t);
      HandedOver(s, s', t);
    }
  }

  lemma NextIsReady(s: Sched, t: Tid)
    requires Inv(s) && IsNext(s, t)
    ensures t != Running(s)
  {
    hide Complete, SleepSorted, Grouped, NoDuplicates;
    if s.lists[READY] != [] { assert s.lists[READY][0] in s.lists[READY]; }
  }

  lemma HandedOver(s: Sched, s': Sched, t: Tid)
    requires Inv(s) && Switches(s, s', t, TERMINATED, NoDetail) && t != Running(s)
    ensures var r := Running(s); r in s'.tcbs && s'.tcbs[r].state == TERMINATED && |s'.lists| == LIST_COUNT && r in s'.lists[TERMINATED]
    ensures forall u: Tid :: u in s.tcbs && s.tcbs[u].state == READY ==>
              u in s'.tcbs && u !in s'.lists[VANISH_WAIT] && (s'.tcbs[u].state == READY || s'.lists[RUNNING] == [u])
  {
    hide Complete, Rostered, SleepSorted, Grouped, NoDuplicates;
  }

  lemma SameRunner(s: Sched, s1: Sched, p: Pid)
    requires Inv(s) && Inv(s1) && WakesFirst(s, s1, p)
    ensures Running(s1) == Running(s) && |s1.lists| == LIST_COUNT
    ensures s1.lists[READY] != [] ==> s1.lists[READY][0] != Running(s1)
  {
    hide Complete, Rostered, SleepSorted, Grouped, NoDuplicates;
    if s1.lists[READY] != [] { assert s1.lists[READY][0] in s1.lists[READY]; }
  }

  lemma WokenReady(s: Sched, s1: Sched, p: Pid, w: Tid)
    requires Inv(s) && WakesFirst(s, s1, p) && IsFirstOf(s.lists[VANISH_WAIT], s.tcbs, p, w)
    ensures w in s1.tcbs && s1.tcbs[w].state == READY
  {
    hide Complete, Rostered, SleepSorted, Grouped, NoDuplicates;
    assert w in s.lists[VANISH_WAIT];
    FirstUnique(s.lists[VANISH_WAIT], s.tcbs, p);
  }

  lemma FirstUnique(l: seq<Tid>, tcbs: map<Tid, Tcb>, p: Pid)
    ensures forall t: Tid, u: Tid :: IsFirstOf(l, tcbs, p, t) && IsFirstOf(l, tcbs, p, u) ==> t == u
  {
  }

  /** If nobody was ready before the wake-up, the one who was woken is the only one. */
  lemma OnlyWaiter(s: Sched, s1: Sched, p: Pid)
    requires Inv(s) && Inv(s1) && WakesFirst(s, s1, p)
    ensures |s.lists| == LIST_COUNT && |s1.lists| == LIST_COUNT
    ensures s.lists[READY] == [] && s1.lists[READY] != [] ==> IsFirstOf(s.lists[VANISH_WAIT], s.tcbs, p, s1.lists[READY][0])
  {
    hide Rostered, SleepSorted, Grouped, NoDuplicates;
    if s1.lists[READY] != [] { assert s1.lists[READY][0] in s1.lists[READY]; }
  }

  // ----------------------------------------------------------------------- every event

  /** What each event leaves. */
  ghost predicate Effect(s: Sched, e: Event, s': Sched)
    requires Inv(s)
  {
    match e
    case Tick =>
      var s1 := s.(tick := s.tick + 1);
      Inv(s1)
      && if s.lists[SLEEP] != [] && s.lists[SLEEP][0] in s.tcbs && s.tcbs[s.lists[SLEEP][0]].detail.wakeup <= s.tick + 1
         then Switches(s1, s', s.lists[SLEEP][0], READY, NoDetail)
         else if s.lists[READY] == [] then s' == s1 else ToHead(s1, s', READY)
    case YieldAny => if s.lists[READY] == [] then s' == s else ToHead(s, s', READY)
    case YieldTo(t) => if t in s.lists[READY] then Switches(s, s', t, READY, NoDetail) else s' == s
    case Sleep(n) => ToNext(s, s', WAITING, Blocking(SLEEP, s.tick + n, false))
    case Deschedule => ToNext(s, s', WAITING, Blocking(DESCHEDULE, 0, false))
    case MakeRunnable(t) => if t in s.lists[DESCHEDULE] then Wakes(s, s', t) else s' == s
    case WaitBlock => ToNext(s, s', WAITING, Blocking(VANISH_WAIT, 0, false))
    case WakeWaiter(p) => WakesFirst(s, s', p)
    case ReadlineBlock(first) => ToNext(s, s', WAITING, Blocking(READLINE, 0, first))
    case ReadlineSwitch =>
      if s.lists[READLINE] == [] then s' == s else Switches(s, s', s.lists[READLINE][0], READY, NoDetail)
    case Vanish(parent) => Vanishes(s, s', parent)
    case ThreadFork(t) => Starts(s, s', t, s.tcbs[Running(s)].pcb)
    case Fork(t, p) => Starts(s, s', t, p)
    case Reap(p) =>
      && s'.tcbs == (map t | t in s.tcbs && s.tcbs[t].pcb != p :: s.tcbs[t])
      && s'.lists == s.lists[TERMINATED := []] && s'.threads == s.threads - {p} && s'.tick == s.tick
  }

  /** A new thread of process `p` is ready, behind those of the process that are. */
  ghost predicate Starts(s: Sched, s': Sched, t: Tid, p: Pid)
    requires Inv(s)
  {
    && s'.tcbs == s.tcbs[t := Tcb(p, READY, s.tcbs[Running(s)].detail)] && s'.tick == s.tick
    && s'.threads == s.threads[p := (if p in s.threads then s.threads[p] else []) + [t]]
    && exists a, b :: s.lists[READY] == a + b && s'.lists == s.lists[READY := a + [t] + b] && Between(s.tcbs, a, b, p, READY, NoDetail)
  }

  lemma SpawnMeans(s: Sched, t: Tid, p: Pid)
    requires Inv(s) && t !in s.tcbs
    ensures Starts(s, Spawn(s, t, p), t, p)
  {
    hide Complete, Rostered, SleepSorted, Grouped, NoDuplicates;
    var l := s.lists[READY];
    assert forall u :: u in l ==> u in s.tcbs;
    var k := GroupEnd(l, s.tcbs, p);
    var a, b := l[..k], l[k..];
    forall u | u in b
      ensures Owner(s.tcbs, u) != p
    {
      var j :| 0 <= j < |b| && b[j] == u;
      assert l[k + j] == u;
    }
    assert l == a + b && InsertAt(l, k, t) == a + [t] + b;
  }

  /** Every event has its effect, and the kernel halts for want of a ready thread only. */
  lemma StepMeans(s: Sched, e: Event)
    requires Inv(s) && Enabled(s, e)
    ensures match Step(s, e)
            case Some(s') => Effect(s, e, s')
            case None => s.lists[READY] == []
  {
    hide ListsInv, Switches, Wakes, WakesFirst, Vanishes, Starts, ToNext, ToHead, SwitchTo, SwitchNext, RoundRobin, Wake, WakeWaiterOf, VanishStep, Spawn;
    InvLists(s);
    match e
    case Tick => TickMeans(s);
    case YieldAny => RoundRobinMeans(s, READY);
    case YieldTo(t) => if t in s.lists[READY] { ListedWaits(s, READY, t); SwitchMeans(s, t, READY, NoDetail); }
    case Sleep(n) => SwitchNextMeans(s, WAITING, Blocking(SLEEP, s.tick + n, false));
    case Deschedule => SwitchNextMeans(s, WAITING, Blocking(DESCHEDULE, 0, false));
    case MakeRunnable(t) => if t in s.lists[DESCHEDULE] { WakeMeans(s, t); }
    case WaitBlock => SwitchNextMeans(s, WAITING, Blocking(VANISH_WAIT, 0, false));
    case WakeWaiter(p) => WakeWaiterMeans(s, p);
    case ReadlineBlock(first) => SwitchNextMeans(s, WAITING, Blocking(READLINE, 0, first));
    case ReadlineSwitch => if s.lists[READLINE] != [] { ListedWaits(s, READLINE, s.lists[READLINE][0]); SwitchMeans(s, s.lists[READLINE][0], READY, NoDetail); }
    case Vanish(parent) => VanishMeans(s, parent);
    case ThreadFork(t) => SpawnMeans(s, t, s.tcbs[Running(s)].pcb);
    case Fork(t, p) => SpawnMeans(s, t, p);
    case Reap(p) =>
  }

  lemma ListedWaits(s: Sched, i: int, t: Tid)
    requires Inv(s) && (i == READY || i == SLEEP || i == READLINE) && t in s.lists[i]
    ensures Waiting(s, t)
  {
  }

  lemma TickMeans(s: Sched)
    requires Inv(s)
    ensures Effect(s, Tick, TickStep(s))
  {
    hide Complete, Rostered, SleepSorted, Grouped, NoDuplicates, Switches, ToHead, SwitchTo, RoundRobin;
    var s1 := s.(tick := s.tick + 1);
    TickedInv(s);
    if SleeperDue(s1) {
      ListedWaits(s1, SLEEP, s.lists[SLEEP][0]);
      SwitchMeans(s1, s.lists[SLEEP][0], READY, NoDetail);
    } else {
      RoundRobinMeans(s1, READY);
    }
  }

  lemma TickedInv(s: Sched)
    requires Inv(s)
    ensures Inv(s.(tick := s.tick + 1))
  {
  }
}
