/** Bounded waiting: how long a ready thread can be passed over. */
module Fairness {
  import opened Basics
  import opened ThreadLists
  import opened Scheduler

  /** The threads ahead of `x` in a list. */
  ghost function Before(l: seq<Tid>, x: Tid): set<Tid>
    requires x in l
  {
    set i | 0 <= i < Index(l, x) :: l[i]
  }

  /** The threads of x's own process that are ahead of it in the ready list. */
  ghost function Mates(l: seq<Tid>, tcbs: map<Tid, Tcb>, x: Tid): set<Tid>
    requires x in l
  {
    set y | y in Before(l, x) && Owner(tcbs, y) == Owner(tcbs, x)
  }

  /** The other processes with a thread ahead of `x`. */
  ghost function Rivals(l: seq<Tid>, tcbs: map<Tid, Tcb>, x: Tid): set<Pid>
    requires x in l
  {
    set y | y in Before(l, x) && Owner(tcbs, y) != Owner(tcbs, x) :: Owner(tcbs, y)
  }

  /** The rank of `x` did not get worse. */
  ghost predicate NotWorse(l: seq<Tid>, tcbs: map<Tid, Tcb>, l': seq<Tid>, tcbs': map<Tid, Tcb>, x: Tid)
    requires x in l && x in l'
  {
    && Mates(l', tcbs', x) <= Mates(l, tcbs, x)
    && (Mates(l', tcbs', x) == Mates(l, tcbs, x) ==> Rivals(l', tcbs', x) <= Rivals(l, tcbs, x))
  }

  /** The rank of `x` got better. */
  ghost predicate Better(l: seq<Tid>, tcbs: map<Tid, Tcb>, l': seq<Tid>, tcbs': map<Tid, Tcb>, x: Tid)
    requires x in l && x in l'
  {
    && Mates(l', tcbs', x) <= Mates(l, tcbs, x)
    && (Mates(l', tcbs', x) == Mates(l, tcbs, x) ==> Rivals(l', tcbs', x) < Rivals(l, tcbs, x))
  }

  // --------------------------------------------------------- list operations

  lemma IndexUnique(l: seq<Tid>, x: Tid, i: nat)
    requires NoDuplicates(l) && i < |l| && l[i] == x
    ensures Index(l, x) == i
  {
  }

  /** A thread put at the end of its group goes ahead of nobody whose process was
      not already ahead. */
  lemma InsertNotWorse(l: seq<Tid>, tcbs: map<Tid, Tcb>, tcbs': map<Tid, Tcb>, t: Tid, x: Tid)
    requires NoDuplicates(l) && x in l && t !in l && forall u :: u in l ==> u in tcbs
    requires forall u :: u in l ==> Owner(tcbs', u) == Owner(tcbs, u)
    ensures x in InsertAt(l, GroupEnd(l, tcbs, Owner(tcbs', t)), t)
    ensures NotWorse(l, tcbs, InsertAt(l, GroupEnd(l, tcbs, Owner(tcbs', t)), t), tcbs', x)
    ensures Mates(InsertAt(l, GroupEnd(l, tcbs, Owner(tcbs', t)), t), tcbs', x) == Mates(l, tcbs, x)
  {
    var p := Owner(tcbs', t);
    var k, i := GroupEnd(l, tcbs, p), Index(l, x);
    var r := InsertAt(l, k, t);
    InsertedBefore(l, k, t, x);
    if k <= i {
      assert l[k - 1] in Before(l, x) && Owner(tcbs, l[k - 1]) == p && p != Owner(tcbs, x);
      BeforeInsertRivals(l, tcbs, r, tcbs', t, l[k - 1], x);
    } else {
      assert Before(r, x) == Before(l, x);
      SameBefore(l, tcbs, r, tcbs', x);
    }
  }

  lemma InsertedIndex(l: seq<Tid>, k: nat, t: Tid, x: Tid)
    requires NoDuplicates(l) && x in l && t !in l && k <= |l|
    ensures x in InsertAt(l, k, t)
    ensures Index(InsertAt(l, k, t), x) == if Index(l, x) < k then Index(l, x) else Index(l, x) + 1
  {
    var i, r := Index(l, x), InsertAt(l, k, t);
    InsertMembers(l, k, t);
    IndexUnique(r, x, if i < k then i else i + 1);
  }

  lemma InsertedBefore(l: seq<Tid>, k: nat, t: Tid, x: Tid)
    requires NoDuplicates(l) && x in l && t !in l && k <= |l|
    ensures x in InsertAt(l, k, t)
    ensures Before(InsertAt(l, k, t), x) == Before(l, x) + if k <= Index(l, x) then {t} else {}
  {
    InsertedIndex(l, k, t, x);
    forall y
      ensures y in Before(InsertAt(l, k, t), x) <==> y in Before(l, x) || (y == t && k <= Index(l, x))
    {
      InsertBefore(l, k, t, Index(l, x), y);
    }
  }

  lemma SameBefore(l: seq<Tid>, tcbs: map<Tid, Tcb>, r: seq<Tid>, tcbs': map<Tid, Tcb>, x: Tid)
    requires x in l && x in r && Before(r, x) == Before(l, x)
    requires forall u :: u in l ==> Owner(tcbs', u) == Owner(tcbs, u)
    ensures NotWorse(l, tcbs, r, tcbs', x) && Mates(r, tcbs', x) == Mates(l, tcbs, x)
  {
    forall q | q in Rivals(r, tcbs', x)
      ensures q in Rivals(l, tcbs, x)
    {
      var y :| y in Before(r, x) && Owner(tcbs', y) != Owner(tcbs', x) && q == Owner(tcbs', y);
      assert y in l && Owner(tcbs, y) == q;
    }
  }

  /** A newcomer `t` ahead of `x`, behind a thread `z` of its own process. */
  lemma BeforeInsertRivals(l: seq<Tid>, tcbs: map<Tid, Tcb>, r: seq<Tid>, tcbs': map<Tid, Tcb>, t: Tid, z: Tid, x: Tid)
    requires x in l && x in r && Before(r, x) == Before(l, x) + {t}
    requires forall u :: u in l ==> Owner(tcbs', u) == Owner(tcbs, u)
    requires z in Before(l, x) && Owner(tcbs, z) == Owner(tcbs', t) != Owner(tcbs, x)
    ensures NotWorse(l, tcbs, r, tcbs', x) && Mates(r, tcbs', x) == Mates(l, tcbs, x)
  {
    forall q | q in Rivals(r, tcbs', x)
      ensures q in Rivals(l, tcbs, x)
    {
      var y :| y in Before(r, x) && Owner(tcbs', y) != Owner(tcbs', x) && q == Owner(tcbs', y);
      var w := if y == t then z else y;
      assert w in Before(l, x) && w in l && Owner(tcbs, w) == q;
    }
  }

  lemma InsertBefore(l: seq<Tid>, k: nat, t: Tid, i: nat, y: Tid)
    requires k <= |l| && i < |l|
    ensures var r, i' := InsertAt(l, k, t), if i < k then i else i + 1;
            (exists j :: 0 <= j < i' && r[j] == y) <==> (exists j :: 0 <= j < i && l[j] == y) || (y == t && k <= i)
  {
    var r, i' := InsertAt(l, k, t), if i < k then i else i + 1;
    if j :| 0 <= j < i && l[j] == y {
      assert r[if j < k then j else j + 1] == y;
    }
    if j :| 0 <= j < i' && r[j] == y {
      assert j < k ==> l[j] == y;
      assert j > k ==> l[j - 1] == y;
    }
    assert r[k] == t;
  }

  lemma WithoutBefore(l: seq<Tid>, t: Tid, x: Tid)
    requires NoDuplicates(l) && x in l && t in l && x != t
    ensures x in Without(l, t)
    ensures Before(Without(l, t), x) == Before(l, x) - {t}
  {
    WithoutMembers(l, t);
    var k, i, r := Index(l, t), Index(l, x), Without(l, t);
    var i' := if i < k then i else i - 1;
    assert r[i'] == x;
    IndexUnique(r, x, i');
    forall y
      ensures y in Before(r, x) <==> y in Before(l, x) && y != t
    {
      if y in Before(r, x) {
        var j :| 0 <= j < i' && r[j] == y;
        assert l[if j < k then j else j + 1] == y;
      }
      if y in Before(l, x) && y != t {
        var j :| 0 <= j < i && l[j] == y;
        assert r[if j < k then j else j - 1] == y;
      }
    }
  }

  /** Taking another thread out of the list makes nobody's rank worse. */
  lemma WithoutNotWorse(l: seq<Tid>, tcbs: map<Tid, Tcb>, t: Tid, x: Tid)
    requires NoDuplicates(l) && x in l && t in l && x != t
    ensures x in Without(l, t)
    ensures NotWorse(l, tcbs, Without(l, t), tcbs, x)
    ensures Mates(Without(l, t), tcbs, x) == Mates(l, tcbs, x) - {t}
  {
    WithoutBefore(l, t, x);
  }

  /** Turning the list moves the leading process behind every other one. */
  lemma TurnRank(l: seq<Tid>, tcbs: map<Tid, Tcb>, x: Tid)
    requires NoDuplicates(l) && Grouped(l, tcbs) && x in l && x != l[0]
    ensures x in Turned(l, tcbs)
    ensures Mates(Turned(l, tcbs), tcbs, x) == Mates(l, tcbs, x)
    ensures Owner(tcbs, x) == Owner(tcbs, l[0]) ==> l[0] in Mates(l, tcbs, x)
    ensures Owner(tcbs, x) != Owner(tcbs, l[0]) ==>
              && Owner(tcbs, l[0]) in Rivals(l, tcbs, x)
              && Rivals(Turned(l, tcbs), tcbs, x) <= Rivals(l, tcbs, x) - {Owner(tcbs, l[0])}
  {
    TurnedMembers(l, tcbs);
    var k, i := TurnBy(l, tcbs, 1), Index(l, x);
    assert l[0] in Before(l, x);
    if k == 0 {
      assert Turned(l, tcbs) == l;
    } else {
      ApartAfterTurn(l, tcbs, k);
      TurnedIndex(l, tcbs, k, x);
      TurnMates(l, tcbs, k, x);
      if k <= i { TurnRivals(l, tcbs, k, x); }
    }
  }

  lemma TurnedIndex(l: seq<Tid>, tcbs: map<Tid, Tcb>, k: nat, x: Tid)
    requires NoDuplicates(l) && x in l && 0 < k == TurnBy(l, tcbs, 1) < |l|
    ensures x in Turned(l, tcbs)
    ensures Index(Turned(l, tcbs), x) == if k <= Index(l, x) then Index(l, x) - k else Index(l, x) + |l| - k
  {
    TurnedMembers(l, tcbs);
    var i := Index(l, x);
    var i' := if k <= i then i - k else i + |l| - k;
    assert Turned(l, tcbs)[i'] == x;
    IndexUnique(Turned(l, tcbs), x, i');
  }

  lemma TurnMates(l: seq<Tid>, tcbs: map<Tid, Tcb>, k: nat, x: Tid)
    requires NoDuplicates(l) && x in l && 0 < k == TurnBy(l, tcbs, 1) < |l|
    requires forall j :: 0 <= j < k ==> Owner(tcbs, l[j]) == Owner(tcbs, l[0])
    requires forall j :: k <= j < |l| ==> Owner(tcbs, l[j]) != Owner(tcbs, l[0])
    ensures x in Turned(l, tcbs)
    ensures Mates(Turned(l, tcbs), tcbs, x) == Mates(l, tcbs, x)
  {
    hide NoDuplicates, Index;
    TurnedIndex(l, tcbs, k, x);
    forall y
      ensures y in Mates(Turned(l, tcbs), tcbs, x) <==> y in Mates(l, tcbs, x)
    {
      TurnedBefore(l, k, Index(l, x), y);
    }
  }

  lemma TurnRivals(l: seq<Tid>, tcbs: map<Tid, Tcb>, k: nat, x: Tid)
    requires NoDuplicates(l) && x in l && 0 < k == TurnBy(l, tcbs, 1) < |l| && k <= Index(l, x)
    requires forall j :: k <= j < |l| ==> Owner(tcbs, l[j]) != Owner(tcbs, l[0])
    ensures x in Turned(l, tcbs)
    ensures Rivals(Turned(l, tcbs), tcbs, x) <= Rivals(l, tcbs, x) - {Owner(tcbs, l[0])}
  {
    TurnedIndex(l, tcbs, k, x);
    var m := Turned(l, tcbs);
    forall q | q in Rivals(m, tcbs, x)
      ensures q in Rivals(l, tcbs, x) && q != Owner(tcbs, l[0])
    {
      var y :| y in Before(m, x) && Owner(tcbs, y) != Owner(tcbs, x) && q == Owner(tcbs, y);
      TurnedBefore(l, k, Index(l, x), y);
    }
  }

  lemma ApartAfterTurn(l: seq<Tid>, tcbs: map<Tid, Tcb>, k: nat)
    requires Grouped(l, tcbs) && 0 < k < |l|
    requires Owner(tcbs, l[k]) != Owner(tcbs, l[0])
    requires forall j :: 1 <= j < k ==> Owner(tcbs, l[j]) == Owner(tcbs, l[0])
    ensures forall j :: 0 <= j < k ==> Owner(tcbs, l[j]) == Owner(tcbs, l[0])
    ensures forall j :: k <= j < |l| ==> Owner(tcbs, l[j]) != Owner(tcbs, l[0])
  {
    var ps := Owners(l, tcbs);
    assert forall j :: 0 <= j < |l| ==> ps[j] == Owner(tcbs, l[j]);
    RotateContiguous(ps, k);
  }

  lemma TurnedBefore(l: seq<Tid>, k: nat, i: nat, y: Tid)
    requires 0 < k < |l| && i < |l|
    ensures var m, i' := l[k..] + l[..k], if k <= i then i - k else i + |l| - k;
            (exists j :: 0 <= j < i' && m[j] == y) <==>
            (exists j :: k <= j < (if k <= i then i else |l|) && l[j] == y) || (i < k && exists j :: 0 <= j < i && l[j] == y)
  {
    var m, i' := l[k..] + l[..k], if k <= i then i - k else i + |l| - k;
    if j :| k <= j < (if k <= i then i else |l|) && l[j] == y {
      assert m[j - k] == y;
    }
    if i < k {
      if j :| 0 <= j < i && l[j] == y {
        assert m[j + |l| - k] == y;
      }
    }
    if j :| 0 <= j < i' && m[j] == y {
      assert l[if j < |l| - k then j + k else j - (|l| - k)] == y;
    }
  }

  // --------------------------------------------------------------- switching

  lemma SameOwnersNotWorse(l: seq<Tid>, tcbs: map<Tid, Tcb>, tcbs': map<Tid, Tcb>, x: Tid)
    requires x in l && forall u :: u in l ==> Owner(tcbs', u) == Owner(tcbs, u)
    ensures Mates(l, tcbs', x) == Mates(l, tcbs, x) && Rivals(l, tcbs', x) == Rivals(l, tcbs, x)
  {
    forall q
      ensures q in Rivals(l, tcbs', x) <==> q in Rivals(l, tcbs, x)
    {
    }
  }

  /** Moving another thread anywhere makes nobody's rank worse. */
  lemma AlterNotWorse(s: Sched, t: Tid, state: int, d: Blocking, x: Tid)
    requires ListsInv(s) && Alterable(s, t, state, d) && ListOf(s.tcbs[t]) != Target(state, d)
    requires x in s.lists[READY] && x != t
    ensures var s' := Alter(s, t, state, d);
            && x in s'.lists[READY]
            && NotWorse(s.lists[READY], s.tcbs, s'.lists[READY], s'.tcbs, x)
            && Mates(s'.lists[READY], s'.tcbs, x) == Mates(s.lists[READY], s.tcbs, x) - (if ListOf(s.tcbs[t]) == READY then {t} else {})
  {
    var s', l := Alter(s, t, state, d), s.lists[READY];
    AlterKeepsLists(s, t, state, d);
    if ListOf(s.tcbs[t]) == READY {
      WithoutNotWorse(l, s.tcbs, t, x);
      SameOwnersNotWorse(s'.lists[READY], s.tcbs, s'.tcbs, x);
    } else if Target(state, d) == READY {
      assert t !in l;
      InsertNotWorse(l, s.tcbs, s'.tcbs, t, x);
    } else {
      SameOwnersNotWorse(l, s.tcbs, s'.tcbs, x);
    }
  }

  lemma SwitchNotWorse(s: Sched, t: Tid, state: int, d: Blocking, x: Tid)
    requires Inv(s) && Waiting(s, t) && Leaving(state, d)
    requires x in s.lists[READY] && x != t
    ensures var s' := SwitchTo(s, t, state, d);
            && x in s'.lists[READY]
            && NotWorse(s.lists[READY], s.tcbs, s'.lists[READY], s'.tcbs, x)
            && Mates(s'.lists[READY], s'.tcbs, x) == Mates(s.lists[READY], s.tcbs, x) - (if ListOf(s.tcbs[t]) == READY then {t} else {})
  {
    SwitchSteps(s, t, state, d);
    var r := s.lists[RUNNING][0];
    var s1 := Alter(s, r, state, d);
    AlterNotWorse(s, r, state, d, x);
    hide Alter, ListsInv, SwitchTo;
    AlterNotWorse(s1, t, RUNNING, NoDetail, x);
    NotWorseTrans(s, s1, SwitchTo(s, t, state, d), x);
  }

  lemma NotWorseTrans(s: Sched, s1: Sched, s2: Sched, x: Tid)
    requires |s.lists| == |s1.lists| == |s2.lists| == LIST_COUNT
    requires x in s.lists[READY] && x in s1.lists[READY] && x in s2.lists[READY]
    requires NotWorse(s.lists[READY], s.tcbs, s1.lists[READY], s1.tcbs, x)
    requires NotWorse(s1.lists[READY], s1.tcbs, s2.lists[READY], s2.tcbs, x)
    ensures NotWorse(s.lists[READY], s.tcbs, s2.lists[READY], s2.tcbs, x)
  {
  }

  /** round_robin followed by the switch: everyone still ready moves up. */
  lemma RoundRobinBetter(s: Sched, state: int, d: Blocking, x: Tid)
    requires Inv(s) && Leaving(state, d) && x in s.lists[READY]
    ensures var s' := RoundRobin(s, state, d).value;
            && (x == s.lists[READY][0] ==> s'.lists[RUNNING] == [x] && x !in s'.lists[READY])
            && (x != s.lists[READY][0] ==> x in s'.lists[READY] && Better(s.lists[READY], s.tcbs, s'.lists[READY], s'.tcbs, x))
  {
    var l := s.lists[READY];
    var h := l[0];
    assert h in l;
    RotateKeeps(s);
    var s' := SwitchTo(Rotate(s), h, state, d);
    if x == h {
      assert x in s'.lists[RUNNING];
    } else {
      TurnRank(l, s.tcbs, x);
      SwitchNotWorse(Rotate(s), h, state, d, x);
    }
  }

  // ------------------------------------------------------------------- events

  /** After the event, `x` either keeps its place or a better one, or is running. */
  ghost predicate Progress(s: Sched, s': Sched, x: Tid)
    requires |s.lists| == |s'.lists| == LIST_COUNT && x in s.lists[READY]
  {
    || s'.lists[RUNNING] == [x]
    || (x in s'.lists[READY] && NotWorse(s.lists[READY], s.tcbs, s'.lists[READY], s'.tcbs, x))
  }

  lemma SwitchProgress(s: Sched, t: Tid, state: int, d: Blocking, x: Tid)
    requires Inv(s) && Waiting(s, t) && Leaving(state, d) && x in s.lists[READY]
    ensures Progress(s, SwitchTo(s, t, state, d), x)
  {
    if x != t { SwitchNotWorse(s, t, state, d, x); }
  }

  lemma RoundRobinProgress(s: Sched, state: int, d: Blocking, x: Tid)
    requires Inv(s) && Leaving(state, d) && x in s.lists[READY]
    ensures RoundRobin(s, state, d).Some? && Progress(s, RoundRobin(s, state, d).value, x)
  {
    RoundRobinBetter(s, state, d, x);
  }

  lemma IdleProgress(s: Sched, x: Tid)
    requires Inv(s) && x in s.lists[READY]
    ensures Progress(s, s, x)
  {
  }

  lemma WakeProgress(s: Sched, t: Tid, x: Tid)
    requires Inv(s) && x in s.lists[READY] && t in s.lists[DESCHEDULE] + s.lists[VANISH_WAIT]
    ensures Progress(s, Wake(s, t), x)
  {
    AlterNotWorse(s, t, READY, NoDetail, x);
  }

  lemma NextProgress(s: Sched, state: int, d: Blocking, x: Tid)
    requires Inv(s) && Leaving(state, d) && x in s.lists[READY]
    ensures SwitchNext(s, state, d).Some? && Progress(s, SwitchNext(s, state, d).value, x)
  {
    match FirstReady(s.threads[s.tcbs[Running(s)].pcb], s.tcbs)
    case Some(t) => SwitchProgress(s, t, state, d, x);
    case None => RoundRobinBetter(s, state, d, x);
  }

  lemma WakeWaiterProgress(s: Sched, p: Pid, x: Tid)
    requires Inv(s) && x in s.lists[READY]
    ensures var s' := WakeWaiterOf(s, p);
            x in s'.lists[READY] && NotWorse(s.lists[READY], s.tcbs, s'.lists[READY], s'.tcbs, x) && Progress(s, s', x)
  {
    match FirstOf(s.lists[VANISH_WAIT], s.tcbs, p)
    case Some(t) => AlterNotWorse(s, t, READY, NoDetail, x);
    case None =>
  }

  lemma SpawnProgress(s: Sched, t: Tid, p: Pid, x: Tid)
    requires Inv(s) && t !in s.tcbs && x in s.lists[READY]
    ensures Progress(s, Spawn(s, t, p), x)
  {
    InsertNotWorse(s.lists[READY], s.tcbs, Spawn(s, t, p).tcbs, t, x);
  }

  /** No event makes a ready thread wait behind more than before. */
  lemma StepProgress(s: Sched, e: Event, x: Tid)
    requires Inv(s) && Enabled(s, e) && Step(s, e).Some? && x in s.lists[READY]
    ensures Progress(s, Step(s, e).value, x)
  {
    hide RoundRobin, SwitchNext, SwitchTo, Progress, WakeWaiterOf, Wake, Spawn, Bury;
    match e
    case Tick => TickProgress(s, x);
    case YieldAny => RoundRobinProgress(s, READY, NoDetail, x);
    case YieldTo(t) =>
      IdleProgress(s, x);
      if t in s.lists[READY] { SwitchProgress(s, t, READY, NoDetail, x); }
    case Sleep(n) => NextProgress(s, WAITING, Blocking(SLEEP, s.tick + n, false), x);
    case Deschedule => NextProgress(s, WAITING, Blocking(DESCHEDULE, 0, false), x);
    case MakeRunnable(t) =>
      IdleProgress(s, x);
      if t in s.lists[DESCHEDULE] { WakeProgress(s, t, x); }
    case WaitBlock => NextProgress(s, WAITING, Blocking(VANISH_WAIT, 0, false), x);
    case WakeWaiter(p) => WakeWaiterProgress(s, p, x);
    case ReadlineBlock(first) => NextProgress(s, WAITING, Blocking(READLINE, 0, first), x);
    case ReadlineSwitch => ReadlineProgress(s, x);
    case Vanish(parent) => VanishProgress(s, parent, x);
    case ThreadFork(t) => SpawnProgress(s, t, s.tcbs[Running(s)].pcb, x);
    case Fork(t, p) => SpawnProgress(s, t, p, x);
    case Reap(p) => BuryProgress(s, p, x);
  }

  lemma TickProgress(s: Sched, x: Tid)
    requires Inv(s) && x in s.lists[READY]
    ensures Step(s, Tick).Some? && Progress(s, Step(s, Tick).value, x)
  {
    var s1 := s.(tick := s.tick + 1);
    if SleeperDue(s1) {
      assert s.lists[SLEEP][0] in s.lists[SLEEP];
      SwitchProgress(s1, s.lists[SLEEP][0], READY, NoDetail, x);
    } else {
      RoundRobinBetter(s1, READY, NoDetail, x);
    }
  }

  lemma ReadlineProgress(s: Sched, x: Tid)
    requires Inv(s) && x in s.lists[READY]
    ensures Step(s, ReadlineSwitch).Some? && Progress(s, Step(s, ReadlineSwitch).value, x)
  {
    if s.lists[READLINE] != [] {
      assert s.lists[READLINE][0] in s.lists[READLINE];
      SwitchProgress(s, s.lists[READLINE][0], READY, NoDetail, x);
    }
  }

  lemma BuryProgress(s: Sched, p: Pid, x: Tid)
    requires Inv(s) && x in s.lists[READY]
    requires forall t :: t in s.tcbs && s.tcbs[t].pcb == p ==> s.tcbs[t].state == TERMINATED
    ensures Progress(s, Bury(s, p), x)
  {
    assert forall u :: u in s.lists[READY] ==> Owner(Bury(s, p).tcbs, u) == Owner(s.tcbs, u);
    SameOwnersNotWorse(s.lists[READY], s.tcbs, Bury(s, p).tcbs, x);
  }

  lemma LastVanishProgress(s: Sched, parent: Pid, x: Tid)
    requires Inv(s) && x in s.lists[READY]
    ensures var r := RoundRobin(WakeWaiterOf(s, parent), TERMINATED, NoDetail);
            r.Some? && Progress(s, r.value, x)
  {
    var s1 := WakeWaiterOf(s, parent);
    WakeWaiterProgress(s, parent, x);
    RoundRobinBetter(s1, TERMINATED, NoDetail, x);
  }

  lemma VanishProgress(s: Sched, parent: Pid, x: Tid)
    requires Inv(s) && x in s.lists[READY]
    ensures Step(s, Vanish(parent)).Some? && Progress(s, Step(s, Vanish(parent)).value, x)
  {
    hide RoundRobin, SwitchNext, Progress, WakeWaiterOf;
    if LastAlive(s) {
      LastVanishProgress(s, parent, x);
    } else {
      NextProgress(s, TERMINATED, NoDetail, x);
    }
  }

  /** A tick that schedules instead of waking a sleeper. */
  ghost predicate RoundRobinTick(s: Sched, e: Event)
    requires Inv(s)
  {
    e == Tick && !SleeperDue(s.(tick := s.tick + 1))
  }

  lemma TickBetter(s: Sched, e: Event, x: Tid)
    requires Inv(s) && RoundRobinTick(s, e) && x in s.lists[READY]
    ensures Step(s, e).Some?
    ensures var s' := Step(s, e).value;
            s'.lists[RUNNING] == [x] || (x in s'.lists[READY] && Better(s.lists[READY], s.tcbs, s'.lists[READY], s'.tcbs, x))
  {
    RoundRobinBetter(s.(tick := s.tick + 1), READY, NoDetail, x);
  }

  // --------------------------------------------------------------------- rank

  ghost predicate Ready(s: Sched, x: Tid) {
    Inv(s) && x in s.lists[READY]
  }

  /** An upper bound on the round-robin ticks before `x` runs, when there are never
      more than `procs` processes. */
  ghost function Rank(s: Sched, x: Tid, procs: nat): nat
    requires Ready(s, x)
  {
    |Mates(s.lists[READY], s.tcbs, x)| * procs + |Rivals(s.lists[READY], s.tcbs, x)|
  }

  lemma SubsetSize<T>(a: set<T>, b: set<T>)
    requires a <= b
    ensures |a| <= |b| && (a != b ==> |a| < |b|)
  {
    assert b == a + (b - a);
    if a != b { assert b - a != {}; }
  }

  lemma RivalsFewer(s: Sched, x: Tid)
    requires Inv(s) && x in s.lists[READY]
    ensures |Rivals(s.lists[READY], s.tcbs, x)| < |s.threads|
  {
    var r := Rivals(s.lists[READY], s.tcbs, x);
    assert r <= s.threads.Keys - {Owner(s.tcbs, x)} by {
      forall q | q in r
        ensures q in s.threads && q != Owner(s.tcbs, x)
      {
        var y :| y in Before(s.lists[READY], x) && Owner(s.tcbs, y) != Owner(s.tcbs, x) && q == Owner(s.tcbs, y);
        assert y in s.lists[READY];
      }
    }
    SubsetSize(r, s.threads.Keys - {Owner(s.tcbs, x)});
    assert |s.threads.Keys - {Owner(s.tcbs, x)}| == |s.threads| - 1;
  }

  lemma Times(a: nat, b: nat, c: nat)
    requires a <= b
    ensures a * c <= b * c
  {
  }

  lemma RankOrder(m: nat, r: nat, m': nat, r': nat, procs: nat)
    requires r < procs && r' < procs && m' <= m
    ensures m' < m ==> m' * procs + r' < m * procs + r
    ensures m' == m && r' <= r ==> m' * procs + r' <= m * procs + r
    ensures m' == m && r' < r ==> m' * procs + r' < m * procs + r
  {
    if m' < m { Times(m' + 1, m, procs); }
  }

  lemma RankNotWorse(s: Sched, s': Sched, x: Tid, procs: nat)
    requires Inv(s) && Inv(s') && x in s.lists[READY] && x in s'.lists[READY]
    requires |s.threads| <= procs && |s'.threads| <= procs
    requires NotWorse(s.lists[READY], s.tcbs, s'.lists[READY], s'.tcbs, x)
    ensures Rank(s', x, procs) <= Rank(s, x, procs)
    ensures Better(s.lists[READY], s.tcbs, s'.lists[READY], s'.tcbs, x) ==> Rank(s', x, procs) < Rank(s, x, procs)
  {
    var m, m' := Mates(s.lists[READY], s.tcbs, x), Mates(s'.lists[READY], s'.tcbs, x);
    var r, r' := Rivals(s.lists[READY], s.tcbs, x), Rivals(s'.lists[READY], s'.tcbs, x);
    RivalsFewer(s, x);
    RivalsFewer(s', x);
    SubsetSize(m', m);
    if m' == m { SubsetSize(r', r); }
    RankOrder(|m|, |r|, |m'|, |r'|, procs);
  }

  /** Round-robin ticks among the first `n` events of a run. */
  ghost function Ticks(states: seq<Sched>, events: seq<Event>, n: nat): nat
    requires n <= |events| < |states|
  {
    if n == 0 then 0
    else Ticks(states, events, n - 1) + if Inv(states[n - 1]) && RoundRobinTick(states[n - 1], events[n - 1]) then 1 else 0
  }

  /** Bounded waiting, for every run under every mix of system calls and ticks: while
      a thread stays ready, the round-robin ticks that pass it over are no more than
      its rank at the start. */
  lemma {:induction false} BoundedWaiting(states: seq<Sched>, events: seq<Event>, n: nat, x: Tid, procs: nat)
    requires Run(states, events) && n <= |events|
    requires forall i :: 0 <= i <= n ==> Ready(states[i], x) && |states[i].threads| <= procs
    ensures Ticks(states, events, n) + Rank(states[n], x, procs) <= Rank(states[0], x, procs)
  {
    if n > 0 {
      BoundedWaiting(states, events, n - 1, x, procs);
      var e := events[n - 1];
      assert Step(states[n - 1], e) == Some(states[n - 1 + 1]);
      StepRank(states[n - 1], e, states[n], x, procs);
    }
  }

  lemma StepRank(s: Sched, e: Event, s': Sched, x: Tid, procs: nat)
    requires Ready(s, x) && Ready(s', x) && |s.threads| <= procs && |s'.threads| <= procs
    requires Enabled(s, e) && Step(s, e) == Some(s')
    ensures Rank(s', x, procs) + (if RoundRobinTick(s, e) then 1 else 0) <= Rank(s, x, procs)
  {
    assert x !in s'.lists[RUNNING];
    StepProgress(s, e, x);
    if RoundRobinTick(s, e) { TickBetter(s, e, x); }
    hide Step;
    RankNotWorse(s, s', x, procs);
  }

  /** A thread that leaves the ready list does so by running. */
  lemma LeavesByRunning(s: Sched, e: Event, x: Tid)
    requires Inv(s) && Enabled(s, e) && Step(s, e).Some? && x in s.lists[READY]
    requires x !in Step(s, e).value.lists[READY]
    ensures Step(s, e).value.lists[RUNNING] == [x]
  {
    StepProgress(s, e, x);
  }

  /** A thread that is ready at the start runs: in every run with more round-robin ticks
      than its rank there is a state in which it is the running thread. */
  lemma RunsWithinRank(states: seq<Sched>, events: seq<Event>, n: nat, x: Tid, procs: nat) returns (i: nat)
    requires Run(states, events) && n <= |events| && Ready(states[0], x)
    requires forall j :: 0 <= j <= n ==> |states[j].threads| <= procs
    requires Ticks(states, events, n) > Rank(states[0], x, procs)
    ensures i <= n && Inv(states[i]) && states[i].lists[RUNNING] == [x]
  {
    hide Step, Rank, Ready;
    var ready := true;
    i := 0;
    while ready && i < n
      invariant i <= n && if ready then forall j :: 0 <= j <= i ==> Ready(states[j], x) else Inv(states[i]) && states[i].lists[RUNNING] == [x]
    {
      NextReadyOrRunning(states, events, i, x);
      ready := Ready(states[i + 1], x);
      i := i + 1;
    }
    if ready { BoundedWaiting(states, events, n, x, procs); }
  }

  lemma NextReadyOrRunning(states: seq<Sched>, events: seq<Event>, i: nat, x: Tid)
    requires Run(states, events) && i < |events| && Ready(states[i], x)
    ensures Inv(states[i + 1]) && (Ready(states[i + 1], x) || states[i + 1].lists[RUNNING] == [x])
  {
    var e := events[i];
    assert Step(states[i], e) == Some(states[i + 1]);
    if x !in states[i + 1].lists[READY] { LeavesByRunning(states[i], e, x); }
  }

  /** The ticks that count: those at which no sleeper is due. */
  lemma RoundRobinTicks(s: Sched, e: Event)
    requires Inv(s)
    ensures |s.lists| == LIST_COUNT
    ensures RoundRobinTick(s, e) <==>
              e == Tick && forall t :: t in s.lists[SLEEP] ==> t in s.tcbs && s.tcbs[t].detail.wakeup > s.tick + 1
  {
    var s1 := s.(tick := s.tick + 1);
    assert ListsInv(s1);
    if s.lists[SLEEP] != [] { assert s.lists[SLEEP][0] in s.lists[SLEEP]; }
    forall t | t in s.lists[SLEEP] && !SleeperDue(s1)
      ensures t in s.tcbs && s.tcbs[t].detail.wakeup > s.tick + 1
    {
      HeadNotDue(s1, t);
    }
  }

  lemma {:induction false} FirstFew(l: seq<Tid>, n: nat)
    requires n <= |l|
    ensures |set i | 0 <= i < n :: l[i]| <= n
  {
    if n > 0 {
      FirstFew(l, n - 1);
      assert (set i | 0 <= i < n :: l[i]) == (set i | 0 <= i < n - 1 :: l[i]) + {l[n - 1]};
    }
  }

  /** The rank is less than the ready threads times the processes. */
  lemma RankBound(s: Sched, x: Tid, procs: nat)
    requires Ready(s, x) && |s.threads| <= procs
    ensures |s.lists| == LIST_COUNT && Rank(s, x, procs) < |s.lists[READY]| * procs
  {
    var l := s.lists[READY];
    var mates, rivals := Mates(l, s.tcbs, x), Rivals(l, s.tcbs, x);
    FirstFew(l, Index(l, x));
    SubsetSize(mates, Before(l, x));
    RivalsFewer(s, x);
    Times(|mates| + 1, |l|, procs);
  }

  /** So a ready thread has run once there have been that many such ticks. */
  lemma RunsSoon(states: seq<Sched>, events: seq<Event>, n: nat, x: Tid, procs: nat) returns (i: nat)
    requires Run(states, events) && n <= |events| && Ready(states[0], x)
    requires forall j :: 0 <= j <= n ==> |states[j].threads| <= procs
    requires |states[0].lists| == LIST_COUNT && Ticks(states, events, n) >= |states[0].lists[READY]| * procs
    ensures i <= n && Inv(states[i]) && states[i].lists[RUNNING] == [x]
  {
    hide Rank, Ready, Ticks;
    RankBound(states[0], x, procs);
    i := RunsWithinRank(states, events, n, x, procs);
  }

  /** Ticks is their number. */
  lemma {:induction false} TicksCount(states: seq<Sched>, events: seq<Event>, n: nat)
    requires n <= |events| < |states|
    ensures Ticks(states, events, n) == |set i | 0 <= i < n && TickAt(states, events, i)|
  {
    hide Inv, RoundRobinTick;
    if n > 0 {
      TicksCount(states, events, n - 1);
      TicksNext(states, events, n - 1);
    }
  }

  lemma TicksNext(states: seq<Sched>, events: seq<Event>, n: nat)
    ensures |set i | 0 <= i < n + 1 && TickAt(states, events, i)|
         == |set i | 0 <= i < n && TickAt(states, events, i)| + if TickAt(states, events, n) then 1 else 0
  {
    hide TickAt;
    var before := set i | 0 <= i < n && TickAt(states, events, i);
    var now := set i | 0 <= i < n + 1 && TickAt(states, events, i);
    assert now == if TickAt(states, events, n) then before + {n} else before;
  }

  ghost predicate TickAt(states: seq<Sched>, events: seq<Event>, i: nat) {
    i < |events| < |states| && Inv(states[i]) && RoundRobinTick(states[i], events[i])
  }
}
