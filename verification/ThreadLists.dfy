/** The kernel's thread lists as values: one list for each state or blocking reason,
    and alter_state, the only function that moves a thread between them. */
module ThreadLists {
  import opened Basics

  type Tid = nat
  type Pid = nat

  // thread states
  const NEW_STATE := 0
  const READY := 1
  const RUNNING := 2
  const WAITING := 3
  const TERMINATED := 4
  // blocking reasons, sharing the index space of the lists
  const SLEEP := 5
  const READLINE := 6
  const DESCHEDULE := 7
  const VANISH_WAIT := 8
  const LIST_COUNT := 9

  /** blocking_detail_t; the C union holds whichever member the reason uses. */
  datatype Blocking = Blocking(reason: int, wakeup: nat, firstReader: bool)

  datatype Tcb = Tcb(pcb: Pid, state: int, detail: Blocking)

  /** thread_lists, the TCBs, each process's tcb_list, and tick_count. */
  datatype Sched = Sched(lists: seq<seq<Tid>>, tcbs: map<Tid, Tcb>, threads: map<Pid, seq<Tid>>, tick: nat)

  // ------------------------------------------------------------- alter_state

  /** The list a thread in this state lives in. */
  function ListOf(c: Tcb): int
  {
    if c.state == WAITING then c.detail.reason else c.state
  }

  predicate HasList(c: Tcb) {
    && READY <= c.state <= TERMINATED
    && (c.state == WAITING ==> TERMINATED < c.detail.reason < LIST_COUNT)
  }

  /** First position whose thread wakes no earlier than `w`. */
  function SleepPosition(l: seq<Tid>, tcbs: map<Tid, Tcb>, w: nat): (k: nat)
    requires forall t :: t in l ==> t in tcbs
    ensures k <= |l|
    ensures forall i :: 0 <= i < k ==> tcbs[l[i]].detail.wakeup < w
    ensures k < |l| ==> tcbs[l[k]].detail.wakeup >= w
  {
    if l == [] || tcbs[l[0]].detail.wakeup >= w then 0 else 1 + SleepPosition(l[1..], tcbs, w)
  }

  /** One past the last thread of process `p`, or the end. */
  function GroupEnd(l: seq<Tid>, tcbs: map<Tid, Tcb>, p: Pid): (k: nat)
    requires forall t :: t in l ==> t in tcbs
    ensures k <= |l|
    ensures forall i :: k <= i < |l| ==> tcbs[l[i]].pcb != p
    ensures k < |l| ==> 0 < k && tcbs[l[k - 1]].pcb == p
    ensures k == |l| ==> (l != [] && tcbs[l[k - 1]].pcb == p) || forall i :: 0 <= i < |l| ==> tcbs[l[i]].pcb != p
  {
    if l == [] then 0
    else if tcbs[l[|l| - 1]].pcb == p then |l|
    else
      var k := GroupEnd(l[..|l| - 1], tcbs, p);
      if k == |l| - 1 && (k == 0 || tcbs[l[k - 1]].pcb != p) then |l| else k
  }

  /** The list and position alter_state gives a thread of process `p`. */
  function Target(state: int, d: Blocking): int
  {
    if state == WAITING then d.reason else state
  }

  function Position(s: Sched, p: Pid, state: int, d: Blocking): (k: nat)
    requires |s.lists| == LIST_COUNT && 0 <= Target(state, d) < LIST_COUNT
    requires forall t :: t in s.lists[Target(state, d)] ==> t in s.tcbs
    ensures k <= |s.lists[Target(state, d)]|
  {
    var l := s.lists[Target(state, d)];
    if state == READY then GroupEnd(l, s.tcbs, p)
    else if state == RUNNING then 0
    else if state == WAITING && d.reason == SLEEP then SleepPosition(l, s.tcbs, d.wakeup)
    else if state == WAITING && d.reason == READLINE && d.firstReader then 0
    else |l|
  }

  function Index(l: seq<Tid>, t: Tid): (i: nat)
    requires t in l
    ensures i < |l| && l[i] == t
    ensures forall j :: 0 <= j < i ==> l[j] != t
  {
    if l[0] == t then 0 else 1 + Index(l[1..], t)
  }

  function Without(l: seq<Tid>, t: Tid): seq<Tid>
    requires t in l
  {
    l[..Index(l, t)] + l[Index(l, t) + 1..]
  }

  function InsertAt(l: seq<Tid>, k: nat, t: Tid): seq<Tid>
    requires k <= |l|
  {
    l[..k] + [t] + l[k..]
  }

  /** alter_state succeeds: the arguments are sensible and the thread is where its
      state says it is. */
  predicate Alterable(s: Sched, t: Tid, state: int, d: Blocking) {
    && |s.lists| == LIST_COUNT
    && t in s.tcbs && HasList(s.tcbs[t])
    && t in s.lists[ListOf(s.tcbs[t])]
    && READY <= state <= TERMINATED
    && (state == WAITING ==> TERMINATED < d.reason < LIST_COUNT)
  }

  function Alter(s: Sched, t: Tid, state: int, d: Blocking): Sched
    requires Alterable(s, t, state, d)
    requires forall u :: u in s.lists[Target(state, d)] ==> u in s.tcbs
    requires ListOf(s.tcbs[t]) != Target(state, d)
  {
    var src, dst := ListOf(s.tcbs[t]), Target(state, d);
    var k := Position(s, s.tcbs[t].pcb, state, d);
    s.(lists := s.lists[src := Without(s.lists[src], t)][dst := InsertAt(s.lists[dst], k, t)],
       tcbs := s.tcbs[t := Tcb(s.tcbs[t].pcb, state, if state == WAITING then d else s.tcbs[t].detail)])
  }

  // -------------------------------------------------------------- invariant

  ghost predicate SleepSorted(l: seq<Tid>, tcbs: map<Tid, Tcb>) {
    forall i, j :: 0 <= i < j < |l| && l[i] in tcbs && l[j] in tcbs ==>
      tcbs[l[i]].detail.wakeup <= tcbs[l[j]].detail.wakeup
  }

  function Owner(tcbs: map<Tid, Tcb>, t: Tid): Pid { if t in tcbs then tcbs[t].pcb else 0 }

  function Owners(l: seq<Tid>, tcbs: map<Tid, Tcb>): seq<Pid> { seq(|l|, i requires 0 <= i < |l| => Owner(tcbs, l[i])) }

  /** Equal entries are next to each other. */
  ghost predicate Contiguous(ps: seq<Pid>) {
    forall i, j, k :: 0 <= i < j < k < |ps| && ps[i] == ps[k] ==> ps[j] == ps[i]
  }

  /** Threads of one process are next to each other. */
  ghost predicate Grouped(l: seq<Tid>, tcbs: map<Tid, Tcb>) {
    Contiguous(Owners(l, tcbs))
  }

  /** Every list holds, once each, threads whose state names that list. */
  ghost predicate Sound(s: Sched) {
    && |s.lists| == LIST_COUNT
    && (forall i, t {:trigger t in s.lists[i]} :: 0 <= i < LIST_COUNT && t in s.lists[i] ==>
          t in s.tcbs && HasList(s.tcbs[t]) && ListOf(s.tcbs[t]) == i)
    && (forall i :: 0 <= i < LIST_COUNT ==> NoDuplicates(s.lists[i]))
  }

  /** Every thread that has not terminated is in the list its state names. */
  ghost predicate Complete(s: Sched) {
    && |s.lists| == LIST_COUNT
    && (forall t :: t in s.tcbs ==> HasList(s.tcbs[t]))
    && (forall t :: t in s.tcbs && s.tcbs[t].state != TERMINATED ==> t in s.lists[ListOf(s.tcbs[t])])
  }

  /** Each tcb_list holds exactly the threads of its process, once each. */
  ghost predicate Rostered(s: Sched) {
    && (forall p, t {:trigger t in s.threads[p]} :: p in s.threads && t in s.threads[p] ==> t in s.tcbs && s.tcbs[t].pcb == p)
    && (forall t :: t in s.tcbs ==> s.tcbs[t].pcb in s.threads && t in s.threads[s.tcbs[t].pcb])
    && (forall p :: p in s.threads ==> NoDuplicates(s.threads[p]))
  }

  ghost predicate ListsInv(s: Sched) {
    && Sound(s)
    && Complete(s)
    && Rostered(s)
    && SleepSorted(s.lists[SLEEP], s.tcbs)
    && Grouped(s.lists[READY], s.tcbs)
  }

  ghost predicate Inv(s: Sched) {
    ListsInv(s) && |s.lists[RUNNING]| == 1
  }

  /** A thread that has not terminated is in exactly one list. */
  lemma ExactlyOneList(s: Sched, t: Tid, i: int)
    requires ListsInv(s) && t in s.tcbs && s.tcbs[t].state != TERMINATED && 0 <= i < LIST_COUNT
    ensures t in s.lists[i] <==> i == ListOf(s.tcbs[t])
  {
  }

  /** If the first sleeper is not due, no sleeper is. */
  lemma HeadNotDue(s: Sched, t: Tid)
    requires ListsInv(s) && t in s.lists[SLEEP]
    requires s.lists[SLEEP][0] in s.tcbs && s.tcbs[s.lists[SLEEP][0]].detail.wakeup > s.tick
    ensures s.tcbs[t].detail.wakeup > s.tick
  {
    assert s.lists[SLEEP][0] in s.lists[SLEEP];
    var i := Index(s.lists[SLEEP], t);
  }

  // ------------------------------------------------- list surgery, one at a time

  lemma WithoutMembers(l: seq<Tid>, t: Tid)
    requires t in l && NoDuplicates(l)
    ensures NoDuplicates(Without(l, t))
    ensures forall u :: u in Without(l, t) <==> u in l && u != t
  {
    var i, w := Index(l, t), Without(l, t);
    forall u
      ensures u in w <==> u in l && u != t
    {
      if u in l && u != t {
        var j := Index(l, u);
        assert w[if j < i then j else j - 1] == u;
      }
    }
  }

  lemma InsertMembers(l: seq<Tid>, k: nat, t: Tid)
    requires k <= |l| && t !in l && NoDuplicates(l)
    ensures NoDuplicates(InsertAt(l, k, t))
    ensures forall u :: u in InsertAt(l, k, t) <==> u in l || u == t
  {
    var w := InsertAt(l, k, t);
    forall u
      ensures u in w <==> u in l || u == t
    {
      if u in l {
        var j := Index(l, u);
        assert w[if j < k then j else j + 1] == u;
      }
      assert w[k] == t;
    }
  }

  lemma WithoutSorted(l: seq<Tid>, t: Tid, tcbs: map<Tid, Tcb>)
    requires t in l && SleepSorted(l, tcbs)
    ensures SleepSorted(Without(l, t), tcbs)
  {
    var i, w := Index(l, t), Without(l, t);
    assert forall j :: 0 <= j < |w| ==> w[j] == l[if j < i then j else j + 1];
  }

  lemma WithoutGrouped(l: seq<Tid>, t: Tid, tcbs: map<Tid, Tcb>)
    requires t in l && Grouped(l, tcbs)
    ensures Grouped(Without(l, t), tcbs)
  {
    var i, ps := Index(l, t), Owners(l, tcbs);
    assert Owners(Without(l, t), tcbs) == ps[..i] + ps[i + 1..];
    DropContiguous(ps, i);
  }

  lemma DropContiguous(ps: seq<Pid>, i: nat)
    requires i < |ps| && Contiguous(ps)
    ensures Contiguous(ps[..i] + ps[i + 1..])
  {
    var qs := ps[..i] + ps[i + 1..];
    forall x, y, z | 0 <= x < y < z < |qs| && qs[x] == qs[z]
      ensures qs[y] == qs[x]
    {
      var x', y', z' := if x < i then x else x + 1, if y < i then y else y + 1, if z < i then z else z + 1;
      assert qs[x] == ps[x'] && qs[y] == ps[y'] && qs[z] == ps[z'];
    }
  }

  lemma SleepInsert(l: seq<Tid>, tcbs: map<Tid, Tcb>, k: nat, t: Tid)
    requires t in tcbs && k <= |l| && forall u :: u in l ==> u in tcbs
    requires SleepSorted(l, tcbs)
    requires forall i :: 0 <= i < k ==> tcbs[l[i]].detail.wakeup < tcbs[t].detail.wakeup
    requires k < |l| ==> tcbs[l[k]].detail.wakeup >= tcbs[t].detail.wakeup
    ensures SleepSorted(InsertAt(l, k, t), tcbs)
  {
    var r := InsertAt(l, k, t);
    assert forall j :: 0 <= j < |r| ==> r[j] == if j < k then l[j] else if j == k then t else l[j - 1];
    forall i, j | 0 <= i < j < |r|
      ensures tcbs[r[i]].detail.wakeup <= tcbs[r[j]].detail.wakeup
    {
      if i == k { assert tcbs[l[k]].detail.wakeup <= tcbs[l[j - 1]].detail.wakeup; }
    }
  }

  lemma AddContiguous(ps: seq<Pid>, k: nat, p: Pid)
    requires k <= |ps| && Contiguous(ps)
    requires forall i :: k <= i < |ps| ==> ps[i] != p
    requires (0 < k && ps[k - 1] == p) || (k == |ps| && forall i :: 0 <= i < |ps| ==> ps[i] != p)
    ensures Contiguous(ps[..k] + [p] + ps[k..])
  {
    var qs := ps[..k] + [p] + ps[k..];
    forall x, y, z | 0 <= x < y < z < |qs| && qs[x] == qs[z]
      ensures qs[y] == qs[x]
    {
      var x', y', z' := if x < k then x else x - 1, if y < k then y else y - 1, if z < k then z else z - 1;
      assert x != k ==> qs[x] == ps[x'];
      assert y != k ==> qs[y] == ps[y'];
      assert z != k ==> qs[z] == ps[z'];
    }
  }

  // --------------------------------------------- alter_state keeps the invariant

  /** The lists after alter_state, by membership. */
  lemma AlterMembers(s: Sched, t: Tid, state: int, d: Blocking)
    requires ListsInv(s) && Alterable(s, t, state, d) && ListOf(s.tcbs[t]) != Target(state, d)
    ensures var s' := Alter(s, t, state, d);
            && |s'.lists| == LIST_COUNT
            && (forall i :: 0 <= i < LIST_COUNT ==> NoDuplicates(s'.lists[i]))
            && (forall i, u {:trigger u in s'.lists[i]} :: 0 <= i < LIST_COUNT ==>
                  (u in s'.lists[i] <==> if u == t then i == Target(state, d) else u in s.lists[i]))
  {
    var s' := Alter(s, t, state, d);
    var src, dst := ListOf(s.tcbs[t]), Target(state, d);
    assert t !in s.lists[dst];
    WithoutMembers(s.lists[src], t);
    InsertMembers(s.lists[dst], Position(s, s.tcbs[t].pcb, state, d), t);
    forall i, u | 0 <= i < LIST_COUNT
      ensures u in s'.lists[i] <==> if u == t then i == dst else u in s.lists[i]
    {
      if i != src && i != dst { assert s'.lists[i] == s.lists[i]; }
    }
  }

  lemma AlterSound(s: Sched, t: Tid, state: int, d: Blocking)
    requires ListsInv(s) && Alterable(s, t, state, d) && ListOf(s.tcbs[t]) != Target(state, d)
    ensures var s' := Alter(s, t, state, d);
            Sound(s') && Complete(s') && Rostered(s')
  {
    AlterMembers(s, t, state, d);
    var s' := Alter(s, t, state, d);
    hide SleepSorted, Grouped, NoDuplicates;
    forall u | u in s'.tcbs && s'.tcbs[u].state != TERMINATED
      ensures u in s'.lists[ListOf(s'.tcbs[u])]
    {
      if u != t { assert u in s.lists[ListOf(s.tcbs[u])]; }
    }
    assert Rostered(s');
  }

  lemma AlterSleepers(s: Sched, t: Tid, state: int, d: Blocking)
    requires ListsInv(s) && Alterable(s, t, state, d) && ListOf(s.tcbs[t]) != Target(state, d)
    ensures var s' := Alter(s, t, state, d); SleepSorted(s'.lists[SLEEP], s'.tcbs)
  {
    var s' := Alter(s, t, state, d);
    var l := s.lists[SLEEP];
    if ListOf(s.tcbs[t]) == SLEEP {
      WithoutSorted(l, t, s.tcbs);
      WithoutMembers(l, t);
      SameSorted(Without(l, t), s.tcbs, s'.tcbs, t);
    } else {
      assert t !in l;
      SameSorted(l, s.tcbs, s'.tcbs, t);
      if Target(state, d) == SLEEP {
        assert forall i :: 0 <= i < |l| ==> l[i] in l;
        SleepInsert(l, s'.tcbs, SleepPosition(l, s.tcbs, d.wakeup), t);
      }
    }
  }

  lemma OwnersSame(l: seq<Tid>, tcbs: map<Tid, Tcb>, tcbs': map<Tid, Tcb>)
    requires forall u :: Owner(tcbs', u) == Owner(tcbs, u)
    ensures Owners(l, tcbs') == Owners(l, tcbs)
  {
  }

  lemma InsertGrouped(l: seq<Tid>, tcbs: map<Tid, Tcb>, tcbs': map<Tid, Tcb>, t: Tid, p: Pid)
    requires forall u :: u in l ==> u in tcbs
    requires Grouped(l, tcbs)
    requires forall u :: u in l ==> Owner(tcbs', u) == Owner(tcbs, u)
    requires Owner(tcbs', t) == p
    ensures Grouped(InsertAt(l, GroupEnd(l, tcbs, p), t), tcbs')
  {
    var ps, k := Owners(l, tcbs), GroupEnd(l, tcbs, p);
    AddContiguous(ps, k, p);
    assert Owners(InsertAt(l, k, t), tcbs') == ps[..k] + [p] + ps[k..];
  }

  lemma AlterReady(s: Sched, t: Tid, state: int, d: Blocking)
    requires ListsInv(s) && Alterable(s, t, state, d) && ListOf(s.tcbs[t]) != Target(state, d)
    ensures var s' := Alter(s, t, state, d); Grouped(s'.lists[READY], s'.tcbs)
  {
    var s' := Alter(s, t, state, d);
    var l := s.lists[READY];
    if ListOf(s.tcbs[t]) == READY {
      WithoutGrouped(l, t, s.tcbs);
      OwnersSame(Without(l, t), s.tcbs, s'.tcbs);
    } else if Target(state, d) == READY {
      InsertGrouped(l, s.tcbs, s'.tcbs, t, s.tcbs[t].pcb);
    } else {
      OwnersSame(l, s.tcbs, s'.tcbs);
    }
  }

  lemma SameSorted(l: seq<Tid>, tcbs: map<Tid, Tcb>, tcbs': map<Tid, Tcb>, t: Tid)
    requires t !in l && SleepSorted(l, tcbs)
    requires forall u :: u != t ==> (u in tcbs' <==> u in tcbs)
    requires forall u :: u in tcbs && u != t ==> tcbs'[u] == tcbs[u]
    ensures SleepSorted(l, tcbs')
  {
  }

  /** alter_state between different lists keeps every list invariant. */
  lemma AlterKeepsLists(s: Sched, t: Tid, state: int, d: Blocking)
    requires ListsInv(s) && Alterable(s, t, state, d) && ListOf(s.tcbs[t]) != Target(state, d)
    ensures ListsInv(Alter(s, t, state, d))
  {
    AlterSound(s, t, state, d);
    AlterSleepers(s, t, state, d);
    AlterReady(s, t, state, d);
  }
}
