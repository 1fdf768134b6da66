/** alter_state and round_robin on the linked lists themselves: the node of a thread is cut
    out of one ring and tied into another, and what the rings then show is what the state
    machine of the scheduler says. */
module ThreadRings {
  import opened Basics
  import opened ThreadLists
  import opened CircularList
  import Scheduler
  import KernelThreads

  /** No two rings share a node. */
  ghost predicate Apart(rings: seq<seq<Node<Tid>>>) {
    forall i, j, n :: 0 <= i < j < |rings| && n in rings[i] ==> n !in rings[j]
  }

  ghost function AllOf(rings: seq<seq<Node<Tid>>>): set<Node<Tid>> { set j, n | 0 <= j < |rings| && n in rings[j] :: n }

  function NoThreads(): seq<seq<Tid>> { [[], [], [], [], [], [], [], [], []] }

  lemma FirstThread()
    ensures NoThreads()[RUNNING := NoThreads()[RUNNING][..0] + [0] + NoThreads()[RUNNING][0..]] == Scheduler.Boot().lists
  {
    assert NoThreads()[RUNNING][..0] + [0] + NoThreads()[RUNNING][0..] == [0];
  }

  /** A thread gone from place `i` of list `src` to place `k` of list `dst`. */
  function MovedLists(lists: seq<seq<Tid>>, src: nat, i: nat, dst: nat, k: nat, t: Tid): (r: seq<seq<Tid>>)
    requires src < |lists| && dst < |lists| && i < |lists[src]|
    requires k <= |lists[dst]| - if src == dst then 1 else 0
  {
    var cut := lists[src := lists[src][..i] + lists[src][i + 1..]];
    cut[dst := cut[dst][..k] + [t] + cut[dst][k..]]
  }

  /** alter_state is meant for a thread that changes its list; the one running thread may
      also stay where it is. */
  ghost predicate Movable(s: Sched, t: Tid, state: int, d: Blocking)
    requires t in s.tcbs && |s.lists| == LIST_COUNT
  {
    ListOf(s.tcbs[t]) != Target(state, d) || (state == RUNNING && s.lists[RUNNING] == [t])
  }

  ghost function Altered(s: Sched, t: Tid, state: int, d: Blocking): Sched
    requires ListsInv(s) && Alterable(s, t, state, d)
  {
    if ListOf(s.tcbs[t]) == Target(state, d) then s else Alter(s, t, state, d)
  }

  /** The places a thread leaves and goes to. */
  ghost predicate Route(s: Sched, t: Tid, state: int, d: Blocking, src: int, i: nat, dst: int, k: nat) {
    && ListsInv(s) && Alterable(s, t, state, d)
    && src == ListOf(s.tcbs[t]) && dst == Target(state, d) && 0 <= src < LIST_COUNT && 0 <= dst < LIST_COUNT
    && i == Index(s.lists[src], t)
    && (forall u :: u in s.lists[dst] ==> u in s.tcbs) && k == Position(s, s.tcbs[t].pcb, state, d)
  }

  lemma AlteredIsMoved(s: Sched, t: Tid, state: int, d: Blocking, src: nat, i: nat, dst: nat, k: nat)
    requires Route(s, t, state, d, src, i, dst, k) && Movable(s, t, state, d)
    ensures src == dst ==> k == 0 && |s.lists[src]| == 1
    ensures Altered(s, t, state, d) == s.(lists := MovedLists(s.lists, src, i, dst, k, t),
                                          tcbs := s.tcbs[t := Tcb(s.tcbs[t].pcb, state, if state == WAITING then d else s.tcbs[t].detail)])
  {
    if src == dst {
      assert MovedLists(s.lists, RUNNING, 0, RUNNING, 0, t)[RUNNING] == [t];
    }
  }

  lemma Unshared(rings: seq<seq<Node<Tid>>>, j: nat)
    requires Apart(rings) && j < |rings|
    ensures forall q, n :: 0 <= q < |rings| && q != j && n in rings[q] ==> n !in rings[j]
  {
  }

  lemma CutMember(ns: seq<Node<Tid>>, i: nat, n: Node<Tid>)
    requires i < |ns| && forall j :: 0 <= j < |ns| && ns[j] == ns[i] ==> j == i
    ensures n in ns[..i] + ns[i + 1..] <==> n in ns && n != ns[i]
  {
    assert ns == ns[..i] + [ns[i]] + ns[i + 1..];
  }

  lemma CutApart(rings: seq<seq<Node<Tid>>>, src: nat, i: nat)
    requires Apart(rings) && src < |rings| && i < |rings[src]| && Ring(rings[src])
    ensures var rings' := rings[src := rings[src][..i] + rings[src][i + 1..]];
            && Apart(rings') && AllOf(rings') == AllOf(rings) - {rings[src][i]}
            && forall q :: 0 <= q < |rings| ==> rings[src][i] !in rings'[q]
  {
    var rings' := rings[src := rings[src][..i] + rings[src][i + 1..]];
    OnlyPlace(rings[src], i);
    forall n
      ensures n in rings'[src] <==> n in rings[src] && n != rings[src][i]
    {
      CutMember(rings[src], i, n);
    }
    assert forall q :: 0 <= q < |rings| && q != src ==> rings'[q] == rings[q];
    hide Ring, Apart;
    assert forall n :: n in AllOf(rings) && n != rings[src][i] ==> n in AllOf(rings');
  }

  lemma TieApart(rings: seq<seq<Node<Tid>>>, x: Node<Tid>, dst: nat, k: nat)
    requires Apart(rings) && dst < |rings| && k <= |rings[dst]| && forall q :: 0 <= q < |rings| ==> x !in rings[q]
    ensures var rings' := rings[dst := rings[dst][..k] + [x] + rings[dst][k..]];
            Apart(rings') && AllOf(rings') == AllOf(rings) + {x}
  {
    var rings' := rings[dst := rings[dst][..k] + [x] + rings[dst][k..]];
    assert rings[dst] == rings[dst][..k] + rings[dst][k..];
    assert forall n :: n in rings'[dst] <==> n in rings[dst] || n == x;
    assert forall q :: 0 <= q < |rings| && q != dst ==> rings'[q] == rings[q];
  }

  lemma TurnApart(rings: seq<seq<Node<Tid>>>, j: nat, k: nat)
    requires Apart(rings) && j < |rings| && k <= |rings[j]|
    ensures var rings' := rings[j := rings[j][k..] + rings[j][..k]];
            Apart(rings') && AllOf(rings') == AllOf(rings)
  {
    var rings' := rings[j := rings[j][k..] + rings[j][..k]];
    assert rings[j] == rings[j][..k] + rings[j][k..];
    assert forall n :: n in rings'[j] <==> n in rings[j];
    assert forall q :: 0 <= q < |rings| && q != j ==> rings'[q] == rings[q];
  }

  class Rings {
    const heads: seq<List<Tid>>
    var tcbs: map<Tid, Tcb>

    /** The lists before init_ctrl_blk, all empty, and the first thread's block. */
    constructor ()
      ensures Valid() && fresh(set l | l in heads) && Lists() == NoThreads() && NodeSet(heads) == {} && tcbs == Scheduler.Boot().tcbs
    {
      hide Ring, Distinct, DataOf, Apart, AllOf, NodesFrom, ListsFrom, List.Valid, List.Contents, Rings.Valid, Rings.Nodes, Rings.Lists;
      var hs := EmptyLists();
      heads := hs;
      tcbs := map[0 := Tcb(0, RUNNING, Scheduler.NoDetail)];
      new;
      EmptyRings();
    }

    lemma EmptyRings()
      requires |heads| == LIST_COUNT && forall i :: 0 <= i < |heads| ==> heads[i].nodes == [] && heads[i].Valid() && heads[i].Contents() == []
      requires forall i, j :: 0 <= i < j < |heads| ==> heads[i] != heads[j]
      ensures Valid() && Lists() == NoThreads() && NodeSet(heads) == {}
    {
      hide Ring, Distinct, DataOf, List.Valid, List.Contents;
    }

    /** init_ctrl_blk with the node it is granted: the first thread runs. */
    method Init(x: Node<Tid>)
      requires Valid() && Lists() == NoThreads() && tcbs == Scheduler.Boot().tcbs
      requires x.data == 0 && forall q :: 0 <= q < LIST_COUNT ==> x !in Nodes()[q]
      modifies heads, NodeSet(heads), x
      ensures Valid() && Shows(Scheduler.Boot()) && NodeSet(heads) == old(NodeSet(heads)) + {x}
    {
      hide Ring, Distinct, DataOf, Apart, AllOf, NodesFrom, ListsFrom, Rings.Valid, Rings.Nodes, Rings.Lists;
      LengthsAgree(RUNNING);
      TieNode(x, RUNNING, null, true, 0);
      FirstThread();
    }

    static method EmptyLists() returns (hs: seq<List<Tid>>)
      ensures |hs| == LIST_COUNT && forall i :: 0 <= i < |hs| ==> fresh(hs[i]) && hs[i].nodes == [] && hs[i].Valid() && hs[i].Contents() == []
      ensures forall i, j :: 0 <= i < j < |hs| ==> hs[i] != hs[j]
    {
      hide Ring, Distinct, DataOf;
      hs := [];
      while |hs| < LIST_COUNT
        invariant |hs| <= LIST_COUNT && forall i :: 0 <= i < |hs| ==> fresh(hs[i]) && hs[i].nodes == [] && hs[i].Valid() && hs[i].Contents() == []
        invariant forall i, j :: 0 <= i < j < |hs| ==> hs[i] != hs[j]
      {
        var l := new List<Tid>();
        hs := hs + [l];
      }
    }

    /** The nodes of every ring, from its front on. */
    ghost function Nodes(): (r: seq<seq<Node<Tid>>>)
      reads heads
      ensures |r| == |heads| && forall i :: 0 <= i < |heads| ==> r[i] == heads[i].nodes
    {
      NodesFrom(heads)
    }

    /** What the rings show. */
    ghost function Lists(): (r: seq<seq<Tid>>)
      reads heads, NodeSet(heads)
      ensures |r| == |heads| && forall i :: 0 <= i < |heads| ==> r[i] == heads[i].Contents()
    {
      ListsFrom(heads)
    }

    ghost predicate Valid()
      reads heads, NodeSet(heads)
      ensures Valid() ==> |heads| == LIST_COUNT
    {
      && |heads| == LIST_COUNT
      && (forall i, j :: 0 <= i < j < LIST_COUNT ==> heads[i] != heads[j])
      && (forall i :: 0 <= i < LIST_COUNT ==> heads[i].Valid())
      && Apart(Nodes())
    }

    /** The rings hold the lists of `s`, and the threads are those of `s`. */
    ghost predicate Shows(s: Sched)
      reads this, heads, NodeSet(heads)
    {
      Lists() == s.lists && tcbs == s.tcbs
    }

    /** The rings are as they were. */
    twostate predicate Same()
      reads heads, NodeSet(heads)
    {
      Valid() && Nodes() == old(Nodes()) && Lists() == old(Lists()) && NodeSet(heads) == old(NodeSet(heads))
    }

    /** The walk that finds the node of a thread in the list its state names. */
    method FindSource(t: Tid, src: int) returns (x: Node?<Tid>, ghost i: nat)
      requires Valid() && 0 <= src < LIST_COUNT
      ensures Same()
      ensures x == null ==> t !in Lists()[src]
      ensures x != null ==> i < |Nodes()[src]| && x == Nodes()[src][i] && t in Lists()[src] && i == Index(Lists()[src], t)
    {
      hide Ring, Distinct, DataOf, Apart, AllOf, NodesFrom, ListsFrom;
      ghost var l := heads[src].Contents();
      x, i := heads[src].front, 0;
      if x == null {
        return;
      }
      while true
        invariant i < |l| && l == heads[src].Contents() && x == heads[src].nodes[i]
        invariant forall j :: 0 <= j < i ==> l[j] != t
        decreases |l| - i
      {
        if x.data == t {
          return;
        }
        RingStep(heads[src].nodes, i);
        x, i := x.next, i + 1;
        if x == heads[src].front {
          return null, 0;
        }
      }
    }

    /** The walk over the sleep list: the node to go before, and whether to become the front. */
    method FindSleeper(w: nat) returns (at: Node?<Tid>, frontPushed: bool, ghost k: nat)
      requires |heads| == LIST_COUNT && heads[SLEEP].Valid() && forall t :: t in heads[SLEEP].Contents() ==> t in tcbs
      ensures k == SleepPosition(heads[SLEEP].Contents(), tcbs, w) && Place(heads[SLEEP].nodes, at, frontPushed, k)
    {
      hide Ring, Distinct, DataOf;
      ghost var l := heads[SLEEP].Contents();
      at, frontPushed, k := heads[SLEEP].front, true, 0;
      if at != null && tcbs[at.data].detail.wakeup < w {
        RingStep(heads[SLEEP].nodes, 0);
        at, frontPushed, k := at.next, false, 1;
        while at != heads[SLEEP].front && tcbs[at.data].detail.wakeup < w
          invariant 1 <= k <= |l| && l == heads[SLEEP].Contents()
          invariant at == heads[SLEEP].nodes[if k < |l| then k else 0] && (k < |l| ==> at != heads[SLEEP].front)
          invariant forall i :: 0 <= i < k ==> tcbs[l[i]].detail.wakeup < w
          decreases |l| - k
        {
          RingStep(heads[SLEEP].nodes, k);
          at, k := at.next, k + 1;
        }
      }
      KernelThreads.SleepPositionUnique(l, tcbs, w, k);
    }

    /** The backward walk over the ready list, to the node after the last of the process. */
    method FindGroup(p: Pid) returns (at: Node?<Tid>, ghost k: nat)
      requires |heads| == LIST_COUNT && heads[READY].Valid() && forall t :: t in heads[READY].Contents() ==> t in tcbs
      ensures k == GroupEnd(heads[READY].Contents(), tcbs, p) && Place(heads[READY].nodes, at, false, k)
    {
      hide Ring, Distinct, DataOf;
      ghost var l := heads[READY].Contents();
      at, k := heads[READY].front, |l|;
      if at != null {
        RingEnds(heads[READY].nodes);
        var node := at.previous;
        while true
          invariant 1 <= k <= |l| && l == heads[READY].Contents() && node == heads[READY].nodes[k - 1]
          invariant forall i :: k <= i < |l| ==> tcbs[l[i]].pcb != p
          decreases k
        {
          RingStep(heads[READY].nodes, k - 1);
          if tcbs[node.data].pcb == p {
            at := node.next;
            break;
          }
          StepBack(heads[READY].nodes, k - 1);
          node := node.previous;
          if node == heads[READY].front.previous {
            k := |l|;
            break;
          }
          k := k - 1;
        }
      }
      KernelThreads.GroupEndUnique(l, tcbs, p, k);
    }

    /** Where the node of a blocked thread goes. */
    method FindBlocked(d: Blocking) returns (ok: bool, at: Node?<Tid>, frontPushed: bool, ghost k: nat)
      requires Valid() && forall t :: t in Lists()[SLEEP] ==> t in tcbs
      ensures Same()
      ensures ok <==> TERMINATED < d.reason < LIST_COUNT
      ensures ok ==> Place(Nodes()[d.reason], at, frontPushed, k)
      ensures ok ==> k == if d.reason == SLEEP then SleepPosition(Lists()[SLEEP], tcbs, d.wakeup)
                          else if d.reason == READLINE && d.firstReader then 0 else |Lists()[d.reason]|
    {
      hide Ring, Distinct, DataOf, Apart, AllOf, NodesFrom, ListsFrom;
      ok, at, frontPushed, k := true, null, false, 0;
      if d.reason == SLEEP {
        at, frontPushed, k := FindSleeper(d.wakeup);
      } else if d.reason == DESCHEDULE || d.reason == VANISH_WAIT {
        at, k := heads[d.reason].front, |heads[d.reason].nodes|;
      } else if d.reason == READLINE {
        at, frontPushed := heads[READLINE].front, d.firstReader;
        k := if d.firstReader then 0 else |heads[READLINE].nodes|;
      } else {
        ok := false;
      }
    }

    /** Where the node goes: the list, the node to go before, and whether to become the
        front. */
    method FindDestination(p: Pid, state: int, d: Blocking, ghost s: Sched)
      returns (ok: bool, dst: int, at: Node?<Tid>, frontPushed: bool, ghost k: nat)
      requires Valid() && Shows(s) && ListsInv(s) && READY <= state <= TERMINATED
      ensures Same()
      ensures ok <==> (state == WAITING ==> TERMINATED < d.reason < LIST_COUNT)
      ensures ok ==> dst == Target(state, d) && k == Position(s, p, state, d) && Place(Nodes()[dst], at, frontPushed, k)
    {
      hide ListsInv, Place, Ring, Distinct, DataOf, Apart, AllOf, NodesFrom, ListsFrom, Rings.Valid;
      ListedThreads(s);
      ok, dst, at, frontPushed, k := true, state, null, false, 0;
      if state == WAITING {
        dst := d.reason;
        ok, at, frontPushed, k := FindBlocked(d);
      } else if state == READY {
        at, k := FindMates(p);
      } else {
        frontPushed := state == RUNNING;
        at, k := FindEnd(state, frontPushed);
      }
    }

    lemma ListedThreads(s: Sched)
      requires Shows(s) && ListsInv(s)
      ensures forall i, t :: 0 <= i < LIST_COUNT && t in Lists()[i] ==> t in tcbs
    {
    }

    /** The place behind the last ready thread of the process. */
    method FindMates(p: Pid) returns (at: Node?<Tid>, ghost k: nat)
      requires Valid() && forall t :: t in Lists()[READY] ==> t in tcbs
      ensures Same() && k == GroupEnd(Lists()[READY], tcbs, p) && Place(Nodes()[READY], at, false, k)
    {
      hide Ring, Distinct, DataOf, Apart, AllOf, NodesFrom, ListsFrom;
      at, k := FindGroup(p);
    }

    /** The front of a list, to push a node there or behind the last one. */
    method FindEnd(dst: int, frontPushed: bool) returns (at: Node?<Tid>, ghost k: nat)
      requires Valid() && 0 <= dst < LIST_COUNT
      ensures Same() && k == (if frontPushed then 0 else |Lists()[dst]|) && Place(Nodes()[dst], at, frontPushed, k)
    {
      hide Ring, Distinct, DataOf, Apart, AllOf, NodesFrom, ListsFrom;
      at, k := heads[dst].front, if frontPushed then 0 else |heads[dst].nodes|;
    }

    /** While only ring `j` changes, the others show what they showed. */
    twostate lemma OthersKept(j: nat)
      requires j < |heads|
      requires forall q :: 0 <= q < |heads| && q != j ==> heads[q].nodes == old(heads[q].nodes) && heads[q].Contents() == old(heads[q].Contents())
      ensures Nodes() == old(Nodes())[j := heads[j].nodes] && Lists() == old(Lists())[j := heads[j].Contents()]
    {
      hide List.Contents;
    }

    /** The node leaves its ring. */
    method CutNode(x: Node<Tid>, src: int, ghost i: nat)
      requires Valid() && 0 <= src < LIST_COUNT && i < |Nodes()[src]| && x == Nodes()[src][i]
      modifies heads[src], heads[src].nodes
      ensures Valid() && x.data == old(Lists()[src][i]) && forall q :: 0 <= q < LIST_COUNT ==> x !in Nodes()[q]
      ensures Nodes() == old(Nodes()[src := Nodes()[src][..i] + Nodes()[src][i + 1..]])
      ensures Lists() == old(Lists()[src := Lists()[src][..i] + Lists()[src][i + 1..]])
      ensures |old(Nodes()[src])| == 1 ==> x.next == x && x.previous == x
      ensures NodeSet(heads) == old(NodeSet(heads)) - {x}
    {
      hide Ring, Distinct, DataOf, Apart, AllOf, NodesFrom, ListsFrom;
      ghost var rings := Nodes();
      Unshared(rings, src);
      CutApart(rings, src, i);
      heads[src].RemoveAt(x, i);
      forall q | 0 <= q < LIST_COUNT && q != src
        ensures heads[q].Valid() && heads[q].Contents() == old(heads[q].Contents()) && heads[q].nodes == old(heads[q].nodes)
      {
        assert heads[q] != heads[src];
        assert forall n :: n in rings[q] ==> n !in rings[src];
        KeptList(heads[q]);
      }
      OthersKept(src);
      assert Nodes() == rings[src := rings[src][..i] + rings[src][i + 1..]];
    }

    /** The node enters its new ring. */
    method TieNode(x: Node<Tid>, dst: int, at: Node?<Tid>, frontPushed: bool, ghost k: nat)
      requires Valid() && 0 <= dst < LIST_COUNT && forall q :: 0 <= q < LIST_COUNT ==> x !in Nodes()[q]
      requires Place(Nodes()[dst], at, frontPushed, k)
               || (Nodes()[dst] == [] && at == x && frontPushed && k == 0 && x.next == x && x.previous == x)
      modifies heads[dst], heads[dst].nodes, x
      ensures Valid() && Nodes() == old(Nodes()[dst := Nodes()[dst][..k] + [x] + Nodes()[dst][k..]])
      ensures NodeSet(heads) == old(NodeSet(heads)) + {x}
      ensures Lists() == old(Lists()[dst := Lists()[dst][..k] + [x.data] + Lists()[dst][k..]])
    {
      hide Ring, Distinct, DataOf, Apart, AllOf, NodesFrom, ListsFrom;
      ghost var rings := Nodes();
      Unshared(rings, dst);
      TieApart(rings, x, dst, k);
      heads[dst].InsertBefore(x, at, frontPushed, k);
      forall q | 0 <= q < LIST_COUNT && q != dst
        ensures heads[q].Valid() && heads[q].Contents() == old(heads[q].Contents()) && heads[q].nodes == old(heads[q].nodes)
      {
        assert heads[q] != heads[dst];
        assert forall n :: n in rings[q] ==> n !in rings[dst] && n != x;
        KeptList(heads[q]);
      }
      OthersKept(dst);
      assert Nodes() == rings[dst := rings[dst][..k] + [x] + rings[dst][k..]];
    }


    lemma LengthsAgree(j: int)
      requires 0 <= j < |heads|
      ensures |Lists()[j]| == |Nodes()[j]|
    {
    }

    /** The relinking of alter_state. */
    method MoveNode(x: Node<Tid>, src: int, ghost i: nat, dst: int, at: Node?<Tid>, frontPushed: bool, ghost k: nat, ghost lists: seq<seq<Tid>>)
      requires Valid() && 0 <= src < LIST_COUNT && 0 <= dst < LIST_COUNT && i < |Nodes()[src]| && x == Nodes()[src][i]
      requires Lists() == lists && Place(Nodes()[dst], at, frontPushed, k) && (src == dst ==> |lists[src]| == 1 && k == 0)
      modifies heads, NodeSet(heads)
      ensures Valid() && NodeSet(heads) == old(NodeSet(heads))
      ensures Lists() == MovedLists(lists, src, i, dst, k, lists[src][i])
    {
      hide Ring, Distinct, DataOf, Apart, AllOf, Place, NodesFrom, ListsFrom, List.Valid, List.Contents, Rings.Nodes, Rings.Lists, Rings.Valid;
      LengthsAgree(src);
      CutPlace(Nodes(), src, i, dst, k, at, frontPushed);
      CutNode(x, src, i);
      TieNode(x, dst, at, frontPushed, k);
    }

    /** The first half of alter_state: the thread's node, and where it goes. */
    method Decide(tid: Tid, state: int, d: Blocking, ghost s: Sched)
      returns (ok: bool, x: Node?<Tid>, src: int, dst: int, at: Node?<Tid>, frontPushed: bool, ghost i: nat, ghost k: nat)
      requires Valid() && Shows(s) && ListsInv(s) && tid in tcbs && READY <= state <= TERMINATED
      ensures Same()
      ensures ok <==> Alterable(s, tid, state, d)
      ensures ok ==> 0 <= src < LIST_COUNT && 0 <= dst < LIST_COUNT && Route(s, tid, state, d, src, i, dst, k)
      ensures ok ==> x != null && i < |Nodes()[src]| && x == Nodes()[src][i] && s.lists[src][i] == tid
      ensures ok ==> Place(Nodes()[dst], at, frontPushed, k)
    {
      hide Complete, Rostered, SleepSorted, Grouped, NoDuplicates, Ring, Distinct, DataOf, Apart, AllOf, Place, Rings.Valid;
      var c := tcbs[tid];
      x, i, k, dst, at, frontPushed := null, 0, 0, 0, null, false;
      src := if c.state == WAITING then c.detail.reason else c.state;
      if READY <= c.state <= TERMINATED && (c.state != WAITING || TERMINATED < c.detail.reason < LIST_COUNT) {
        x, i := FindSource(tid, src);
      }
      ok := x != null;
      if ok {
        ok, dst, at, frontPushed, k := FindDestination(c.pcb, state, d, s);
      }
    }

    /** alter_state. The node of the thread is moved, not replaced, and what the rings show
        afterwards is what the state machine says; a failure changes nothing. */
    method AlterState(t: Option<Tid>, state: int, d: Option<Blocking>, ghost s: Sched) returns (rc: int)
      requires Valid() && Shows(s) && ListsInv(s)
      requires t.Some? ==> t.value in tcbs
      requires t.Some? && (state == WAITING ==> d.Some?) && Alterable(s, t.value, state, if d.Some? then d.value else Scheduler.NoDetail) ==>
                 Movable(s, t.value, state, if d.Some? then d.value else Scheduler.NoDetail)
      modifies this, heads, NodeSet(heads)
      ensures Valid() && NodeSet(heads) == old(NodeSet(heads))
      ensures rc == 0 || rc == -1
      ensures rc == 0 <==> t.Some? && (state == WAITING ==> d.Some?)
                           && Alterable(s, t.value, state, if d.Some? then d.value else Scheduler.NoDetail)
      ensures Shows(if rc == 0 then Altered(s, t.value, state, if d.Some? then d.value else Scheduler.NoDetail) else s)
    {
      hide ListsInv, Altered, Movable, Shows, Ring, Distinct, DataOf, Apart, AllOf, Rings.Valid;
      if t.None? || !(READY <= state <= TERMINATED) {
        return -1;
      }
      if state == WAITING && d.None? {
        return -1;
      }
      var ok := Relink(t.value, state, if d.Some? then d.value else Scheduler.NoDetail, s);
      rc := if ok then 0 else -1;
    }

    method Relink(tid: Tid, state: int, d: Blocking, ghost s: Sched) returns (ok: bool)
      requires Valid() && Shows(s) && ListsInv(s) && tid in tcbs && READY <= state <= TERMINATED
      requires Alterable(s, tid, state, d) ==> Movable(s, tid, state, d)
      modifies this, heads, NodeSet(heads)
      ensures Valid() && NodeSet(heads) == old(NodeSet(heads))
      ensures ok <==> Alterable(s, tid, state, d)
      ensures Shows(if ok then Altered(s, tid, state, d) else s)
    {
      hide ListsInv, Alterable, Altered, Movable, Route, Place, MovedLists, Ring, Distinct, DataOf, Apart, AllOf, NodesFrom, ListsFrom, Rings.Nodes, Rings.Lists, Rings.Valid;
      var x, src, dst, at, frontPushed;
      ghost var i, k;
      ok, x, src, dst, at, frontPushed, i, k := Decide(tid, state, d, s);
      if ok {
        AlteredIsMoved(s, tid, state, d, src, i, dst, k);
        MoveNode(x, src, i, dst, at, frontPushed, k, s.lists);
        tcbs := tcbs[tid := Tcb(tcbs[tid].pcb, state, if state == WAITING then d else tcbs[tid].detail)];
      }
    }

    /** thread_fork_ctrl_blk with the node it is granted, or none: the new thread goes behind
        the ready threads of the running one's process. */
    method ThreadFork(t: Tid, x: Node?<Tid>, ghost s: Sched) returns (rc: int)
      requires Valid() && Shows(s) && Inv(s) && t !in tcbs
      requires x != null ==> x.data == t && forall q :: 0 <= q < LIST_COUNT ==> x !in Nodes()[q]
      modifies this, heads, NodeSet(heads), if x == null then {} else {x}
      ensures Valid() && NodeSet(heads) == old(NodeSet(heads)) + if x == null then {} else {x}
      ensures rc == if x == null then -1 else 0
      ensures Shows(if rc == 0 then Scheduler.Spawn(s, t, s.tcbs[Scheduler.Running(s)].pcb) else s)
    {
      hide Inv, Place, Ring, Distinct, DataOf, Apart, AllOf, NodesFrom, ListsFrom, GroupEnd, Scheduler.Spawn, Rings.Valid, Rings.Nodes, Rings.Lists;
      if x == null {
        return -1;
      }
      InvLists(s);
      ListedThreads(s);
      var running := RunningThread(s);
      var at;
      ghost var k;
      at, k := FindMates(tcbs[running].pcb);
      Enter(t, tcbs[running].pcb, running, x, at, k, s);
      rc := 0;
    }

    lemma InvLists(s: Sched)
      requires Inv(s)
      ensures ListsInv(s) && s.tcbs[Scheduler.Running(s)].pcb in s.threads
    {
    }

    /** The new node's links and the new thread's block. */
    method Enter(t: Tid, p: Pid, running: Tid, x: Node<Tid>, at: Node?<Tid>, ghost k: nat, ghost s: Sched)
      requires Valid() && Shows(s) && Inv(s) && t !in tcbs && running == Scheduler.Running(s)
      requires x.data == t && forall q :: 0 <= q < LIST_COUNT ==> x !in Nodes()[q]
      requires (forall u :: u in s.lists[READY] ==> u in s.tcbs) && k == GroupEnd(s.lists[READY], s.tcbs, p) && Place(Nodes()[READY], at, false, k)
      modifies this, heads, NodeSet(heads), x
      ensures Valid() && NodeSet(heads) == old(NodeSet(heads)) + {x} && Shows(Scheduler.Spawn(s, t, p))
    {
      hide Inv, Place, Ring, Distinct, DataOf, Apart, AllOf, NodesFrom, ListsFrom, GroupEnd, Scheduler.Spawn, Rings.Valid, Rings.Nodes, Rings.Lists;
      SpawnIs(s, t, p, k);
      tcbs := tcbs[t := Tcb(p, READY, tcbs[running].detail)];
      TieNode(x, READY, at, false, k);
    }

    /** thread_lists[RUNNING_STATE]->data */
    method RunningThread(ghost s: Sched) returns (t: Tid)
      requires Valid() && Shows(s) && Inv(s)
      ensures Same() && t == Scheduler.Running(s)
    {
      hide Ring, Distinct, DataOf, Apart, AllOf, NodesFrom, ListsFrom;
      assert |heads[RUNNING].Contents()| == 1;
      t := heads[RUNNING].front.data;
    }

    /** The insertion of fork_ctrl_blk: nobody of the new process is ready yet, so the
        thread goes behind all of them. */
    method Fork(t: Tid, p: Pid, x: Node<Tid>, ghost s: Sched)
      requires Valid() && Shows(s) && Inv(s) && t !in tcbs && p !in s.threads
      requires x.data == t && forall q :: 0 <= q < LIST_COUNT ==> x !in Nodes()[q]
      modifies this, heads, NodeSet(heads), x
      ensures Valid() && NodeSet(heads) == old(NodeSet(heads)) + {x} && Shows(Scheduler.Spawn(s, t, p))
    {
      hide Inv, Place, Ring, Distinct, DataOf, Apart, AllOf, NodesFrom, ListsFrom, GroupEnd, Scheduler.Spawn, Rings.Valid, Rings.Nodes, Rings.Lists;
      NewProcess(s, p);
      var running := RunningThread(s);
      var at;
      ghost var k;
      at, k := FindEnd(READY, false);
      Enter(t, p, running, x, at, k, s);
    }

    /** The list surgery of handle_wait: every node of the terminated list goes, and the
        blocks of the dead process. */
    method Bury(p: Pid, ghost s: Sched)
      requires Valid() && Shows(s) && Inv(s) && forall t :: t in s.tcbs && s.tcbs[t].pcb == p ==> s.tcbs[t].state == TERMINATED
      modifies this, heads, NodeSet(heads)
      ensures Valid() && Shows(Scheduler.Bury(s, p)) && NodeSet(heads) <= old(NodeSet(heads))
    {
      hide Inv, Ring, Distinct, DataOf, Apart, AllOf, NodesFrom, ListsFrom, List.Valid, List.Contents, Rings.Nodes, Rings.Lists, Rings.Valid;
      FrontIs(TERMINATED);
      while heads[TERMINATED].front != null
        invariant Valid() && NodeSet(heads) <= old(NodeSet(heads)) && tcbs == s.tcbs
        invariant Lists() == s.lists[TERMINATED := Lists()[TERMINATED]]
        invariant heads[TERMINATED].front == null <==> Lists()[TERMINATED] == []
        decreases |Lists()[TERMINATED]|
      {
        PopTerminated();
      }
      tcbs := map t | t in tcbs && tcbs[t].pcb != p :: tcbs[t];
    }

    /** The front of a ring is null exactly when the list is empty. */
    lemma FrontIs(j: nat)
      requires Valid() && j < LIST_COUNT
      ensures heads[j].front == null <==> Lists()[j] == []
      ensures |Nodes()[j]| == |Lists()[j]| && (Lists()[j] != [] ==> heads[j].front == Nodes()[j][0])
    {
    }

    /** POP_FRONT on the terminated list. */
    method PopTerminated()
      requires Valid() && heads[TERMINATED].front != null
      modifies heads, NodeSet(heads)
      ensures Valid() && NodeSet(heads) <= old(NodeSet(heads)) && |old(Lists())[TERMINATED]| > 0
      ensures Lists() == old(Lists())[TERMINATED := old(Lists())[TERMINATED][1..]]
      ensures heads[TERMINATED].front == null <==> Lists()[TERMINATED] == []
    {
      hide Ring, Distinct, DataOf, Apart, AllOf, NodesFrom, ListsFrom, List.Valid, List.Contents, Rings.Nodes, Rings.Lists, Rings.Valid;
      FrontIs(TERMINATED);
      ghost var l := Lists()[TERMINATED];
      NoHead(l);
      CutNode(heads[TERMINATED].front, TERMINATED, 0);
      FrontIs(TERMINATED);
    }

    /** The front of the ready list moves. */
    method TurnReady(node: Node<Tid>, ghost k: nat)
      requires Valid() && k < |heads[READY].nodes| && node == heads[READY].nodes[k]
      modifies heads[READY]
      ensures Valid() && NodeSet(heads) == old(NodeSet(heads))
      ensures Lists() == old(Lists()[READY := Lists()[READY][k..] + Lists()[READY][..k]])
    {
      hide Ring, Distinct, DataOf, Apart, AllOf, NodesFrom, ListsFrom;
      ghost var rings := Nodes();
      TurnApart(rings, READY, k);
      heads[READY].TurnFront(node, k);
      forall q | 0 <= q < LIST_COUNT && q != READY
        ensures heads[q].Valid() && heads[q].Contents() == old(heads[q].Contents()) && heads[q].nodes == old(heads[q].nodes)
      {
        assert heads[q] != heads[READY];
        KeptList(heads[q]);
      }
      OthersKept(READY);
      assert Nodes() == rings[READY := rings[READY][k..] + rings[READY][..k]];
    }

    /** The walk of round_robin: the first ready thread of another process than the first
        one's, or the front again. */
    method FindOther() returns (node: Node<Tid>, ghost k: nat)
      requires |heads| == LIST_COUNT && heads[READY].Valid() && heads[READY].front != null
      requires forall t :: t in heads[READY].Contents() ==> t in tcbs
      ensures k < |heads[READY].nodes| && node == heads[READY].nodes[k] && k == Scheduler.TurnBy(heads[READY].Contents(), tcbs, 1)
    {
      hide Ring, Distinct, DataOf;
      ghost var l := heads[READY].Contents();
      var first := heads[READY].front;
      RingStep(heads[READY].nodes, 0);
      node, k := first.next, 1;
      while node != first
        invariant 1 <= k <= |l| && node == heads[READY].nodes[if k < |l| then k else 0] && (k < |l| ==> node != first)
        invariant Scheduler.TurnBy(l, tcbs, 1) == Scheduler.TurnBy(l, tcbs, k)
        decreases |l| - k
      {
        if tcbs[node.data].pcb != tcbs[first.data].pcb {
          return;
        }
        RingStep(heads[READY].nodes, k);
        node, k := node.next, k + 1;
      }
      k := 0;
    }

    /** round_robin: the head of the ready list moves. */
    method RoundRobin(ghost s: Sched) returns (r: Option<Tid>)
      requires Valid() && Shows(s) && Inv(s)
      modifies heads[READY]
      ensures Valid() && NodeSet(heads) == old(NodeSet(heads))
      ensures if s.lists[READY] == [] then r == None && Shows(s) else r == Some(s.lists[READY][0]) && Shows(Scheduler.Rotate(s))
    {
      hide Complete, Rostered, SleepSorted, Grouped, NoDuplicates, Ring, Distinct, DataOf, Apart, AllOf, NodesFrom, ListsFrom;
      ghost var l := heads[READY].Contents();
      assert forall t :: t in l ==> t in tcbs;
      if heads[READY].front == null {
        return None;
      }
      r := Some(heads[READY].front.data);
      var node;
      ghost var k;
      node, k := FindOther();
      TurnReady(node, k);
    }
  }

  lemma SpawnIs(s: Sched, t: Tid, p: Pid, k: nat)
    requires Inv(s) && t !in s.tcbs && (forall u :: u in s.lists[READY] ==> u in s.tcbs) && k == GroupEnd(s.lists[READY], s.tcbs, p)
    ensures |s.lists| == LIST_COUNT && k <= |s.lists[READY]|
    ensures Scheduler.Spawn(s, t, p).lists == s.lists[READY := s.lists[READY][..k] + [t] + s.lists[READY][k..]]
    ensures Scheduler.Spawn(s, t, p).tcbs == s.tcbs[t := Tcb(p, READY, s.tcbs[Scheduler.Running(s)].detail)]
  {
  }

  /** A process without threads has none that is ready. */
  lemma NewProcess(s: Sched, p: Pid)
    requires Inv(s) && p !in s.threads
    ensures (forall t :: t in s.lists[READY] ==> t in s.tcbs) && GroupEnd(s.lists[READY], s.tcbs, p) == |s.lists[READY]|
  {
    assert forall i :: 0 <= i < |s.lists[READY]| ==> s.lists[READY][i] in s.lists[READY];
    KernelThreads.GroupEndUnique(s.lists[READY], s.tcbs, p, |s.lists[READY]|);
  }

  /** A node to go before, and whether to become the front, for position `k` of a ring. */
  ghost predicate Place(ns: seq<Node<Tid>>, at: Node?<Tid>, frontPushed: bool, k: nat) {
    && k <= |ns|
    && at == (if ns == [] then null else ns[if k < |ns| then k else 0])
    && (ns != [] ==> (frontPushed <==> k == 0))
  }

  /** The place found in a list is still good once the node is gone; a node alone in its list
      was found before itself. */
  lemma CutPlace(rings: seq<seq<Node<Tid>>>, src: nat, i: nat, dst: nat, k: nat, at: Node?<Tid>, frontPushed: bool)
    requires src < |rings| && dst < |rings| && i < |rings[src]| && Place(rings[dst], at, frontPushed, k)
    requires src == dst ==> |rings[src]| == 1 && k == 0
    ensures var cut := rings[src := rings[src][..i] + rings[src][i + 1..]];
            Place(cut[dst], at, frontPushed, k) || (cut[dst] == [] && at == rings[src][i] && frontPushed && k == 0 && |rings[src]| == 1)
  {
  }

  lemma StepBack(ns: seq<Node<Tid>>, i: nat)
    requires Ring(ns) && i < |ns|
    ensures ns[i].previous == ns[if i == 0 then |ns| - 1 else i - 1] && ns[0].previous == ns[|ns| - 1]
    ensures i > 0 ==> ns[i - 1] != ns[|ns| - 1]
  {
    Neighbours(ns, i);
    RingEnds(ns);
  }

  ghost function NodesFrom(heads: seq<List<Tid>>): (r: seq<seq<Node<Tid>>>)
    reads heads
    ensures |r| == |heads| && forall i :: 0 <= i < |heads| ==> r[i] == heads[i].nodes
  {
    if heads == [] then [] else [heads[0].nodes] + NodesFrom(heads[1..])
  }

  ghost function ListsFrom(heads: seq<List<Tid>>): (r: seq<seq<Tid>>)
    reads heads, NodeSet(heads)
    ensures |r| == |heads| && forall i :: 0 <= i < |heads| ==> r[i] == heads[i].Contents()
  {
    if heads == [] then []
    else
      assert forall i, n :: 0 <= i < |heads| - 1 && n in heads[1..][i].nodes ==> n in heads[i + 1].nodes;
      [heads[0].Contents()] + ListsFrom(heads[1..])
  }

  ghost function NodeSet(heads: seq<List<Tid>>): (r: set<Node<Tid>>)
    reads heads
    ensures forall i, n :: 0 <= i < |heads| && n in heads[i].nodes ==> n in r
  {
    AllOf(NodesFrom(heads))
  }
}
