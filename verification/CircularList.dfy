/** The circular doubly linked lists of the kernel and of the thread library, down to their
    links. */
module CircularList {

  class Node<T> {
    var previous: Node?<T>
    var next: Node?<T>
    var data: T

    constructor (d: T)
      ensures data == d && next == null && previous == null
    {
      data := d;
      next := null;
      previous := null;
    }
  }

  /** The position after `i` on a ring of `n`. */
  function After(i: nat, n: nat): (j: nat)
    requires i < n
    ensures j < n
  {
    if i + 1 == n then 0 else i + 1
  }

  ghost predicate Distinct<T>(ns: seq<Node<T>>) { forall i, j :: 0 <= i < j < |ns| ==> ns[i] != ns[j] }

  /** Each node links to the one after it and that one links back. */
  ghost predicate Ring<T>(ns: seq<Node<T>>)
    reads ns
  {
    && Distinct(ns)
    && forall i :: 0 <= i < |ns| ==> ns[i].next == ns[After(i, |ns|)] && ns[After(i, |ns|)].previous == ns[i]
  }

  ghost function DataOf<T>(ns: seq<Node<T>>): (r: seq<T>)
    reads ns
    ensures |r| == |ns| && forall i :: 0 <= i < |ns| ==> r[i] == ns[i].data
  {
    if ns == [] then [] else [ns[0].data] + DataOf(ns[1..])
  }

  /** The last node is the one before the first. */
  lemma RingEnds<T>(ns: seq<Node<T>>)
    requires Ring(ns) && ns != []
    ensures ns[0].previous == ns[|ns| - 1] && ns[|ns| - 1].next == ns[0]
    ensures (ns[0] == ns[0].next <==> |ns| == 1) && (ns[0] == ns[0].previous <==> |ns| == 1)
  {
    assert After(|ns| - 1, |ns|) == 0;
    assert |ns| > 1 ==> ns[0].next == ns[1];
  }

  class List<T> {
    var front: Node?<T>
    ghost var nodes: seq<Node<T>>

    ghost predicate Valid()
      reads this, nodes
    {
      Ring(nodes) && front == if nodes == [] then null else nodes[0]
    }

    /** The elements from the front on. */
    ghost function Contents(): seq<T>
      reads this, nodes
    {
      DataOf(nodes)
    }

    constructor ()
      ensures Valid() && nodes == [] && Contents() == []
    {
      front := null;
      nodes := [];
    }

    /** The links written when node `x` goes between the last node and the front. */
    method Link(x: Node<T>)
      requires Valid() && x !in nodes
      modifies nodes, x
      ensures Ring(nodes + [x]) && x.data == old(x.data) && forall n :: n in nodes ==> n.data == old(n.data)
    {
      if front == null {
        x.previous := x;
        x.next := x;
      } else {
        TieBefore(x, front, nodes);
      }
    }

    /** The insertion of alter_state: node `x` goes before node `at`, and becomes the front
        if it is pushed there. Where `x` has just left this very list, `at` is `x`. */
    method InsertBefore(x: Node<T>, at: Node?<T>, frontPushed: bool, ghost k: nat)
      requires Valid() && x !in nodes && k <= |nodes|
      requires nodes == [] ==> at == null || (at == x && frontPushed && x.next == x && x.previous == x)
      requires nodes != [] ==> at == nodes[if k < |nodes| then k else 0] && (frontPushed <==> k == 0)
      modifies this, nodes, x
      ensures Valid() && nodes == old(nodes)[..k] + [x] + old(nodes)[k..] && x.data == old(x.data)
      ensures Contents() == old(Contents())[..k] + [x.data] + old(Contents())[k..]
    {
      hide DataOf, Ring, Distinct;
      ghost var a, b := nodes[..k], nodes[k..];
      ghost var was := Contents();
      TurnTo(nodes, k);
      if at == null {
        x.next := x;
        x.previous := x;
        front := x;
        LoneRing(x);
        assert a + [x] + b == [x];
      } else {
        TieBefore(x, at, b + a);
        TiedAt(x, a, b);
        if frontPushed {
          front := x;
        }
      }
      nodes := a + [x] + b;
      assert nodes[0] == if k == 0 then x else old(nodes)[0];
      assert Contents() == was[..k] + [x.data] + was[k..];
    }

    /** The front moves to another node, as in round_robin. */
    method TurnFront(node: Node<T>, ghost k: nat)
      requires Valid() && k < |nodes| && node == nodes[k]
      modifies this
      ensures Valid() && nodes == old(nodes)[k..] + old(nodes)[..k]
      ensures Contents() == old(Contents())[k..] + old(Contents())[..k]
    {
      hide DataOf, Ring, Distinct;
      TurnTo(nodes, k);
      ghost var was := Contents();
      front := node;
      nodes := nodes[k..] + nodes[..k];
      assert Contents() == was[k..] + was[..k];
    }

    /** PUSH_BACK, and append_node of the library; `grant` is the allocator's answer. */
    method PushBack(d: T, grant: bool) returns (success: bool)
      requires Valid()
      modifies this, nodes
      ensures Valid() && fresh(set n | n in nodes && n !in old(nodes))
      ensures success == grant && Contents() == if success then old(Contents()) + [d] else old(Contents())
    {
      success := grant;
      if success {
        var x := new Node(d);
        Link(x);
        if front == null {
          front := x;
        }
        nodes := nodes + [x];
        assert Contents() == old(Contents()) + [d];
      }
    }

    /** PUSH_FRONT: the same links, and another front. */
    method PushFront(d: T, grant: bool) returns (success: bool)
      requires Valid()
      modifies this, nodes
      ensures Valid() && fresh(set n | n in nodes && n !in old(nodes))
      ensures success == grant && Contents() == if success then [d] + old(Contents()) else old(Contents())
    {
      hide Ring, Distinct, DataOf;
      success := grant;
      if success {
        var x := new Node(d);
        Link(x);
        Rotate(nodes, x);
        front := x;
        nodes := [x] + nodes;
        assert Contents() == [d] + old(Contents());
      }
    }

    /** POP_FRONT: the removal of the front node. */
    method PopFront()
      requires Valid() && front != null
      modifies this, nodes
      ensures Valid() && nodes == old(nodes)[1..] && Contents() == old(Contents())[1..]
    {
      hide Ring, Distinct, DataOf;
      NoHead(nodes);
      NoHead(Contents());
      RemoveAt(front, 0);
    }

    /** POP_BACK */
    method PopBack()
      requires Valid() && front != null
      modifies this, nodes
      ensures var n := |old(nodes)| - 1;
              Valid() && nodes == old(nodes)[..n] && Contents() == old(Contents())[..n]
    {
      hide Ring, Distinct, DataOf;
      RingEnds(nodes);
      ghost var n := |nodes| - 1;
      var oldBack := front.previous;
      if front == front.previous {
        front := null;
      }
      ghost var rest := nodes[..n];
      assert nodes[..n] + nodes[n + 1..] == rest;
      ghost var was := Contents();
      Unlink(oldBack, nodes, n);
      DataCut(nodes, was, n);
      assert was[..n] + was[n + 1..] == was[..n];
      nodes := rest;
    }

    /** remove_node: search for a node and take it out; a node that is not in the list
        changes nothing. */
    method RemoveNode(node: Node<T>)
      requires Valid()
      modifies this, nodes
      ensures Valid()
      ensures node !in old(nodes) ==> nodes == old(nodes) && Contents() == old(Contents())
      ensures forall k :: 0 <= k < |old(nodes)| && old(nodes)[k] == node ==>
                nodes == old(nodes)[..k] + old(nodes)[k + 1..] && Contents() == old(Contents())[..k] + old(Contents())[k + 1..]
    {
      if front == null {
        return;
      }
      var current := front;
      ghost var i := 0;
      while true
        invariant nodes == old(nodes) && i < |nodes| && current == nodes[i] && Valid() && Contents() == old(Contents())
        invariant forall j :: 0 <= j < i ==> nodes[j] != node
        decreases |nodes| - i
      {
        if current == node {
          RemoveAt(current, i);
          break;
        }
        RingStep(nodes, i);
        assert forall j :: 0 <= j < i + 1 ==> nodes[j] != node;
        current := current.next;
        i := i + 1;
        if current == front {
          break;
        }
      }
    }

    /** The removal itself. */
    method RemoveAt(current: Node<T>, ghost k: nat)
      requires Valid() && k < |nodes| && current == nodes[k]
      modifies this, nodes
      ensures Valid() && nodes == old(nodes)[..k] + old(nodes)[k + 1..]
      ensures Contents() == old(Contents())[..k] + old(Contents())[k + 1..]
      ensures forall j :: 0 <= j < |old(nodes)| && old(nodes)[j] == current ==> j == k
      ensures current.data == old(current.data)
      ensures |old(nodes)| == 1 ==> current.next == current && current.previous == current
    {
      hide DataOf, Ring, Distinct;
      RingEnds(nodes);
      OnlyPlace(nodes, k);
      if front == current {
        if front == front.next {
          front := null;
        } else {
          front := front.next;
        }
      }
      ghost var was := Contents();
      Unlink(current, nodes, k);
      DataCut(nodes, was, k);
      nodes := nodes[..k] + nodes[k + 1..];
    }

    /** The splice of wait: the ring of `other` goes between the last node and the front. */
    method Splice(other: List<T>)
      requires Valid() && other.Valid() && other != this && front != null && other.front != null
      requires forall n :: n in nodes ==> n !in other.nodes
      modifies this, nodes, other.nodes
      ensures Valid() && nodes == old(nodes) + old(other.nodes)
      ensures Contents() == old(Contents()) + old(other.Contents())
    {
      hide DataOf, Ring, Distinct;
      Tie(front, other.front, nodes, other.nodes);
      nodes := nodes + other.nodes;
      assert Contents() == old(Contents()) + old(other.Contents());
    }
  }

  /** A list none of whose nodes was written is the list it was. */
  twostate lemma KeptList<T>(l: List<T>)
    requires l.front == old(l.front) && l.nodes == old(l.nodes)
    requires forall n :: n in l.nodes ==> n.next == old(n.next) && n.previous == old(n.previous) && n.data == old(n.data)
    ensures l.Contents() == old(l.Contents()) && (old(l.Valid()) ==> l.Valid())
  {
    KeptNodes(l.nodes);
    hide DataOf, Ring;
  }

  twostate lemma KeptNodes<T>(ns: seq<Node<T>>)
    requires forall n :: n in ns ==> n.next == old(n.next) && n.previous == old(n.previous) && n.data == old(n.data)
    ensures DataOf(ns) == old(DataOf(ns)) && (old(Ring(ns)) ==> Ring(ns))
  {
    hide DataOf, Distinct;
    forall i | 0 <= i < |ns|
      ensures DataOf(ns)[i] == old(DataOf(ns))[i]
      ensures old(Ring(ns)) ==> ns[i].next == ns[After(i, |ns|)] && ns[After(i, |ns|)].previous == ns[i]
    {
      assert ns[i] in ns && ns[After(i, |ns|)] in ns;
    }
  }

  /** The links written when node `k` is taken out of a ring. */
  method Unlink<T>(x: Node<T>, ghost ns: seq<Node<T>>, ghost k: nat)
    requires Ring(ns) && k < |ns| && x == ns[k]
    modifies ns
    ensures Ring(ns[..k] + ns[k + 1..]) && forall n :: n in ns ==> n.data == old(n.data)
    ensures |ns| == 1 ==> x.next == x && x.previous == x
  {
    Neighbours(ns, k);
    x.previous.next := x.next;
    x.next.previous := x.previous;
    Unlinked(ns, k);
  }

  /** The links written when a node is put before the first of a ring. */
  method TieBefore<T>(x: Node<T>, at: Node<T>, ghost ns: seq<Node<T>>)
    requires Ring(ns) && x !in ns
    requires if ns == [] then at == x && x.next == x && x.previous == x else at == ns[0]
    modifies ns, x
    ensures Ring(ns + [x]) && x.data == old(x.data) && forall n :: n in ns ==> n.data == old(n.data)
  {
    if ns != [] { RingEnds(ns); }
    x.next := at;
    x.previous := at.previous;
    x.next.previous := x;
    x.previous.next := x;
  }

  lemma LoneRing<T>(x: Node<T>)
    requires x.next == x && x.previous == x
    ensures Ring([x])
  {
  }

  /** The node is in its place, whichever node the ring is read from. */
  lemma TiedAt<T>(x: Node<T>, a: seq<Node<T>>, b: seq<Node<T>>)
    requires Ring(b + a + [x])
    ensures Ring(a + [x] + b)
  {
    assert b + a + [x] == b + (a + [x]);
    RotateBy(b, a + [x]);
  }

  lemma TurnTo<T>(ns: seq<Node<T>>, k: nat)
    requires Ring(ns) && k <= |ns|
    ensures Ring(ns[k..] + ns[..k])
  {
    assert ns == ns[..k] + ns[k..];
    RotateBy(ns[..k], ns[k..]);
  }

  lemma {:induction false} RotateBy<T>(ns: seq<Node<T>>, ms: seq<Node<T>>)
    requires Ring(ns + ms)
    ensures Ring(ms + ns)
    decreases |ms|
  {
    if ms == [] {
      assert ms + ns == ns + ms;
    } else {
      var last, rest := ms[|ms| - 1], ms[..|ms| - 1];
      assert ns + ms == (ns + rest) + [last];
      Rotate(ns + rest, last);
      assert [last] + (ns + rest) == ([last] + ns) + rest;
      RotateBy([last] + ns, rest);
      assert rest + ([last] + ns) == ms + ns;
    }
  }

  /** The links written when one ring is put behind another. */
  method Tie<T>(first: Node<T>, head: Node<T>, ghost ns: seq<Node<T>>, ghost ms: seq<Node<T>>)
    requires Ring(ns) && Ring(ms) && ns != [] && ms != [] && first == ns[0] && head == ms[0]
    requires forall n :: n in ns ==> n !in ms
    modifies ns, ms
    ensures Ring(ns + ms) && forall n :: n in ns + ms ==> n.data == old(n.data)
  {
    hide Ring, Chain, Distinct;
    RingEnds(ns);
    RingEnds(ms);
    Inner(ns);
    Inner(ms);
    var last := head.previous;
    var back := first.previous;
    LinkNodes(back, head, ns, ms);
    LinkNodes(last, first, ms, ns);
    Joined(ns, ms);
  }

  /** The end of one list made to precede the head of another. */
  method LinkNodes<T>(back: Node<T>, head: Node<T>, ghost ns: seq<Node<T>>, ghost ms: seq<Node<T>>)
    requires Chain(ns) && Chain(ms) && ns != [] && ms != [] && forall n :: n in ns ==> n !in ms
    requires back == ns[|ns| - 1] && head == ms[0] && head !in ms[1..] && back !in ns[..|ns| - 1]
    modifies back`next, head`previous
    ensures Chain(ns) && Chain(ms) && back.next == head && head.previous == back
  {
    back.next := head;
    head.previous := back;
    forall i | 1 <= i < |ns|
      ensures ns[i - 1].next == ns[i] && ns[i].previous == ns[i - 1]
    {
      assert ns[i - 1] == ns[..|ns| - 1][i - 1] && ns[i] in ns;
    }
    forall i | 1 <= i < |ms|
      ensures ms[i - 1].next == ms[i] && ms[i].previous == ms[i - 1]
    {
      assert ms[i] == ms[1..][i - 1] && ms[i - 1] in ms;
    }
  }

  /** The links inside a list of nodes. */
  ghost predicate Chain<T>(ns: seq<Node<T>>)
    reads ns
  {
    forall i :: 1 <= i < |ns| ==> ns[i - 1].next == ns[i] && ns[i].previous == ns[i - 1]
  }

  lemma Inner<T>(ns: seq<Node<T>>)
    requires Ring(ns) && ns != []
    ensures Chain(ns) && Distinct(ns)
    ensures ns[0] !in ns[1..] && ns[|ns| - 1] !in ns[..|ns| - 1]
  {
    forall i | 1 <= i < |ns|
      ensures ns[i - 1].next == ns[i] && ns[i].previous == ns[i - 1]
    {
      assert After(i - 1, |ns|) == i;
    }
  }

  /** A ring may be read from any of its nodes on. */
  lemma Rotate<T>(ns: seq<Node<T>>, x: Node<T>)
    requires Ring(ns + [x])
    ensures Ring([x] + ns)
  {
    var l, r := ns + [x], [x] + ns;
    forall i | 0 <= i < |r|
      ensures r[i].next == r[After(i, |r|)] && r[After(i, |r|)].previous == r[i]
    {
      RotateLinks(ns, x, i);
    }
    forall i, j | 0 <= i < j < |r|
      ensures r[i] != r[j]
    {
      RotateIndex(ns, x, i);
      RotateIndex(ns, x, j);
    }
  }

  function Rotated(i: nat, n: nat): nat
    requires i < n
  {
    if i == 0 then n - 1 else i - 1
  }

  lemma RotateIndex<T>(ns: seq<Node<T>>, x: Node<T>, i: nat)
    requires i <= |ns|
    ensures ([x] + ns)[i] == (ns + [x])[Rotated(i, |ns| + 1)]
  {
  }

  lemma RotateLinks<T>(ns: seq<Node<T>>, x: Node<T>, i: nat)
    requires Ring(ns + [x]) && i <= |ns|
    ensures var r := [x] + ns; r[i].next == r[After(i, |r|)] && r[After(i, |r|)].previous == r[i]
  {
    var l, n := ns + [x], |ns| + 1;
    var o := Rotated(i, n);
    RotateIndex(ns, x, i);
    RotateIndex(ns, x, After(i, n));
    assert l[o].next == l[After(o, n)] && l[After(o, n)].previous == l[o];
    assert Rotated(After(i, n), n) == After(o, n);
  }

  lemma Neighbours<T>(ns: seq<Node<T>>, k: nat)
    requires Ring(ns) && k < |ns|
    ensures ns[k].next == ns[After(k, |ns|)] && ns[k].previous == ns[if k == 0 then |ns| - 1 else k - 1]
  {
    var i := if k == 0 then |ns| - 1 else k - 1;
    assert After(i, |ns|) == k;
  }

  /** Without node `k`, whose neighbours now link to each other, the rest is a ring. */
  lemma Unlinked<T>(ns: seq<Node<T>>, k: nat)
    requires Distinct(ns) && k < |ns|
    requires forall i :: 0 <= i < |ns| && i != k && After(i, |ns|) != k ==> ns[i].next == ns[After(i, |ns|)]
    requires forall i :: 0 <= i < |ns| && i != k && After(i, |ns|) != k ==> ns[After(i, |ns|)].previous == ns[i]
    requires |ns| > 1 ==> var p, q := Rotated(k, |ns|), After(k, |ns|); ns[p].next == ns[q] && ns[q].previous == ns[p]
    ensures Ring(ns[..k] + ns[k + 1..])
  {
    var r := ns[..k] + ns[k + 1..];
    forall i, j | 0 <= i < j < |r|
      ensures r[i] != r[j]
    {
      SkipIndex(ns, k, i);
      SkipIndex(ns, k, j);
    }
    forall i | 0 <= i < |r|
      ensures r[i].next == r[After(i, |r|)] && r[After(i, |r|)].previous == r[i]
    {
      SkipIndex(ns, k, i);
      SkipIndex(ns, k, After(i, |r|));
      var o := Skipping(i, k);
      assert After(o, |ns|) == k ==> o == Rotated(k, |ns|) && Skipping(After(i, |r|), k) == After(k, |ns|);
      assert After(o, |ns|) != k ==> Skipping(After(i, |r|), k) == After(o, |ns|);
    }
  }

  function Skipping(i: nat, k: nat): nat { if i < k then i else i + 1 }

  lemma SkipIndex<T>(ns: seq<Node<T>>, k: nat, i: nat)
    requires k < |ns| && i < |ns| - 1
    ensures (ns[..k] + ns[k + 1..])[i] == ns[Skipping(i, k)]
  {
  }

  lemma NoHead<U>(s: seq<U>)
    requires s != []
    ensures s[..0] + s[1..] == s[1..]
  {
  }

  /** The elements of a list without its node `k`. */
  lemma DataCut<T>(ns: seq<Node<T>>, was: seq<T>, k: nat)
    requires k < |ns| == |was| && forall i :: 0 <= i < |ns| ==> ns[i].data == was[i]
    ensures DataOf(ns[..k] + ns[k + 1..]) == was[..k] + was[k + 1..]
  {
    hide DataOf;
    var r := ns[..k] + ns[k + 1..];
    forall i | 0 <= i < |r|
      ensures DataOf(r)[i] == (was[..k] + was[k + 1..])[i]
    {
      SkipIndex(ns, k, i);
    }
  }

  lemma OnlyPlace<T>(ns: seq<Node<T>>, k: nat)
    requires Ring(ns) && k < |ns|
    ensures forall j :: 0 <= j < |ns| && ns[j] == ns[k] ==> j == k
    ensures |ns| > 1 ==> ns[0].next == ns[1]
  {
    assert |ns| > 1 ==> After(0, |ns|) == 1;
  }

  lemma RingStep<T>(ns: seq<Node<T>>, i: nat)
    requires Ring(ns) && i < |ns|
    ensures ns[i].next == ns[After(i, |ns|)]
    ensures After(i, |ns|) == i + 1 <==> i + 1 < |ns|
    ensures i + 1 < |ns| ==> ns[i + 1] != ns[0]
  {
  }

  /** Two rings, cut open and tied together, are one ring. */
  lemma Joined<T>(ns: seq<Node<T>>, ms: seq<Node<T>>)
    requires ns != [] && ms != [] && Distinct(ns) && Distinct(ms) && forall n :: n in ns ==> n !in ms
    requires Chain(ns) && Chain(ms)
    requires ns[|ns| - 1].next == ms[0] && ms[0].previous == ns[|ns| - 1]
    requires ms[|ms| - 1].next == ns[0] && ns[0].previous == ms[|ms| - 1]
    ensures Ring(ns + ms)
  {
    var r := ns + ms;
    assert Distinct(r) by {
      forall i, j | 0 <= i < j < |r|
        ensures r[i] != r[j]
      {
        assert j >= |ns| ==> r[j] == ms[j - |ns|] && r[j] in ms;
        assert i >= |ns| ==> r[i] == ms[i - |ns|];
        assert i < |ns| ==> r[i] == ns[i] && r[i] in ns;
      }
    }
    forall i | 0 <= i < |r|
      ensures r[i].next == r[After(i, |r|)] && r[After(i, |r|)].previous == r[i]
    {
      var j := After(i, |r|);
      assert i >= |ns| ==> r[i] == ms[i - |ns|];
      assert j >= |ns| ==> r[j] == ms[j - |ns|];
      assert |ns| <= i && j == i + 1 ==> ms[j - |ns| - 1] == r[i];
      assert j < |ns| && j == i + 1 ==> ns[j - 1] == r[i] && ns[j] == r[j];
    }
  }
}
