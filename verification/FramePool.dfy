/** Physical frames: the sorted pool the allocator hands out from, and what is in RAM. */
module FramePool {
  import opened Basics

  const PAGE_SIZE: nat := 0x1000
  const USER_PAGE_START: nat := 0x100_0000
  const ZERO_FRAME: nat := USER_PAGE_START

  /** The bytes of one frame. */
  type Contents = c: seq<bv8> | |c| == PAGE_SIZE witness seq(PAGE_SIZE, _ => 0)

  function Zeros(): Contents { seq(PAGE_SIZE, _ => 0) }

  /** What a frame holds; frames never written hold zeros. */
  function Holds(ram: map<nat, Contents>, f: nat): Contents { if f in ram then ram[f] else Zeros() }

  /** A frame the allocator manages: a frame address in user memory, other than the
      shared zero frame. */
  predicate Pooled(f: nat) { f > ZERO_FRAME && f % PAGE_SIZE == 0 }

  ghost predicate Ascending(l: seq<nat>) {
    forall i, j :: 0 <= i < j < |l| ==> l[i] < l[j]
  }

  ghost function Members(l: seq<nat>): set<nat> { set f | f in l }

  /** The pool's invariant: ascending, hence without duplicates, and managed frames only. */
  ghost predicate ValidPool(l: seq<nat>) {
    Ascending(l) && forall f :: f in l ==> Pooled(f)
  }

  /** An ascending list is determined by its members, so giving back what was taken
      restores the very same list. */
  lemma {:induction false} PoolUnique(l: seq<nat>, m: seq<nat>)
    requires Ascending(l) && Ascending(m) && Members(l) == Members(m)
    ensures l == m
  {
    assert l != [] ==> l[0] in Members(l);
    assert m != [] ==> m[0] in Members(m);
    if l != [] && m != [] {
      assert l[0] in Members(m) && m[0] in Members(l);
      assert l[0] == m[0];
      forall f
        ensures f in l[1..] <==> f in m[1..]
      {
        assert f in l[1..] <==> f in Members(l) && f != l[0];
        assert f in m[1..] <==> f in Members(m) && f != m[0];
      }
      PoolUnique(l[1..], m[1..]);
    }
  }

  lemma TailMembers(l: seq<nat>)
    requires l != [] && Ascending(l)
    ensures Ascending(l[1..])
    ensures Members(l[1..]) == Members(l) - {l[0]}
  {
    forall f
      ensures f in l[1..] <==> f in l && f != l[0]
    {
    }
  }

  lemma InsertMembers(l: seq<nat>, k: nat, f: nat)
    requires k <= |l| && Ascending(l)
    requires forall i :: 0 <= i < k ==> l[i] < f
    requires k < |l| ==> f < l[k]
    ensures Ascending(l[..k] + [f] + l[k..])
    ensures Members(l[..k] + [f] + l[k..]) == Members(l) + {f}
  {
    var r := l[..k] + [f] + l[k..];
    assert forall i :: 0 <= i < |r| ==> r[i] == if i < k then l[i] else if i == k then f else l[i - 1];
    forall g
      ensures g in r <==> g in l || g == f
    {
      if i :| 0 <= i < |l| && l[i] == g {
        assert r[if i < k then i else i + 1] == g;
      }
      assert r[k] == f;
      if i :| 0 <= i < |r| && r[i] == g {
        assert g == f || g == l[if i < k then i else i - 1];
      }
    }
  }

  /** The address of the i-th user frame. */
  function FrameAddress(i: nat): (f: nat)
    ensures i > 0 ==> Pooled(f)
  {
    USER_PAGE_START + i * PAGE_SIZE
  }

  /** The user frames but the first: the multiples of the page size strictly between the
      zero frame and the end of the user frames. */
  lemma UserFrames(frameCount: nat, f: nat)
    ensures f in (set i | 0 < i < frameCount :: FrameAddress(i)) <==> 0x100_0000 < f < 0x100_0000 + frameCount * 0x1000 && f % 0x1000 == 0
  {
    if 0x100_0000 < f < 0x100_0000 + frameCount * 0x1000 && f % 0x1000 == 0 {
      var i := (f - 0x100_0000) / 0x1000;
      assert f == FrameAddress(i);
    }
  }

  /** A cleared page holds a zero in each of its 4096 bytes. */
  lemma ClearedBytes(i: nat)
    ensures |Zeros()| == 0x1000 && (i < 0x1000 ==> Zeros()[i] == 0)
  {
  }

  lemma InitialPool(l: seq<nat>, frameCount: nat)
    requires frameCount > 0 && |l| == frameCount - 1
    requires forall j :: 0 <= j < |l| ==> l[j] == FrameAddress(j + 1)
    ensures ValidPool(l)
    ensures Members(l) == set i | 0 < i < frameCount :: FrameAddress(i)
  {
    forall f
      ensures f in l <==> f in set i | 0 < i < frameCount :: FrameAddress(i)
    {
      if i :| 0 < i < frameCount && f == FrameAddress(i) {
        assert l[i - 1] == f;
      }
    }
  }

  class Memory {
    var allocList: seq<nat>
    var ram: map<nat, Contents>

    ghost predicate Valid()
      reads this
    {
      ValidPool(allocList) && ZERO_FRAME in ram && ram[ZERO_FRAME] == Zeros()
    }

    /** init_allocator, given the number of user frames. */
    constructor (frameCount: nat)
      requires frameCount > 0
      ensures Valid()
      ensures Members(allocList) == set i | 0 < i < frameCount :: FrameAddress(i)
      ensures forall f: nat :: f in allocList <==> 0x100_0000 < f < 0x100_0000 + frameCount * 0x1000 && f % 0x1000 == 0
      ensures ram == map[ZERO_FRAME := Zeros()]
    {
      var l: seq<nat> := [];
      var i := 0;
      while i < frameCount
        invariant 0 <= i <= frameCount
        invariant |l| == if i == 0 then 0 else i - 1
        invariant forall j :: 0 <= j < |l| ==> l[j] == FrameAddress(j + 1)
      {
        var frame := FrameAddress(i);
        if frame != ZERO_FRAME {
          l := l + [frame];
        }
        i := i + 1;
      }
      allocList := l;
      ram := map[ZERO_FRAME := Zeros()];
      InitialPool(l, frameCount);
      forall f: nat
        ensures f in l <==> 0x100_0000 < f < 0x100_0000 + frameCount * 0x1000 && f % 0x1000 == 0
      {
        UserFrames(frameCount, f);
        assert f in l <==> f in Members(l);
      }
    }

    /** What a frame holds. */
    function At(f: nat): Contents
      reads this
    {
      Holds(ram, f)
    }

    /** alloc_frame */
    method AllocFrame() returns (f: Option<nat>)
      requires Valid()
      modifies this`allocList
      ensures Valid()
      ensures old(allocList) == [] ==> f == None && allocList == []
      ensures old(allocList) != [] ==> f == Some(old(allocList[0])) && allocList == old(allocList[1..])
      ensures f.Some? ==> Members(allocList) == old(Members(allocList)) - {f.value} && f.value in old(Members(allocList))
    {
      if allocList == [] {
        return None;
      }
      TailMembers(allocList);
      f := Some(allocList[0]);
      allocList := allocList[1..];
    }

    /** free_frame. A frame already in the pool, a kernel frame or the zero frame changes
        nothing. `node` is the kernel heap's answer for a list node; where it is refused the
        frame is lost. */
    method FreeFrame(pAddr: nat, node: bool) returns (rc: int)
      requires Valid()
      modifies this`allocList
      ensures Valid()
      ensures var frame := pAddr / PAGE_SIZE * PAGE_SIZE;
              && Members(allocList) == old(Members(allocList)) + (if Pooled(frame) && node then {frame} else {})
              && rc == if Pooled(frame) && frame !in old(Members(allocList)) && !node then -1 else 0
    {
      var frame := pAddr / PAGE_SIZE * PAGE_SIZE;
      rc := 0;
      if frame >= USER_PAGE_START && frame != ZERO_FRAME {
        rc := InsertFrame(frame, node);
      }
    }

    /** The ordered, duplicate-checking insertion of free_frame. */
    method InsertFrame(frame: nat, node: bool) returns (rc: int)
      requires Valid() && Pooled(frame)
      modifies this`allocList
      ensures Valid()
      ensures Members(allocList) == old(Members(allocList)) + if node then {frame} else {}
      ensures rc == if frame !in old(Members(allocList)) && !node then -1 else 0
    {
      if allocList == [] || allocList[0] > frame {
        if !node {
          return -1;
        }
        InsertMembers(allocList, 0, frame);
        allocList := [frame] + allocList;
        assert [frame] + old(allocList) == old(allocList)[..0] + [frame] + old(allocList)[0..];
      } else {
        var i := FindSlot(frame);
        if allocList[i] != frame {
          if !node {
            return -1;
          }
          InsertMembers(allocList, i + 1, frame);
          allocList := allocList[..i + 1] + [frame] + allocList[i + 1..];
        } else {
          assert frame in allocList;
        }
      }
      rc := 0;
    }

    /** The walk of free_frame: the last frame not above `frame`. */
    method FindSlot(frame: nat) returns (i: nat)
      requires Valid() && allocList != [] && allocList[0] <= frame
      ensures i < |allocList| && allocList[i] <= frame
      ensures i + 1 < |allocList| ==> allocList[i + 1] > frame
    {
      i := 0;
      while i + 1 < |allocList| && allocList[i + 1] <= frame
        invariant 0 <= i < |allocList| && allocList[i] <= frame
      {
        i := i + 1;
      }
    }

    /** memset of a whole frame to zero, through whatever page maps it. */
    method ClearFrame(f: nat)
      requires Valid()
      modifies this`ram
      ensures Valid() && ram == old(ram)[f := Zeros()]
      ensures f in ram && forall i :: 0 <= i < 0x1000 ==> ram[f][i] == 0
    {
      ram := ram[f := Zeros()];
    }

    /** memmove of a whole page onto a frame. */
    method FillFrame(f: nat, data: Contents)
      requires Valid() && f != ZERO_FRAME
      modifies this`ram
      ensures Valid() && ram == old(ram)[f := data]
    {
      ram := ram[f := data];
    }
  }
}
