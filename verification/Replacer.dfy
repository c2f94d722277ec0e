/** The globals and functions of Project-3/replacement.c, refining module `Replacement`. */
module Replacer {
  import opened Lists
  import opened FrameList
  import R = Replacement

  /** Either loop of `clock`: the frame found, with its bit set, or `hi`. */
  method Scan(flag: array<int>, lo: int, hi: int) returns (i: int)
    requires 0 <= lo <= hi <= flag.Length
    modifies flag
    ensures i == R.FirstClear(old(flag[..]), lo, hi)
    ensures flag[..] == if i < hi then R.Clear(old(flag[..]), lo, i)[i := 1] else R.Clear(old(flag[..]), lo, hi)
  {
    i := lo;
    ghost var before := flag[..];
    while i < hi
      invariant lo <= i <= hi
      invariant flag[..] == R.Clear(before, lo, i)
      invariant R.FirstClear(before, lo, hi) == R.FirstClear(before, i, hi)
    {
      if flag[i] == 1 {
        flag[i] := 0;
        assert flag[..] == R.Clear(before, lo, i + 1);
      } else {
        flag[i] := 1;
        return;
      }
      i := i + 1;
    }
  }

  class Policies {
    const policy: R.Policy
    const clockFlag: array<int>
    var head: Node?
    var clockIndex: int
    var fifoIndex: int
    var lruFlag: int
    var frameRef: int
    ghost var nodes: seq<Node>
    /** The abstract value of all the fields above; it also records the null dereferences. */
    ghost var state: R.State
    ghost var Repr: set<object>

    ghost predicate Valid()
      reads this, Repr
      ensures Valid() ==> this in Repr
    {
      && this in Repr && clockFlag in Repr && (forall n :: n in nodes ==> n in Repr)
      && Linked(nodes, head)
      && state.frames == Data(nodes) && state.clockFlag == clockFlag[..]
      && state.clockIndex == clockIndex && state.fifoIndex == fifoIndex
    }

    constructor (policy: R.Policy, frames: nat)
      ensures Valid() && fresh(Repr) && this.policy == policy
      ensures clockFlag.Length == frames && state == R.State([], false, seq(frames, i => 0), 0, 0)
    {
      this.policy := policy;
      clockFlag := new int[frames](i => 0);
      head := null;
      clockIndex, fifoIndex, lruFlag, frameRef := 0, 0, 0, 0;
      nodes := [];
      new;
      Repr := {this, clockFlag};
      state := R.State([], false, clockFlag[..], 0, 0);
      assert clockFlag[..] == seq(frames, i => 0);
    }

    /** `head = list_insert_head(head, frame_ref)` */
    method Insert()
      requires Valid()
      modifies Repr
      ensures Valid() && fresh(Repr - old(Repr)) && lruFlag == old(lruFlag) && frameRef == old(frameRef)
      ensures state == old(state).(frames := [frameRef] + old(state).frames)
    {
      var h;
      ghost var all;
      h, all := InsertHead(head, frameRef, nodes);
      head, nodes := h, all;
      state := state.(frames := [frameRef] + state.frames);
      Repr := Repr + {all[0]};
      assert forall n :: n in all ==> n == all[0] || n in all[1..];
    }

    /** `head = list_remove(head, frame_ref)` */
    method Delete()
      requires Valid()
      modifies Repr
      ensures Valid() && Repr == old(Repr) && lruFlag == old(lruFlag) && frameRef == old(frameRef)
      ensures state == old(state).(frames := Remove(old(state).frames, frameRef),
                                     nullDeref := old(state).nullDeref || old(state).frames == [frameRef])
    {
      var h, bad;
      ghost var rest;
      h, bad, rest := RemoveData(head, frameRef, nodes);
      head, nodes := h, rest;
      state := state.(frames := Remove(state.frames, frameRef), nullDeref := state.nullDeref || bad);
    }

    /** `head = list_remove_tail(head)` */
    method DeleteTail()
      requires Valid() && nodes != []
      modifies Repr
      ensures Valid() && Repr == old(Repr) && lruFlag == old(lruFlag) && frameRef == old(frameRef)
      ensures state == old(state).(frames := Front(old(state).frames),
                                     nullDeref := old(state).nullDeref || |old(state).frames| == 1)
    {
      var h, bad;
      ghost var rest;
      h, bad, rest := RemoveTail(head, nodes);
      head, nodes := h, rest;
      state := state.(frames := Front(state.frames), nullDeref := state.nullDeref || bad);
    }

    /** `head` itself walks to the last node, whose data becomes `frame_ref`, and back. */
    method WalkToTail()
      requires Valid() && nodes != []
      modifies this
      ensures Valid() && Repr == old(Repr) && nodes == old(nodes) && state == old(state)
      ensures frameRef == Last(state.frames) && lruFlag == old(lruFlag)
    {
      ghost var i := 0;
      while head.next != null
        invariant 0 <= i < |nodes| && head == nodes[i] && nodes == old(nodes)
        invariant unchanged(this`Repr, this`state, this`clockIndex, this`fifoIndex, this`lruFlag)
        decreases |nodes| - i
      {
        head := head.next;
        i := i + 1;
      }
      frameRef := head.data;
      while head.prev != null
        invariant 0 <= i < |nodes| && head == nodes[i] && nodes == old(nodes) && frameRef == Last(Data(nodes))
        invariant unchanged(this`Repr, this`state, this`clockIndex, this`fifoIndex, this`lruFlag)
        decreases i
      {
        head := head.prev;
        i := i - 1;
      }
    }

    method Lru() returns (frame: int)
      requires Valid() && (lruFlag == 2 ==> nodes != [])
      modifies Repr
      ensures Valid() && fresh(Repr - old(Repr)) && lruFlag == old(lruFlag)
      ensures lruFlag == 1 || lruFlag == 3 ==> state == R.LruTouch(old(state), old(frameRef)) && frame == 0
      ensures lruFlag == 2 ==> (frame, state) == R.LruEvict(old(state))
    {
      if lruFlag == 1 {
        Delete();
        Insert();
      }
      if lruFlag == 2 {
        WalkToTail();
        DeleteTail();
        Insert();
        return frameRef;
      }
      if lruFlag == 3 {
        Delete();
        Insert();
      }
      return 0;
    }

    method Fifo() returns (frame: int)
      requires Valid() && clockFlag.Length > 0
      modifies this
      ensures Valid() && Repr == old(Repr) && lruFlag == old(lruFlag)
      ensures (frame, state) == R.Fifo(old(state), clockFlag.Length)
    {
      frame := fifoIndex % clockFlag.Length;
      fifoIndex := fifoIndex + 1;
      state := state.(fifoIndex := fifoIndex);
    }

    method Clock() returns (frame: int)
      requires Valid() && 0 <= clockIndex < clockFlag.Length
      modifies this, clockFlag
      ensures Valid() && Repr == old(Repr) && lruFlag == old(lruFlag)
      ensures (frame, state) == R.Clock(old(state))
    {
      frame := Scan(clockFlag, clockIndex, clockFlag.Length);
      if frame == clockFlag.Length {
        frame := Scan(clockFlag, 0, clockIndex);
      }
      clockIndex := frame;
      state := state.(clockFlag := clockFlag[..], clockIndex := clockIndex);
    }

    /** `rnd` is the value of `rand()`. */
    method PageReplacement(rnd: nat) returns (frame: int)
      requires Valid() && 0 <= clockIndex < clockFlag.Length
      requires policy == R.LRU && lruFlag == 2 ==> nodes != []
      modifies Repr
      ensures Valid() && fresh(Repr - old(Repr)) && lruFlag == old(lruFlag)
      ensures policy == R.LRU && (lruFlag == 1 || lruFlag == 3) ==> state == R.LruTouch(old(state), old(frameRef))
      ensures lruFlag == 2 && R.Ready(policy, old(state), clockFlag.Length) ==>
                (frame, state) == R.Victim(policy, old(state), clockFlag.Length, rnd)
    {
      match policy
      case RANDOM => frame := rnd % clockFlag.Length;
      case FIFO => frame := Fifo();
      case LRU => frame := Lru();
      case CLOCK => frame := Clock();
    }

    /** What pagetable.c does with these globals after a hit (`flag` 1) and after loading a free
        frame (`flag` 3). */
    method Reference(frame: nat, flag: int)
      requires Valid() && frame < clockFlag.Length && (flag == 1 || flag == 3) && 0 <= clockIndex < clockFlag.Length
      modifies Repr
      ensures Valid() && fresh(Repr - old(Repr))
      ensures state == R.Touch(policy, old(state), frame)
    {
      if policy == R.LRU {
        frameRef := frame;
        lruFlag := flag;
        var _ := PageReplacement(0);
      }
      if policy == R.CLOCK {
        frameRef := frame;
        clockFlag[frame] := 1;
        state := state.(clockFlag := clockFlag[..]);
      }
    }
  }
}
