/** The doubly linked list of frames (Project-3/list.c), on heap nodes. */
module FrameList {
  import opened Lists

  class Node {
    var data: int
    var next: Node?
    var prev: Node?

    constructor (x: int)
      ensures data == x && next == null && prev == null
    {
      data := x;
      next := null;
      prev := null;
    }
  }

  /** `nodes` are the list's nodes from `head`; `next` and `prev` are inverse along them. */
  ghost predicate Linked(nodes: seq<Node>, head: Node?)
    reads nodes
  {
    && head == (if nodes == [] then null else nodes[0])
    && NoDup(nodes)
    && (forall i {:trigger nodes[i].next} :: 0 <= i < |nodes| ==>
          nodes[i].next == if i + 1 < |nodes| then nodes[i + 1] else null)
    && (forall i {:trigger nodes[i].prev} :: 0 <= i < |nodes| ==>
          nodes[i].prev == if i > 0 then nodes[i - 1] else null)
  }

  ghost function Data(nodes: seq<Node>): seq<int>
    reads nodes
  {
    seq(|nodes|, i requires 0 <= i < |nodes| reads nodes => nodes[i].data)
  }

  /** `list_remove_head`: on a one-node list the code writes through the null `head->next`; the
      list is then taken to be empty and `nullDeref` is set. */
  method RemoveHead(head: Node?, ghost nodes: seq<Node>) returns (h: Node?, nullDeref: bool, ghost rest: seq<Node>)
    requires Linked(nodes, head)
    modifies nodes
    ensures Linked(rest, h) && rest == (if nodes == [] then [] else nodes[1..])
    ensures nodes != [] ==> Data(rest) == old(Data(nodes))[1..]
    ensures nullDeref <==> |nodes| == 1
  {
    nullDeref := false;
    rest := if nodes == [] then [] else nodes[1..];
    if head == null { return null, false, rest; }
    h := head.next;
    if h == null {
      nullDeref := true;
    } else {
      h.prev := null;
    }
  }

  /** `list_remove_tail`: on a one-node list the code writes through the null `ret->prev`. */
  method RemoveTail(head: Node?, ghost nodes: seq<Node>) returns (h: Node?, nullDeref: bool, ghost rest: seq<Node>)
    requires Linked(nodes, head)
    modifies nodes
    ensures Linked(rest, h) && rest == (if nodes == [] then [] else Front(nodes))
    ensures nodes != [] ==> Data(rest) == Front(old(Data(nodes)))
    ensures nullDeref <==> |nodes| == 1
  {
    nullDeref := false;
    rest := if nodes == [] then [] else Front(nodes);
    if head == null { return null, false, rest; }
    var ret := head;
    ghost var i := 0;
    while ret.next != null
      invariant 0 <= i < |nodes| && ret == nodes[i]
      decreases |nodes| - i
    {
      ret := ret.next;
      i := i + 1;
    }
    if ret.prev == null {
      return null, true, rest;
    }
    ret.prev.next := null;
    h := head;
  }

  /** The part of `list_remove` for a node that is neither first nor last. */
  method Unlink(ret: Node, ghost head: Node?, ghost nodes: seq<Node>, ghost i: nat) returns (ghost rest: seq<Node>)
    requires Linked(nodes, head) && 0 < i < |nodes| - 1 && ret == nodes[i]
    modifies nodes
    ensures rest == nodes[..i] + nodes[i + 1..] && Linked(rest, head)
    ensures Data(rest) == old(Data(nodes))[..i] + old(Data(nodes))[i + 1..]
  {
    if ret.prev != null { ret.prev.next := ret.next; }
    if ret.next != null { ret.next.prev := ret.prev; }
    rest := nodes[..i] + nodes[i + 1..];
    Spliced(nodes, i);
    assert forall j :: 0 <= j < |nodes| && j != i - 1 && j != i ==>
      nodes[j].next == if j + 1 < |nodes| then nodes[j + 1] else null;
    assert forall j :: 0 <= j < |nodes| && j != i + 1 && j != i ==>
      nodes[j].prev == if j > 0 then nodes[j - 1] else null;
    assert forall j :: 0 <= j < |nodes| ==> nodes[j].data == old(nodes[j].data);
  }

  lemma Spliced<T>(l: seq<T>, i: nat)
    requires NoDup(l) && i < |l|
    ensures var r := l[..i] + l[i + 1..];
      NoDup(r) && |r| == |l| - 1 && forall j :: 0 <= j < |r| ==> r[j] == if j < i then l[j] else l[j + 1]
  {
  }

  /** `list_remove`: the first node holding `data` goes. */
  method RemoveData(head: Node?, data: int, ghost nodes: seq<Node>)
    returns (h: Node?, nullDeref: bool, ghost rest: seq<Node>)
    requires Linked(nodes, head)
    modifies nodes
    ensures Linked(rest, h) && Data(rest) == Remove(old(Data(nodes)), data)
    ensures forall n :: n in rest ==> n in nodes
    ensures nullDeref <==> old(Data(nodes)) == [data]
  {
    nullDeref := false;
    rest := nodes;
    if head == null { return null, false, rest; }
    var ret: Node? := head;
    ghost var i := 0;
    ghost var l := Data(nodes);
    while ret != null
      invariant 0 <= i <= |nodes| && ret == (if i < |nodes| then nodes[i] else null)
      invariant data !in l[..i]
      decreases |nodes| - i
    {
      if data == ret.data {
        RemoveAt(l, i);
        if ret == head {
          h, nullDeref, rest := RemoveHead(head, nodes);
          return;
        }
        if ret.next == null {
          h, nullDeref, rest := RemoveTail(head, nodes);
          return;
        }
        rest := Unlink(ret, head, nodes, i);
        return head, false, rest;
      }
      ret := ret.next;
      i := i + 1;
    }
    assert l[..i] == l;
    RemoveAbsent(l, data);
    h := head;
  }

  method InsertHead(head: Node?, x: int, ghost nodes: seq<Node>) returns (h: Node?, ghost all: seq<Node>)
    requires Linked(nodes, head)
    modifies nodes
    ensures Linked(all, h) && Data(all) == [x] + old(Data(nodes))
    ensures |all| == |nodes| + 1 && fresh(all[0]) && all[1..] == nodes
  {
    var node := new Node(x);
    all := [node] + nodes;
    if head == null {
      return node, all;
    }
    head.prev := node;
    node.next := head;
    h := node;
  }

  method InsertTail(head: Node?, x: int, ghost nodes: seq<Node>) returns (h: Node?, ghost all: seq<Node>)
    requires Linked(nodes, head)
    modifies nodes
    ensures Linked(all, h) && Data(all) == old(Data(nodes)) + [x]
    ensures |all| == |nodes| + 1 && fresh(Last(all)) && Front(all) == nodes
  {
    var temp := head;
    var node := new Node(x);
    all := nodes + [node];
    if head == null {
      return node, all;
    }
    ghost var i := 0;
    while temp.next != null
      invariant 0 <= i < |nodes| && temp == nodes[i]
      decreases |nodes| - i
    {
      temp := temp.next;
      i := i + 1;
    }
    temp.next := node;
    node.prev := temp;
    h := head;
  }
}
