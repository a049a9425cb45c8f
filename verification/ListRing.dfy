/**
 * The circular doubly linked lists with a dummy head that c-ares keeps its
 * queries on (ares_llist.c, and swap_lists of ares_process.c), pointer by pointer.
 * QueryIndex works with the sequences that they spell.
 */
module ListRing {
  import opened QueryIndex

  class ListNode {
    var prev: ListNode?
    var next: ListNode?
    var data: Handle
    constructor () { }
  }

  /** The k-th stop on the way around: the head before the first node and again after the last. */
  function At(head: ListNode, nodes: seq<ListNode>, k: int): ListNode
    requires -1 <= k <= |nodes|
  {
    if k == -1 || k == |nodes| then head else nodes[k]
  }

  /** Starting at the head, the links pass through exactly these nodes, forwards and backwards. */
  ghost predicate Ring(head: ListNode, nodes: seq<ListNode>)
    reads head, nodes
  {
    && head !in nodes && NoDup(nodes)
    && (forall k :: -1 <= k < |nodes| ==>
          At(head, nodes, k).next == At(head, nodes, k + 1) && At(head, nodes, k + 1).prev == At(head, nodes, k))
  }

  /** What the list spells. */
  ghost function Spelled(nodes: seq<ListNode>): (s: seq<Handle>)
    reads nodes
    ensures |s| == |nodes|
  {
    seq(|nodes|, i requires 0 <= i < |nodes| reads nodes => nodes[i].data)
  }

  /** ares__init_list_head */
  method InitListHead(head: ListNode)
    modifies head
    ensures Ring(head, [])
  {
    head.prev := head;
    head.next := head;
  }

  /** ares__init_list_node */
  method InitListNode(node: ListNode, d: Handle)
    modifies node
    ensures node.prev == null && node.next == null && node.data == d
  {
    node.prev := null;
    node.next := null;
    node.data := d;
  }

  /** ares__is_list_empty */
  method IsListEmpty(head: ListNode, ghost nodes: seq<ListNode>) returns (empty: bool)
    requires Ring(head, nodes)
    ensures empty <==> nodes == []
  {
    empty := head.next == head && head.prev == head;
    assert At(head, nodes, -1).next == At(head, nodes, 0);
  }

  /** ares__insert_in_list: the new node goes before the k-th stop; before the head means at the end. */
  method InsertInList(newNode: ListNode, oldNode: ListNode, ghost head: ListNode, ghost nodes: seq<ListNode>, ghost k: nat)
    requires Ring(head, nodes) && k <= |nodes| && oldNode == At(head, nodes, k)
    requires newNode != head && newNode !in nodes
    modifies newNode, head, nodes
    ensures Ring(head, nodes[..k] + [newNode] + nodes[k..])
    ensures newNode.data == old(newNode.data) && forall n :: n in nodes ==> n.data == old(n.data)
  {
    assert At(head, nodes, k - 1).next == oldNode && oldNode.prev == At(head, nodes, k - 1);
    newNode.next := oldNode;
    newNode.prev := oldNode.prev;
    oldNode.prev.next := newNode;
    oldNode.prev := newNode;
    ghost var after := nodes[..k] + [newNode] + nodes[k..];
    forall j | -1 <= j < |after|
      ensures At(head, after, j).next == At(head, after, j + 1) && At(head, after, j + 1).prev == At(head, after, j)
    {
      Shifted(head, nodes, newNode, k, j);
      Shifted(head, nodes, newNode, k, j + 1);
    }
  }

  lemma Shifted(head: ListNode, nodes: seq<ListNode>, x: ListNode, k: nat, j: int)
    requires k <= |nodes| && -1 <= j <= |nodes| + 1
    ensures At(head, nodes[..k] + [x] + nodes[k..], j)
         == if j < k then At(head, nodes, j) else if j == k then x else At(head, nodes, j - 1)
  {
  }

  /** ares__remove_from_list: the k-th node leaves the ring; a node on no list stays as it is. */
  method RemoveFromList(node: ListNode, ghost head: ListNode, ghost nodes: seq<ListNode>, ghost k: nat)
    requires node.next != null ==> Ring(head, nodes) && k < |nodes| && nodes[k] == node
    modifies node, head, nodes
    ensures old(node.next) == null ==> unchanged(node) && unchanged(head) && unchanged(nodes)
    ensures old(node.next) != null ==> Ring(head, nodes[..k] + nodes[k + 1..]) && node.next == null && node.prev == null
    ensures node.data == old(node.data) && forall n :: n in nodes ==> n.data == old(n.data)
  {
    if node.next != null {
      ghost var after := nodes[..k] + nodes[k + 1..];
      StillNoDup(nodes, k);
      assert At(head, nodes, k).next == At(head, nodes, k + 1) && At(head, nodes, k + 1).prev == node;
      assert At(head, nodes, k - 1).next == node && node.prev == At(head, nodes, k - 1);
      node.prev.next := node.next;
      node.next.prev := node.prev;
      node.prev := null;
      node.next := null;
      forall j | -1 <= j < |after|
        ensures At(head, after, j).next == At(head, after, j + 1) && At(head, after, j + 1).prev == At(head, after, j)
      {
        Closed(head, nodes, k, j);
        Closed(head, nodes, k, j + 1);
      }
    }
  }

  lemma StillNoDup(nodes: seq<ListNode>, k: nat)
    requires NoDup(nodes) && k < |nodes|
    ensures NoDup(nodes[..k] + nodes[k + 1..])
    ensures forall j :: 0 <= j < |nodes| && j != k ==> nodes[j] != nodes[k]
  {
  }

  lemma Closed(head: ListNode, nodes: seq<ListNode>, k: nat, j: int)
    requires k < |nodes| && -1 <= j < |nodes|
    ensures At(head, nodes[..k] + nodes[k + 1..], j) == if j < k then At(head, nodes, j) else At(head, nodes, j + 1)
  {
  }

  /** Unlinking a node is what QueryIndex calls Without, inserting before the head is appending. */
  lemma RemovalSpellsWithout(nodes: seq<ListNode>, k: nat)
    requires k < |nodes| && NoDup(Spelled(nodes))
    ensures Spelled(nodes[..k] + nodes[k + 1..]) == Without(Spelled(nodes), nodes[k].data)
    ensures forall x: ListNode :: Spelled(nodes + [x]) == Spelled(nodes) + [x.data]
  {
    var s := Spelled(nodes);
    assert s == s[..k] + [s[k]] + s[k + 1..];
    WithoutMiddle(s[..k], s[k], s[k + 1..]);
    assert Spelled(nodes[..k] + nodes[k + 1..]) == s[..k] + s[k + 1..];
  }

  /** Points the neighbours of a copied head at the copy. */
  method Adopt(to: ListNode, next: ListNode, prev: ListNode, ghost from: ListNode, ghost nodes: seq<ListNode>)
    requires nodes != [] && to !in nodes && from !in nodes && NoDup(nodes)
    requires next == nodes[0] && prev == nodes[|nodes| - 1]
    requires forall k :: 0 <= k < |nodes| - 1 ==> nodes[k].next == nodes[k + 1] && nodes[k + 1].prev == nodes[k]
    modifies to, nodes
    ensures Ring(to, nodes)
    ensures forall n :: n in nodes ==> n.data == old(n.data)
  {
    to.next := next;
    to.prev := prev;
    next.prev := to;
    prev.next := to;
  }

  lemma RingInside(head: ListNode, nodes: seq<ListNode>)
    requires Ring(head, nodes)
    ensures nodes != [] ==> head.next == nodes[0] && head.prev == nodes[|nodes| - 1]
    ensures forall k :: 0 <= k < |nodes| - 1 ==> nodes[k].next == nodes[k + 1] && nodes[k + 1].prev == nodes[k]
  {
    assert At(head, nodes, -1).next == At(head, nodes, 0);
    assert At(head, nodes, |nodes|).prev == At(head, nodes, |nodes| - 1);
    forall k | 0 <= k < |nodes| - 1
      ensures nodes[k].next == nodes[k + 1] && nodes[k + 1].prev == nodes[k]
    {
      assert At(head, nodes, k).next == At(head, nodes, k + 1) && At(head, nodes, k + 1).prev == At(head, nodes, k);
    }
  }

  /** swap_lists */
  method SwapLists(a: ListNode, b: ListNode, ghost as0: seq<ListNode>, ghost bs0: seq<ListNode>)
    requires Ring(a, as0) && Ring(b, bs0)
    requires a != b && a !in as0 + bs0 && b !in as0 + bs0 && forall n :: n in as0 ==> n !in bs0
    modifies a, b, as0, bs0
    ensures Ring(a, bs0) && Ring(b, as0)
    ensures forall n :: n in as0 || n in bs0 ==> n.data == old(n.data)
  {
    RingInside(a, as0);
    RingInside(b, bs0);
    var aEmpty := IsListEmpty(a, as0);
    var bEmpty := IsListEmpty(b, bs0);
    var aNext, aPrev, bNext, bPrev := a.next, a.prev, b.next, b.prev;
    assert forall i :: 0 <= i < |bs0| ==> bs0[i] in bs0 && bs0[i] !in as0;
    assert forall i :: 0 <= i < |as0| ==> as0[i] in as0 && as0[i] !in bs0;
    if aEmpty {
      InitListHead(b);
    } else {
      Adopt(b, aNext, aPrev, a, as0);
    }
    assert forall i :: 0 <= i < |bs0| ==> bs0[i].next == old(bs0[i].next) && bs0[i].prev == old(bs0[i].prev);
    label Half:
    if bEmpty {
      InitListHead(a);
    } else {
      Adopt(a, bNext, bPrev, b, bs0);
    }
    assert forall i :: 0 <= i < |as0| ==> as0[i].next == old@Half(as0[i].next) && as0[i].prev == old@Half(as0[i].prev);
    assert b.next == old@Half(b.next) && b.prev == old@Half(b.prev);
  }
}
