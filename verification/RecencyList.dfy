/** The intrusive doubly linked list: `prev` leads from the head to the tail, `next` back to the head. */
module RecencyList {
  import opened Machine
  import opened Sequences

  /** One entry of the character table, and at the same time one node of the list. */
  class Node {
    var c: char
    var pos: size_t
    var next: Node?
    var prev: Node?

    constructor ()
      ensures pos == MARKER && next == null && prev == null
    {
      c := 0 as char;
      pos := MARKER;
      next, prev := null, null;
    }

    /** The assignment of `{c, 0}`: a pattern character that has not been met yet. */
    method Mark(c: char)
      modifies this
      ensures this.c == c && pos == 0 && next == null && prev == null
    {
      this.c, pos, next, prev := c, 0, null, null;
    }
  }

  class List {
    var head: Node?
    var tail: Node?
    ghost var nodes: seq<Node>

    /** `nodes` is the list from head to tail, and the links are mirror images. The `next` link of the
        head may point back to the head itself, see `EmplaceBack`. */
    ghost predicate Linked()
      reads this, nodes`next, nodes`prev
    {
      && NoDuplicates(nodes)
      && (forall i {:trigger nodes[i].prev} :: 0 <= i < |nodes| - 1 ==> nodes[i].prev == nodes[i + 1])
      && (forall i {:trigger nodes[i].next} :: 0 < i < |nodes| ==> nodes[i].next == nodes[i - 1])
      && (if nodes == [] then head == null && tail == null
          else && head == nodes[0] && (head.next == null || head.next == head)
               && tail == nodes[|nodes| - 1] && tail.prev == null)
    }

    /** A linked list with null links at both ends. */
    ghost predicate WellFormed()
      reads this, nodes`next, nodes`prev
    {
      Linked() && (head != null ==> head.next == null)
    }

    constructor ()
      ensures WellFormed() && nodes == []
    {
      head, tail, nodes := null, null, [];
    }

    /** Appends a node. A node that is the whole list already is not recognised as a member: it
        becomes its own `next`, and the list stays as it was. */
    method EmplaceBack(t: Node)
      requires Linked()
      requires t !in nodes || nodes == [t]
      modifies this, t`next, t`prev, nodes`prev
      ensures Linked()
      ensures nodes == if t in old(nodes) then old(nodes) else old(nodes) + [t]
      ensures t.next == old(tail)
      ensures old(WellFormed()) && t !in old(nodes) ==> WellFormed()
      ensures old(nodes) != [] ==> head == old(head)
      ensures old(nodes) != [] && old(nodes) != [t] ==> head.next == old(head.next)
    {
      if tail == null {
        head := t;
      } else {
        tail.prev := t;
      }
      var curTail := tail;
      tail := t;
      t.next := curTail;
      t.prev := null;
      if t !in nodes { nodes := nodes + [t]; }
    }

    /** Takes the head off the list, but leaves a list of one node as it is. */
    method PopFront() returns (r: Node?)
      requires Linked()
      modifies this, nodes`next
      ensures r == old(head)
      ensures Linked()
      ensures |old(nodes)| <= 1 ==> nodes == old(nodes) && unchanged(this) && unchanged(old(nodes))
      ensures |old(nodes)| >= 2 ==> nodes == old(nodes)[1..] && WellFormed()
    {
      r := head;
      assert |nodes| >= 2 ==> nodes[0].prev == nodes[1];
      if head != null && head.prev != null {
        head := head.prev;
        head.next := null;
        nodes := nodes[1..];
      }
    }

    /** Takes the tail off the list, but leaves a list of one node as it is. */
    method PopBack() returns (r: Node?)
      requires Linked()
      modifies this, nodes`prev
      ensures r == old(tail)
      ensures Linked()
      ensures head == old(head)
      ensures nodes == if |old(nodes)| <= 1 then old(nodes) else old(nodes)[..|old(nodes)| - 1]
    {
      r := tail;
      assert |nodes| >= 2 ==> nodes[|nodes| - 1].next == nodes[|nodes| - 2];
      if tail != null && tail.next != null {
        tail := tail.next;
        tail.prev := null;
        if |nodes| > 1 { nodes := nodes[..|nodes| - 1]; }
      }
    }

    /** Takes a member off the list, wherever it is. */
    method Pop(t: Node) returns (r: Node)
      requires Linked() && t in nodes
      modifies this, nodes`next, nodes`prev
      ensures r == t
      ensures Linked()
      ensures nodes == if |old(nodes)| == 1 then old(nodes) else Without(old(nodes), t)
      ensures head != null && head.next == if old(head) == t && |old(nodes)| > 1 then null else old(head.next)
    {
      ghost var k :| 0 <= k < |nodes| && nodes[k] == t;
      WithoutAt(nodes, k);
      if head == t {
        var front := PopFront();
        return t;
      }
      if tail == t {
        var back := PopBack();
        return t;
      }
      Unlink(t, k);
      r := t;
    }

    /** The last two assignments of `Pop`, for a node with neighbours on both sides. */
    method Unlink(t: Node, ghost k: nat)
      requires Linked() && 0 < k < |nodes| - 1 && nodes[k] == t
      modifies this`nodes, nodes`next, nodes`prev
      ensures Linked()
      ensures nodes == old(nodes)[..k] + old(nodes)[k + 1..]
      ensures head.next == old(head.next)
    {
      assert t.next == nodes[k - 1] && t.prev == nodes[k + 1];
      t.next.prev := t.prev;
      t.prev.next := t.next;
      nodes := nodes[..k] + nodes[k + 1..];
    }

    method Front() returns (r: Node?)
      requires Linked()
      ensures r == if nodes == [] then null else nodes[0]
    {
      r := head;
    }

    /** `pop` followed by `emplace_back`, as the scan does for a character met again. */
    method MoveToBack(t: Node)
      requires Linked() && t in nodes
      modifies this, nodes`next, nodes`prev
      ensures Linked()
      ensures nodes == Without(old(nodes), t) + [t]
      ensures old(WellFormed()) && |nodes| >= 2 ==> WellFormed()
      ensures |nodes| >= 2 ==> head.next == if old(head) == t then null else old(head.next)
    {
      MovedNoDuplicates(nodes, t);
      WithoutSubset(nodes, t);
      var top := Pop(t);
      assert forall i :: 0 <= i < |nodes| ==> nodes[i] in old(nodes);
      EmplaceBack(top);
    }
  }

  /** The node reached from `n` over `k` links toward the tail. */
  ghost function FollowPrev(nodes: seq<Node>, n: Node?, k: nat): Node?
    reads nodes`prev
  {
    if k == 0 || n == null || n !in nodes then n else FollowPrev(nodes, n.prev, k - 1)
  }

  /** The node reached from `n` over `k` links toward the head. */
  ghost function FollowNext(nodes: seq<Node>, n: Node?, k: nat): Node?
    reads nodes`next
  {
    if k == 0 || n == null || n !in nodes then n else FollowNext(nodes, n.next, k - 1)
  }

  lemma {:induction false} PrevWalk(list: List, i: nat, k: nat)
    requires list.Linked() && i < |list.nodes| && i + k <= |list.nodes|
    ensures FollowPrev(list.nodes, list.nodes[i], k) == if i + k < |list.nodes| then list.nodes[i + k] else null
    decreases k
  {
    if k > 0 {
      if i + 1 < |list.nodes| {
        PrevWalk(list, i + 1, k - 1);
      } else {
        assert list.nodes[i].prev == null;
      }
    }
  }

  /** The two chains of links are mirror images. */
  lemma {:induction false} NextWalk(list: List, i: nat, k: nat)
    requires list.Linked() && k <= i < |list.nodes|
    ensures FollowNext(list.nodes, list.nodes[i], k) == list.nodes[i - k]
    ensures FollowPrev(list.nodes, FollowNext(list.nodes, list.nodes[i], k), k) == list.nodes[i]
    decreases k
  {
    PrevWalk(list, i - k, k);
    if k > 0 {
      NextWalk(list, i - 1, k - 1);
    }
  }
}
