/** Doubly linked queues (queue.h): nodes linked both ways, with a head and a tail, as the sequence of their nodes. */
module Queues {
  import opened Common

  datatype State = Running | Resuming | Blocked | Stopped | Exited

  /** A process, as far as the queues and the scheduler go: its run node and its state. */
  class Process {
    var next: Process?
    var prev: Process?
    var state: State

    constructor (state: State)
      ensures next == null && prev == null && this.state == state
    {
      next, prev, this.state := null, null, state;
    }
  }

  function At(nodes: seq<Process>, i: int): Process? {
    if 0 <= i < |nodes| then nodes[i] else null
  }

  /** The node, if it is one. */
  function Just(p: Process?): set<Process> {
    if p == null then {} else {p}
  }

  ghost predicate Linked(nodes: seq<Process>, i: nat)
    requires i < |nodes|
    reads nodes`next, nodes`prev
  {
    nodes[i].next == At(nodes, i + 1) && nodes[i].prev == At(nodes, i - 1)
  }

  ghost predicate Distinct(nodes: seq<Process>) {
    forall i, j :: 0 <= i < j < |nodes| ==> nodes[i] != nodes[j]
  }

  /** A node that is in no queue. */
  ghost predicate Detached(p: Process)
    reads p`next, p`prev
  {
    p.next == null && p.prev == null
  }

  function Without(nodes: seq<Process>, k: nat): seq<Process>
    requires k < |nodes|
  {
    nodes[..k] + nodes[k + 1..]
  }

  function IndexFrom(nodes: seq<Process>, x: Process, i: nat): (k: nat)
    requires i <= |nodes|
    ensures i <= k <= |nodes| && (k < |nodes| ==> nodes[k] == x) && forall j :: i <= j < k ==> nodes[j] != x
    decreases |nodes| - i
  {
    if i == |nodes| || nodes[i] == x then i else IndexFrom(nodes, x, i + 1)
  }

  function IndexOf(nodes: seq<Process>, x: Process): (k: nat)
    ensures k <= |nodes| && (k < |nodes| ==> nodes[k] == x) && (k == |nodes| <==> x !in nodes)
  {
    IndexFrom(nodes, x, 0)
  }

  /** What is left when a node is taken out; a node that is in no queue takes the whole queue with it. */
  function Removed(nodes: seq<Process>, x: Process): seq<Process> {
    var k := IndexOf(nodes, x);
    if k < |nodes| then Without(nodes, k) else []
  }

  lemma RemovedHas(nodes: seq<Process>, x: Process, y: Process)
    requires Distinct(nodes) && x in nodes
    ensures y in Removed(nodes, x) <==> y in nodes && y != x
    ensures Distinct(Removed(nodes, x))
  {
    var k := IndexOf(nodes, x);
    var r := Removed(nodes, x);
    if y in nodes && y != x {
      var i :| 0 <= i < |nodes| && nodes[i] == y;
      assert r[if i < k then i else i - 1] == y;
    }
  }

  /** The nodes other than `x`, in their order. */
  function Others(nodes: seq<Process>, x: Process): seq<Process> {
    if nodes == [] then []
    else if nodes[0] == x then Others(nodes[1..], x)
    else [nodes[0]] + Others(nodes[1..], x)
  }

  lemma {:induction false} OthersJoin(a: seq<Process>, b: seq<Process>, x: Process)
    ensures Others(a + b, x) == Others(a, x) + Others(b, x)
  {
    if a == [] {
      assert a + b == b;
    } else {
      assert (a + b)[0] == a[0] && (a + b)[1..] == a[1..] + b;
      OthersJoin(a[1..], b, x);
    }
  }

  lemma {:induction false} OthersAll(nodes: seq<Process>, x: Process)
    requires x !in nodes
    ensures Others(nodes, x) == nodes
  {
    if nodes != [] {
      OthersAll(nodes[1..], x);
    }
  }

  lemma OthersInFront(nodes: seq<Process>, x: Process)
    ensures Others([x] + nodes, x) == Others(nodes, x)
  {
    assert ([x] + nodes)[1..] == nodes;
  }

  /** Putting a node anywhere among others leaves them in their order. */
  lemma OthersAmong(a: seq<Process>, b: seq<Process>, x: Process)
    requires x !in a && x !in b
    ensures Others(a + [x] + b, x) == a + b
  {
    assert a + [x] + b == a + ([x] + b);
    OthersJoin(a, [x] + b, x);
    OthersInFront(b, x);
    OthersAll(a, x);
    OthersAll(b, x);
    hide Others;
  }

  /** Taking it out does, too. */
  lemma RemovedIsOthers(nodes: seq<Process>, x: Process)
    requires Distinct(nodes) && x in nodes
    ensures Removed(nodes, x) == Others(nodes, x)
  {
    var k := IndexOf(nodes, x);
    var a, b := nodes[..k], nodes[k + 1..];
    assert nodes == a + [x] + b;
    OthersAmong(a, b, x);
  }

  /** The queue with `node` put after `after`, or first if that is null; None if `after` is not in the queue. */
  function Placed(nodes: seq<Process>, node: Process, after: Process?): Option<seq<Process>> {
    if after == null then Some([node] + nodes)
    else
      var k := IndexOf(nodes, after);
      if k < |nodes| then Some(nodes[..k + 1] + [node] + nodes[k + 1..]) else None
  }

  class Queue {
    var head: Process?
    var tail: Process?
    ghost var nodes: seq<Process>

    /** Head, tail and all links are those of this sequence of nodes. */
    ghost predicate Represents(ns: seq<Process>)
      reads this`head, this`tail, ns`next, ns`prev
    {
      && Distinct(ns) && head == At(ns, 0) && tail == At(ns, |ns| - 1)
      && forall i :: 0 <= i < |ns| ==> Linked(ns, i)
    }

    ghost predicate Valid()
      reads this, nodes`next, nodes`prev
    {
      Represents(nodes)
    }

    constructor ()
      ensures Valid() && nodes == []
    {
      head, tail, nodes := null, null, [];
    }

    /** _queue_insert. */
    method Insert(node: Process)
      requires Valid() && node !in nodes
      modifies this, node`next, node`prev, nodes`prev
      ensures Valid() && nodes == [node] + old(nodes)
    {
      ghost var was := nodes;
      if head != null {
        head.prev := node;
      } else {
        tail := node;
      }
      node.next := head;
      node.prev := null;
      head := node;
      nodes := [node] + nodes;
      forall i | 0 <= i < |nodes|
        ensures Linked(nodes, i)
      {
        if i > 0 {
          assert old(Linked(was, i - 1)) && nodes[i] == was[i - 1];
        }
      }
    }

    /** The node after which another goes, and the one before which it then is. */
    function Behind(after: Process?): Process?
      reads this`head, Just(after)`next
    {
      if after != null then after.next else head
    }

    /**
     _queue_insert_after. After a node that is in no queue the other one is
     not put into this queue: whatever its links make up, that is not in it.
     */
    method InsertAfter(node: Process, after: Process?)
      requires Valid() && node !in nodes && node != after && Detached(node)
      requires after == null || after in nodes || Detached(after) || nodes == []
      modifies this, node`next, node`prev, nodes`next, nodes`prev, Just(after)`next, Just(Behind(after))`prev
      ensures Placed(old(nodes), node, after).Some? ==> Valid() && Placed(old(nodes), node, after) == Some(nodes)
      ensures Placed(old(nodes), node, after) == None ==> forall ns :: Represents(ns) ==> node !in ns
    {
      ghost var was := nodes;
      ghost var k := if after == null then 0 else IndexOf(was, after) + 1;
      assert 0 < k <= |was| ==> Linked(was, k - 1);
      var rest := Behind(after);
      if rest != null {
        rest.prev := node;
      } else {
        tail := node;
      }
      node.next := rest;
      if after != null {
        after.next := node;
      } else {
        head := node;
      }
      node.prev := after;
      if k <= |was| {
        nodes := was[..k] + [node] + was[k..];
        assert k == 0 ==> nodes == [node] + was;
        forall i | 0 <= i < |nodes|
          ensures Linked(nodes, i)
        {
          if i < k {
            assert old(Linked(was, i)) && nodes[i] == was[i];
          } else if i > k {
            assert old(Linked(was, i - 1)) && nodes[i] == was[i - 1];
          }
        }
      } else {
        forall ns | Represents(ns)
          ensures node !in ns
        {
          Unreached(node, after, ns);
        }
      }
    }

    /** A node whose only way from the head is through one that is not reached from there. */
    lemma Unreached(node: Process, after: Process, ns: seq<Process>)
      requires Represents(ns) && node.prev == after && after != head && (head == null || after.prev == null)
      ensures node !in ns
    {
      forall i | 0 <= i < |ns|
        ensures ns[i] != node
      {
        assert Linked(ns, i) && (i > 0 ==> Linked(ns, i - 1));
      }
    }

    /** _queue_remove. */
    method Remove(node: Process)
      requires Valid() && (node in nodes || Detached(node))
      modifies this, node`next, node`prev, nodes`next, nodes`prev
      ensures Valid() && Detached(node) && nodes == Removed(old(nodes), node)
      ensures node !in old(nodes) ==> forall q :: q in old(nodes) ==> q.next == old(q.next) && q.prev == old(q.prev)
    {
      ghost var was, k := nodes, IndexOf(nodes, node);
      assert k < |was| ==> Linked(was, k);
      if node.next != null {
        node.next.prev := node.prev;
      } else {
        tail := node.prev;
      }
      if node.prev != null {
        node.prev.next := node.next;
      } else {
        head := node.next;
      }
      node.next := null;
      node.prev := null;
      nodes := Removed(was, node);
      forall i | 0 <= i < |nodes|
        ensures Linked(nodes, i)
      {
        assert i < k ==> old(Linked(was, i)) && nodes[i] == was[i];
        assert i >= k ==> old(Linked(was, i + 1)) && nodes[i] == was[i + 1];
      }
    }

    /** Take a node out and put it after another; if either is in no queue, the first one is then not in this one. */
    method Move(node: Process, after: Process)
      requires Valid() && node != after && (node in nodes || Detached(node)) && (after in nodes || Detached(after))
      modifies this, node`next, node`prev, nodes`next, nodes`prev, after`next
      ensures node in old(nodes) && after in old(nodes) ==>
                Valid() && Placed(Removed(old(nodes), node), node, after) == Some(nodes)
      ensures !(node in old(nodes) && after in old(nodes)) ==>
                Placed(Removed(old(nodes), node), node, after) == None && forall ns :: Represents(ns) ==> node !in ns
    {
      ghost var was, k := nodes, IndexOf(nodes, after);
      assert k < |was| ==> Linked(was, k);
      if node in was {
        RemovedHas(was, node, after);
      }
      Remove(node);
      assert after in nodes ==> Linked(nodes, IndexOf(nodes, after));
      assert forall q :: q in nodes ==> q in was;
      assert after.next == null || after.next in was;
      InsertAfter(node, after);
    }
  }

  /** A queue is as it was if no link of its nodes has changed. */
  twostate lemma LinksKept(q: Queue)
    requires old(q.Valid()) && unchanged(q)
    requires forall p :: p in q.nodes ==> p.next == old(p.next) && p.prev == old(p.prev)
    ensures q.Valid()
  {
    forall i | 0 <= i < |q.nodes|
      ensures Linked(q.nodes, i)
    {
      assert old(Linked(q.nodes, i));
    }
  }
}
