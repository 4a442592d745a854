/**
 sthread_lib/queue.c: singly linked queues of threads that all share one recycled node through a global pointer.
 Threads are numbers here.
 */
module ThreadQueue {
  import opened Bytes

  class Element {
    var thread: Option<nat>
    var next: Element?
    /** The queue the node is in, if any, its place there, and whether it was handed to free. */
    ghost var owner: Queue?
    ghost var place: int
    ghost var freed: bool

    constructor ()
      ensures owner == null && !freed
    {
      owner, place, freed := null, 0, false;
    }
  }

  ghost function After(nodes: seq<Element>, i: nat): Element? {
    if i + 1 < |nodes| then nodes[i + 1] else null
  }

  lemma AfterAppend(nodes: seq<Element>, n: Element)
    ensures forall i :: 0 <= i < |nodes| ==> After(nodes + [n], i) == if i + 1 == |nodes| then n else After(nodes, i)
    ensures After(nodes + [n], |nodes|) == null
  {
  }

  lemma AfterTail(nodes: seq<Element>)
    requires nodes != []
    ensures forall i :: 0 <= i < |nodes| - 1 ==> After(nodes[1..], i) == After(nodes, i + 1)
    ensures After(nodes, 0) == if nodes[1..] == [] then null else nodes[1..][0]
  {
  }

  class Queue {
    var first: Element?
    /** Meaningful only while the queue is not empty: an emptied queue keeps its old last pointer. */
    var last: Element?
    /** The nodes of the queue, in order, and the place of the first. */
    ghost var nodes: seq<Element>
    ghost var base: int

    constructor ()
      ensures first == null && last == null && nodes == []
    {
      first, last, nodes, base := null, null, [], 0;
    }

    /** The pointers lead through the nodes, which are distinct, live, this queue's own, and hold a thread each. */
    ghost predicate Linked()
      reads this, nodes
    {
      && first == (if nodes == [] then null else nodes[0])
      && (nodes != [] ==> last == nodes[|nodes| - 1])
      && (forall i :: 0 <= i < |nodes| ==> nodes[i].next == After(nodes, i))
      && (forall i :: 0 <= i < |nodes| ==> nodes[i].thread.Some? && nodes[i].owner == this && !nodes[i].freed)
      && (forall i :: 0 <= i < |nodes| ==> nodes[i].place == base + i)
    }

    ghost function Contents(): (c: seq<nat>)
      requires Linked()
      reads this, nodes
      ensures |c| == |nodes| && forall i :: 0 <= i < |c| ==> nodes[i].thread == Some(c[i])
    {
      seq(|nodes|, i requires 0 <= i < |nodes| && Linked() reads this, nodes => nodes[i].thread.value)
    }

    /** The pointer part of queue_insert. */
    method Link(n: Element)
      requires Linked() && n !in nodes && n.thread.Some? && n.next == null && n.owner == null && !n.freed
      modifies this, nodes, n`owner, n`place
      ensures Linked() && nodes == old(nodes) + [n] && Contents() == old(Contents()) + [old(n.thread.value)]
      ensures last == n
    {
      hide After;
      AfterAppend(nodes, n);
      if first == null {
        first := n;
      } else {
        last.next := n;
      }
      last := n;
      n.owner := this;
      n.place := base + |nodes|;
      nodes := nodes + [n];
    }

    /** The pointer part of queue_remove: the node leaves with its pointers cleared. */
    method Unlink() returns (n: Element, t: nat)
      requires Linked() && nodes != []
      modifies this, nodes
      ensures Linked() && n == old(nodes)[0] && nodes == old(nodes)[1..] && n !in nodes
      ensures t == old(Contents())[0] && Contents() == old(Contents())[1..] && last == old(last)
      ensures n.thread == None && n.next == null && n.owner == null && !n.freed
    {
      hide After;
      ghost var was := nodes;
      AfterTail(was);
      n := first;
      assert was[0].next == After(was, 0);
      first := n.next;
      t := n.thread.value;
      n.thread := None;
      n.next := null;
      n.owner := null;
      nodes := nodes[1..];
      base := base + 1;
      forall i | 0 <= i < |nodes| ensures nodes[i] != n && nodes[i].next == After(nodes, i) {
        assert nodes[i] == was[i + 1] && was[0].place != was[i + 1].place;
        assert old(was[i + 1].next) == After(was, i + 1);
      }
    }
  }

  /** All queues of a program, with the global empty_element_ptr. */
  class Queues {
    var spare: Element?
    ghost var all: set<Queue>
    /** Every node ever allocated. */
    ghost var pool: set<Element>

    constructor ()
      ensures Valid() && all == {} && spare == null && pool == {}
    {
      spare, all, pool := null, {}, {};
    }

    /** Every queue is linked, and the spare node is live and in no queue. No node is in two queues: it has one owner.
     */
    ghost predicate Valid()
      reads this, all, pool
    {
      && (forall q :: q in all ==> (forall i :: 0 <= i < |q.nodes| ==> q.nodes[i] in pool) && q.Linked())
      && (spare != null ==> spare in pool && spare.owner == null && !spare.freed)
    }

    /** All queues but q hold what they held. */
    twostate predicate OthersKept(q: Queue)
      requires old(Valid()) && Valid()
      reads this, all, pool
    {
      all == old(all) && forall r :: r in all && r != q ==> unchanged(r) && r.Contents() == old(r.Contents())
    }

    /** create_queue, which also forgets the spare node. */
    method Create() returns (q: Queue)
      requires Valid()
      modifies this
      ensures Valid() && fresh(q) && all == old(all) + {q} && q.Contents() == [] && spare == null && pool == old(pool)
      ensures forall r :: r in old(all) ==> r.Contents() == old(r.Contents())
    {
      hide After;
      q := new Queue();
      spare := null;
      all := all + {q};
    }

    method IsEmpty(q: Queue) returns (empty: bool)
      requires Valid() && q in all
      ensures empty <==> q.Contents() == []
    {
      empty := q.first == null;
    }

    /** queue_first of a queue that is not empty. */
    method First(q: Queue) returns (t: nat)
      requires Valid() && q in all && q.Contents() != []
      ensures t == q.Contents()[0]
    {
      t := q.first.thread.value;
    }

    /** The node for an insertion: the recycled one if there is one. */
    method TakeNode(t: nat) returns (n: Element)
      requires Valid()
      modifies this, pool
      ensures Valid() && spare == null && all == old(all)
      ensures n in pool && n.owner == null && !n.freed && n.thread == Some(t) && n.next == null
      ensures old(spare) != null ==> n == old(spare)
      ensures forall q :: q in all ==> unchanged(q) && q.Contents() == old(q.Contents())
      ensures fresh(pool - old(pool))
    {
      hide After;
      if spare == null {
        n := new Element();
        pool := pool + {n};
      } else {
        n := spare;
        spare := null;
      }
      n.thread := Some(t);
      n.next := null;
      forall q | q in all ensures q.Linked() && q.Contents() == old(q.Contents()) {
        NodeOutside(q, n);
      }
    }

    /** A node without an owner is in no queue. */
    lemma NodeOutside(q: Queue, n: Element)
      requires forall i :: 0 <= i < |q.nodes| ==> q.nodes[i].owner == q
      requires n.owner != q
      ensures n !in q.nodes
    {
    }

    /** queue_insert: the thread joins behind the others, and no other queue is touched. */
    method Insert(q: Queue, t: nat)
      requires Valid() && q in all
      modifies this, q, pool
      ensures Valid() && OthersKept(q) && q.Contents() == old(q.Contents()) + [t] && spare == null
      ensures old(spare) != null ==> q.last == old(spare)
      ensures q.last != null && (old(q.Contents()) == [] ==> q.first == q.last) && fresh(pool - old(pool))
    {
      hide After;
      var n := TakeNode(t);
      InsertNode(q, n);
    }

    method InsertNode(q: Queue, n: Element)
      requires Valid() && q in all && n in pool && n != spare
      requires n.owner == null && !n.freed && n.thread.Some? && n.next == null
      modifies q, pool
      ensures Valid() && q.Contents() == old(q.Contents()) + [old(n.thread.value)] && q.last == n
      ensures old(q.Contents()) == [] ==> q.first == n
      ensures forall r :: r in all && r != q ==> unchanged(r) && r.Contents() == old(r.Contents())
    {
      hide After;
      NodeOutside(q, n);
      assert forall r :: r in all && r != q ==>
        forall i :: 0 <= i < |r.nodes| ==> r.nodes[i] != n && r.nodes[i] !in q.nodes;
      q.Link(n);
    }

    /** queue_remove: the first thread leaves; its node becomes the spare one, or is freed if there is one already. */
    method Remove(q: Queue) returns (t: nat)
      requires Valid() && q in all && q.Contents() != []
      modifies this, q, pool
      ensures Valid() && OthersKept(q) && t == old(q.Contents())[0] && q.Contents() == old(q.Contents())[1..]
      ensures q.last == old(q.last) && spare == (if old(spare) == null then old(q.first) else old(spare))
      ensures pool == old(pool)
    {
      hide After, Queue.Linked, Queue.Contents;
      var n: Element;
      n, t := RemoveNode(q);
      Recycle(n);
    }

    /** What happens to a node that has left its queue. */
    method Recycle(n: Element)
      requires Valid() && n in pool && n.owner == null && n != spare && !n.freed
      modifies this`spare, n`freed
      ensures Valid() && spare == (if old(spare) == null then n else old(spare)) && all == old(all)
      ensures forall q :: q in all ==> unchanged(q) && q.Contents() == old(q.Contents())
    {
      if spare != null {
        n.freed := true;
      } else {
        spare := n;
      }
    }

    method RemoveNode(q: Queue) returns (n: Element, t: nat)
      requires Valid() && q in all && q.Contents() != []
      modifies q, pool
      ensures Valid() && t == old(q.Contents())[0] && q.Contents() == old(q.Contents())[1..] && q.last == old(q.last)
      ensures n in pool && n.owner == null && !n.freed && n != spare && n == old(q.first)
      ensures forall r :: r in all && r != q ==> unchanged(r) && r.Contents() == old(r.Contents())
    {
      hide After;
      assert forall r :: r in all && r != q ==> forall i :: 0 <= i < |r.nodes| ==> r.nodes[i] !in q.nodes;
      n, t := q.Unlink();
    }

    /**
     The last pointer of an emptied queue can point at a node that is now in another queue; both queues still work:
     the first is empty and takes new threads, the second holds its one thread.
     */
    static method DanglingLast(t: nat, u: nat, v: nat) returns (qs: Queues, a: Queue, b: Queue)
      ensures qs.Valid() && {a, b} == qs.all && a.Contents() == [v] && b.Contents() == [u]
    {
      hide After, Queue.Linked, Queue.Contents;
      qs := new Queues();
      a := qs.Create();
      b := qs.Create();
      qs.Insert(a, t);
      var out := qs.Remove(a);
      assert out == t;
      qs.Insert(b, u);
      assert a.last == b.last && a.Contents() == [];
      qs.Insert(a, v);
    }
  }
}
