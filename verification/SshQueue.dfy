/** queue.c: the singly linked queue of packets with head, tail and count. */
module SshQueue {

  class Node<T> {
    var item: T
    var link: Node?<T>

    constructor (item: T)
      ensures this.item == item && link == null
    {
      this.item, link := item, null;
    }
  }

  class Queue<T> {
    var head: Node?<T>
    var tail: Node?<T>
    var count: nat
    ghost var nodes: seq<Node<T>>
    ghost var repr: set<Node<T>>
    /** What is queued, the oldest first. */
    ghost var items: seq<T>

    /** The nodes, linked in order from head to tail. */
    ghost predicate Valid()
      reads this, repr
    {
      && |nodes| == |items| == count
      && (nodes == [] ==> head == null && tail == null)
      && (nodes != [] ==> head == nodes[0] && tail == nodes[|nodes| - 1])
      && (forall i :: 0 <= i < |nodes| ==> nodes[i] in repr)
      && (forall i, j :: 0 <= i < j < |nodes| ==> nodes[i] != nodes[j])
      && (forall i {:trigger nodes[i].link} {:trigger nodes[i].item} :: 0 <= i < |nodes| ==>
            nodes[i].item == items[i] && nodes[i].link == if i + 1 < |nodes| then nodes[i + 1] else null)
    }

    constructor ()
      ensures Valid() && items == [] && repr == {}
    {
      head, tail, count, nodes, repr, items := null, null, 0, [], {}, [];
    }

    method IsEmpty() returns (r: bool)
      requires Valid()
      ensures r <==> items == []
    {
      r := head == null;
    }

    method Examine() returns (item: T)
      requires Valid() && items != []
      ensures item == items[0]
    {
      item := head.item;
    }

    method Enqueue(item: T)
      requires Valid()
      modifies this, repr
      ensures Valid() && items == old(items) + [item] && fresh(repr - old(repr))
    {
      var n := new Node(item);
      if tail != null {
        tail.link := n;
      }
      tail := n;
      if head == null {
        head := n;
      }
      count := count + 1;
      nodes, repr, items := nodes + [n], repr + {n}, items + [item];
    }

    method Dequeue() returns (item: T)
      requires Valid() && items != []
      modifies this
      ensures Valid() && [item] + items == old(items) && repr == old(repr)
    {
      item := head.item;
      var first := head;
      if first.link != null {
        head := first.link;
      } else {
        head, tail := null, null;
      }
      count := count - 1;
      nodes, items := nodes[1..], items[1..];
    }
  }
}
