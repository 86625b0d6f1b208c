/**
 * The singly linked FIFO of LinkedQueue.c. The ghost sequence `nodes` lists
 * the linked nodes from head to tail and `Contents` their data.
 */
module LinkedQueue {

  /** struct queue_node_s */
  class Node<T> {
    var data: T
    var next: Node?<T>

    /** node_create. The C leaves `next` unset; here it starts as null. */
    constructor (data: T)
      ensures this.data == data && next == null
    {
      this.data := data;
      next := null;
    }
  }

  /** struct queue_s */
  class Queue<T> {
    var head: Node?<T>
    var tail: Node?<T>
    var size: int

    ghost var Contents: seq<T>
    ghost var nodes: seq<Node<T>>
    ghost var Repr: set<object>

    /**
     * size is the number of linked nodes and of queued values; head and tail
     * are the first and last node; each node links to the next one.
     */
    ghost predicate Valid()
      reads this, Repr
    {
      this in Repr &&
      size == |nodes| == |Contents| &&
      (forall i :: 0 <= i < |nodes| ==> nodes[i] in Repr && nodes[i].data == Contents[i]) &&
      (forall i :: 0 <= i < |nodes| - 1 ==> nodes[i].next == nodes[i + 1]) &&
      (forall i, j :: 0 <= i < j < |nodes| ==> nodes[i] != nodes[j]) &&
      (size > 0 ==> head == nodes[0] && tail == nodes[size - 1])
    }

    /** que_create */
    constructor ()
      ensures Valid() && fresh(Repr)
      ensures Contents == [] && size == 0 && head == null
    {
      head := null;
      size := 0;
      Contents := [];
      nodes := [];
      Repr := {this};
    }

    /** que_empty */
    function IsEmpty(): (e: bool)
      reads this, Repr
      requires Valid()
      ensures e <==> Contents == []
    {
      size == 0
    }

    /**
     * que_insert: an empty queue gets the new node as both head and tail;
     * otherwise it is linked after the tail and becomes the tail.
     */
    method Insert(data: T)
      requires Valid()
      modifies Repr
      ensures Valid() && fresh(Repr - old(Repr))
      ensures Contents == old(Contents) + [data]
      ensures size == old(size) + 1
      ensures old(size) == 0 ==> head == tail && fresh(head)
      ensures old(size) != 0 ==> head == old(head) && fresh(tail) && old(tail).next == tail
    {
      var node := new Node(data);
      if size == 0 {
        head := node;
        tail := head;
      } else {
        tail.next := node;
        tail := tail.next;
      }
      size := size + 1;
      Contents := Contents + [data];
      nodes := nodes + [node];
      Repr := Repr + {node};
    }

    /**
     * que_pop: returns the head's data and makes the next node the head.
     * The C asserts that the queue is not empty.
     */
    method Pop() returns (rVal: T)
      requires Valid() && !IsEmpty()
      modifies this
      ensures Valid() && Repr == old(Repr)
      ensures rVal == old(Contents)[0] && Contents == old(Contents)[1..]
      ensures size == old(size) - 1
      ensures head == old(head).next
    {
      rVal := head.data;
      var newHead := head.next;
      head := newHead;
      size := size - 1;
      Contents := Contents[1..];
      nodes := nodes[1..];
    }
  }
}
