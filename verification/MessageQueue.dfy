// The linked list of pending messages of src/logger.c.

module MessageQueue {
  import opened Protocol

  /** `struct ws_message` */
  class Node {
    const message: Text
    var next: Node?

    constructor (message: Text)
      ensures this.message == message && next == null
    {
      this.message, next := message, null;
    }
  }

  /** Different nodes, each linked to the one after it, the last one to none. */
  ghost predicate Linked(nodes: seq<Node>)
    reads nodes
  {
    && (forall i, j :: 0 <= i < j < |nodes| ==> nodes[i] != nodes[j])
    && (forall i :: 0 <= i < |nodes| - 1 ==> nodes[i].next == nodes[i + 1])
    && (nodes != [] ==> nodes[|nodes| - 1].next == null)
  }

  lemma LinkedTail(nodes: seq<Node>)
    requires Linked(nodes) && nodes != []
    ensures Linked(nodes[1..]) && nodes[0] !in nodes[1..]
    ensures nodes[0].next == if |nodes| > 1 then nodes[1] else null
  {
    var rest := nodes[1..];
    assert forall i :: 0 <= i < |rest| ==> rest[i] == nodes[i + 1];
  }

  /** `message_queue`, `message_queue_tail` and `pending_message_count`. */
  class Queue {
    var head: Node?
    var tail: Node?
    var count: int
    /** The nodes in list order. */
    ghost var nodes: seq<Node>

    ghost predicate Valid()
      reads this, nodes
    {
      && Linked(nodes)
      && head == (if nodes == [] then null else nodes[0])
      && tail == (if nodes == [] then null else nodes[|nodes| - 1])
      && count == |nodes|
    }

    ghost function Contents(): (r: seq<Text>)
      reads this
      ensures |r| == |nodes| && forall i :: 0 <= i < |nodes| ==> r[i] == nodes[i].message
    {
      seq(|nodes|, i requires 0 <= i < |nodes| reads this => nodes[i].message)
    }

    /** The node reached from the head by following `next` k times: null exactly from `count` on. */
    ghost function Follow(k: nat): (n: Node?)
      requires Valid()
      reads this, nodes
      ensures n == if k < count then nodes[k] else null
    {
      if k == 0 then head
      else if Follow(k - 1) == null then null
      else
        assert Follow(k - 1) == nodes[k - 1];
        Follow(k - 1).next
    }

    constructor ()
      ensures Valid() && Contents() == [] && nodes == []
    {
      head, tail, count, nodes := null, null, 0, [];
    }

    /** The second critical section of `send_event`. */
    method Enqueue(text: Text)
      requires Valid()
      modifies this, nodes
      ensures Valid() && Contents() == old(Contents()) + [text]
      ensures |nodes| == |old(nodes)| + 1 && nodes[..|old(nodes)|] == old(nodes) && fresh(nodes[|old(nodes)|])
    {
      var message := new Node(text);
      if tail != null {
        tail.next := message;
      }
      tail := message;
      if head == null {
        head := message;
      }
      count := count + 1;
      nodes := nodes + [message];
    }

    /** The critical section of `process_pending_messages`; it would crash on an empty queue. */
    method Pop() returns (message: Node)
      requires Valid() && head != null
      modifies this, nodes
      ensures Valid() && message.message == old(Contents())[0] && Contents() == old(Contents())[1..]
      ensures message == old(head) && message.next == null && nodes == old(nodes)[1..] && count == old(count) - 1
    {
      hide Linked;
      LinkedTail(nodes);
      message := head;
      head := message.next;
      message.next := null;
      if tail == message {
        tail := null;
      }
      count := count - 1;
      nodes := nodes[1..];
    }
  }
}
