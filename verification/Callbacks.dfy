/** The linked queue of reply callbacks. */
module Callbacks {
  import opened Bytes

  /** A callback function, or none, and the data it gets. */
  datatype Callback = Callback(fn: Option<nat>, privdata: int)

  class Node {
    const cb: Callback
    var next: Node?

    constructor (cb: Callback)
      ensures this.cb == cb && next == null
    {
      this.cb, next := cb, null;
    }
  }

  class CallbackList {
    var head: Node?
    var tail: Node?
    ghost var nodes: seq<Node>

    ghost function Successor(i: nat): Node?
      reads this
    {
      if i + 1 < |nodes| then nodes[i + 1] else null
    }

    ghost predicate Valid()
      reads this, nodes
    {
      && head == (if nodes == [] then null else nodes[0])
      && tail == (if nodes == [] then null else nodes[|nodes| - 1])
      && (forall i :: 0 <= i < |nodes| ==> nodes[i].next == Successor(i))
      && forall i, j :: 0 <= i < j < |nodes| ==> nodes[i] != nodes[j]
    }

    ghost function Queue(): (q: seq<Callback>)
      reads this
      ensures |q| == |nodes| && forall i :: 0 <= i < |q| ==> q[i] == nodes[i].cb
    {
      Map((n: Node) => n.cb, nodes)
    }

    constructor ()
      ensures Valid() && nodes == []
    {
      head, tail, nodes := null, null, [];
    }

    /** __redisPushCallback: a copy of the callback goes to the end. */
    method Push(source: Callback)
      requires Valid()
      modifies this, nodes
      ensures Valid() && Queue() == old(Queue()) + [source]
      ensures |nodes| == |old(nodes)| + 1 && nodes[..|old(nodes)|] == old(nodes) && fresh(nodes[|old(nodes)|])
    {
      var cb := new Node(source);
      Append(cb);
    }

    /** The node becomes the last one. */
    method Append(cb: Node)
      requires Valid() && cb !in nodes && cb.next == null
      modifies this, (if tail == null then {} else {tail})`next
      ensures Valid() && nodes == old(nodes) + [cb]
    {
      ghost var n := |nodes|;
      assert n > 0 ==> tail == nodes[n - 1];
      if head == null {
        head := cb;
      }
      if tail != null {
        tail.next := cb;
      }
      tail := cb;
      nodes := nodes + [cb];
      forall i | 0 <= i <= n
        ensures nodes[i].next == Successor(i)
      {
        assert i < n - 1 ==> old(nodes[i].next) == old(Successor(i));
      }
    }

    /** __redisShiftCallback: the first callback, if there is one, leaves the queue. */
    method Shift() returns (target: Option<Callback>)
      requires Valid()
      modifies this
      ensures Valid()
      ensures old(Queue()) == [] ==> target == None && nodes == old(nodes)
      ensures old(Queue()) != [] ==>
                && target == Some(old(Queue())[0])
                && nodes == old(nodes)[1..] && Queue() == old(Queue())[1..]
    {
      var cb := head;
      if cb == null {
        return None;
      }
      assert cb.next == Successor(0);
      head := cb.next;
      if cb == tail {
        tail := null;
      }
      ghost var before := nodes;
      nodes := nodes[1..];
      forall i | 0 <= i < |nodes|
        ensures nodes[i].next == Successor(i)
      {
        assert before[i + 1].next == old(Successor(i + 1));
      }
      target := Some(cb.cb);
    }
  }
}
