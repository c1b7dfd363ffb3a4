/** The singly linked queue of reply callbacks, with a head and a tail pointer. */
module CallbackList {
  import opened Bytes

  /** A callback: a function, absent for NULL, and the data it is called with. */
  datatype Callback = Callback(fn: Option<int>, privdata: int)

  class Node {
    var next: Node?
    const cb: Callback

    constructor (cb: Callback)
      ensures this.cb == cb && next == null
    {
      this.cb := cb;
      next := null;
    }
  }

  ghost function Successor(nodes: seq<Node>, i: nat): Node? {
    if i + 1 < |nodes| then nodes[i + 1] else null
  }

  class List {
    var head: Node?
    var tail: Node?
    ghost var nodes: seq<Node>
    /** The queued callbacks, first to be shifted first. */
    ghost var contents: seq<Callback>

    ghost predicate Valid()
      reads this, nodes
    {
      && (forall i, j :: 0 <= i < j < |nodes| ==> nodes[i] != nodes[j])
      && (forall i :: 0 <= i < |nodes| ==>
            nodes[i].next == Successor(nodes, i))
      && |contents| == |nodes|
      && (forall i :: 0 <= i < |nodes| ==> contents[i] == nodes[i].cb)
      && head == (if nodes == [] then null else nodes[0])
      && tail == (if nodes == [] then null else nodes[|nodes| - 1])
    }

    /** No node comes from elsewhere. */
    twostate predicate SameNodes()
      reads this
    {
      forall i :: 0 <= i < |nodes| ==> nodes[i] in old(nodes) || fresh(nodes[i])
    }

    constructor ()
      ensures Valid() && contents == [] && nodes == []
    {
      head, tail, nodes, contents := null, null, [], [];
    }

    method IsEmpty() returns (b: bool)
      requires Valid()
      ensures b == (contents == [])
    {
      b := head == null;
    }

    method Push(source: Callback)
      requires Valid()
      modifies this, nodes
      ensures Valid() && contents == old(contents) + [source]
      ensures SameNodes()
    {
      var cb := new Node(source);
      if head == null {
        head := cb;
      }
      if tail != null {
        tail.next := cb;
      }
      tail := cb;
      nodes, contents := nodes + [cb], contents + [source];
    }

    method Shift() returns (target: Option<Callback>)
      requires Valid()
      modifies this
      ensures Valid()
      ensures old(contents) == [] ==> target == None && nodes == [] && contents == []
      ensures old(contents) != [] ==> target == Some(old(contents)[0]) && contents == old(contents)[1..]
      ensures SameNodes()
    {
      var cb := head;
      if cb == null {
        return None;
      }
      head := cb.next;
      if cb == tail {
        tail := null;
      }
      nodes, contents := nodes[1..], contents[1..];
      assert forall i :: 0 <= i < |nodes| ==> Successor(nodes, i) == Successor(old(nodes), i + 1);
      return Some(cb.cb);
    }
  }
}
