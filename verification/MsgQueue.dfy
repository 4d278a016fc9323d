/** The message queue as the program keeps it: a linked list with head, tail and two running totals
    (src/msgqueue.cc). Module Broker runs the same operations under every interleaving. */
module MsgQueue {
  import opened Bytes
  import opened Messages

  class Node {
    const value: Option<Message>
    var next: Node?

    constructor (value: Option<Message>)
      ensures this.value == value && next == null
    {
      this.value := value;
      next := null;
    }
  }

  class Cursor {
    var item: Node

    constructor (item: Node)
      ensures this.item == item
    {
      this.item := item;
    }
  }

  function Weight(n: Node): (r: nat) { if n.value.Some? then n.value.value.Weight() else 0 }

  function Total(nodes: seq<Node>): (r: nat) {
    if nodes == [] then 0 else Weight(nodes[0]) + Total(nodes[1..])
  }

  lemma {:induction false} TotalAppend(a: seq<Node>, b: seq<Node>)
    ensures Total(a + b) == Total(a) + Total(b)
  {
    if a == [] {
      assert a + b == b;
    } else {
      TotalAppend(a[1..], b);
      assert (a + b)[1..] == a[1..] + b;
    }
  }

  /** Each node once, linked in this order, the last to nothing; only the first may be the sentinel. */
  ghost predicate Chained(nodes: seq<Node>)
    reads nodes`next
  {
    && (forall i, j | 0 <= i < j < |nodes| :: nodes[i] != nodes[j])
    && (forall i {:trigger nodes[i].next} | 0 <= i < |nodes| - 1 :: nodes[i].next == nodes[i + 1])
    && (nodes != [] ==> nodes[|nodes| - 1].next == null)
    && (forall i | 0 < i < |nodes| :: nodes[i].value.Some?)
  }

  /** What is behind the deleted front of the list is not deleted. */
  lemma StillLive(nodes: seq<Node>, deleted: seq<Node>, k: nat)
    requires k <= |nodes| && (forall i, j | 0 <= i < j < |nodes| :: nodes[i] != nodes[j])
    requires forall i | 0 <= i < |nodes| :: nodes[i] !in deleted
    ensures forall i | 0 <= i < |nodes| - k :: nodes[k..][i] !in deleted + nodes[..k]
  {
    forall i | 0 <= i < |nodes| - k ensures nodes[k..][i] !in deleted + nodes[..k] {
      assert nodes[k..][i] == nodes[k + i];
    }
  }

  lemma ChainedSuffix(nodes: seq<Node>, k: nat)
    requires Chained(nodes) && k < |nodes|
    ensures Chained(nodes[k..]) && nodes[k..][0] == nodes[k] && nodes[k..][|nodes| - k - 1] == nodes[|nodes| - 1]
  {}

  class MessageQueue {
    var head: Node
    var tail: Node
    var size: int
    var memory: int
    ghost var nodes: seq<Node>
    ghost var deleted: seq<Node>

    /** nodes are the live nodes from the head on, deleted those that were before them. */
    ghost predicate Valid()
      reads this, nodes
    {
      && nodes != [] && head == nodes[0] && tail == nodes[|nodes| - 1]
      && Chained(nodes)
      && (forall i | 0 <= i < |nodes| :: nodes[i] !in deleted)
      && size == |nodes| - 1
      && memory == Total(nodes)
    }

    constructor ()
      ensures Valid() && |nodes| == 1 && nodes[0].value == None && fresh(nodes[0]) && deleted == []
    {
      var n := new Node(None);
      head, tail := n, n;
      size, memory := 0, 0;
      nodes, deleted := [n], [];
    }

    method MQPush(m: Message) returns (n: Node)
      requires Valid()
      modifies this, tail
      ensures Valid() && fresh(n) && n.value == Some(m)
      ensures nodes == old(nodes) + [n] && deleted == old(deleted)
      ensures size == old(size) + 1 && memory == old(memory) + m.Weight() && head == old(head)
    {
      n := new Node(Some(m));
      TotalAppend(nodes, [n]);
      assert Total([n]) == Weight(n) + Total([]);
      tail.next := n;
      tail := n;
      size := size + 1;
      memory := memory + m.Weight();
      nodes := nodes + [n];
    }

    /** The cursor moves to the next node, if there is one, and its message comes back. */
    method MQNext(c: Cursor, ghost k: nat) returns (r: Option<Message>)
      requires Valid() && k < |nodes| && c.item == nodes[k]
      modifies c
      ensures Valid() && nodes == old(nodes)
      ensures k + 1 < |nodes| ==> c.item == nodes[k + 1] && r == nodes[k + 1].value && r.Some?
      ensures k + 1 == |nodes| ==> c.item == nodes[k] && r == None
    {
      assert nodes[k].next == if k + 1 < |nodes| then nodes[k + 1] else null;
      if c.item.next != null {
        c.item := c.item.next;
        return c.item.value;
      }
      return None;
    }

    /** Nodes are deleted from the head up to the first that some cursor stands on. */
    method MQFreeOldMessages(positions: seq<Node>) returns (left: int, ghost count: nat)
      requires Valid() && positions != [] && forall x | x in positions :: x in nodes
      modifies `head, `size, `memory, `nodes, `deleted
      ensures Valid() && left == size
      ensures count < |old(nodes)| && nodes == old(nodes)[count..]
      ensures head in positions && forall x | x in positions :: x in nodes
      ensures deleted == old(deleted) + old(nodes)[..count]
      ensures size == old(size) - count && memory == old(memory) - Total(old(nodes)[..count])
    {
      ghost var all := nodes;
      var p, n, freed := DeleteNodes(positions);
      count := n;
      Suffix(all, count);
      ChainedSuffix(all, count);
      StillLive(all, old(deleted), count);
      head := p;
      memory := memory - freed;
      size := size - n;
      nodes := all[count..];
      left := size;
    }

    /** The walk of MQFreeOldMessages, which leaves head and the totals for later. */
    method DeleteNodes(positions: seq<Node>) returns (p: Node, count: nat, freed: nat)
      requires Valid() && positions != [] && forall x | x in positions :: x in nodes
      modifies this`deleted
      ensures count < |nodes| && p == nodes[count] && p in positions
      ensures forall x | x in positions :: x in nodes[count..]
      ensures freed == Total(nodes[..count])
      ensures deleted == old(deleted) + nodes[..count]
    {
      count, freed := 0, 0;
      p := head;
      assert nodes[0..] == nodes;
      while p !in positions
        invariant 0 <= count < |nodes| && p == nodes[count]
        invariant forall x | x in positions :: x in nodes[count..]
        invariant freed == Total(nodes[..count])
        invariant deleted == old(deleted) + nodes[..count]
        decreases |nodes| - count
      {
        Later(nodes, count, positions);
        freed := freed + Weight(p);
        assert p.next == nodes[count + 1];
        var next := p.next;
        deleted := deleted + [p];
        assert nodes[..count + 1] == nodes[..count] + [p];
        p := next;
        count := count + 1;
      }
    }
  }

  /** A walk that has not met a cursor is short of them all, so there is a next node to walk to. */
  lemma Later(all: seq<Node>, k: nat, positions: seq<Node>)
    requires k < |all| && positions != [] && all[k] !in positions
    requires forall x | x in positions :: x in all[k..]
    ensures k + 1 < |all|
    ensures forall x | x in positions :: x in all[k + 1..]
    ensures Total(all[..k + 1]) == Total(all[..k]) + Weight(all[k])
  {
    assert all[k..] == [all[k]] + all[k + 1..];
    assert positions[0] in positions && positions[0] in all[k..] && positions[0] != all[k];
    assert all[..k + 1] == all[..k] + [all[k]];
    TotalAppend(all[..k], [all[k]]);
    assert Total([all[k]]) == Weight(all[k]) + Total([]);
  }

  lemma Suffix(all: seq<Node>, k: nat)
    requires k <= |all|
    ensures Total(all) == Total(all[..k]) + Total(all[k..])
  {
    assert all == all[..k] + all[k..];
    TotalAppend(all[..k], all[k..]);
  }
}
