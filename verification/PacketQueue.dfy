/** The gateway's bounded queue: a singly linked list with head, tail and size. */
module PacketQueue {
  /** The fields of a gateway packet that the RF path carries. */
  datatype Packet = Packet(nodeId: nat, seqNumber: nat, payload: seq<nat>)

  class Node {
    const data: Packet
    var next: Node?
    /** The queue the node is in. */
    ghost var owner: Queue?

    constructor (data: Packet)
      ensures this.data == data && owner == null
    {
      this.data := data;
      next := null;
      owner := null;
    }
  }

  class Queue {
    var head: Node?
    var tail: Node?
    var size: int
    const limit: int
    ghost var items: seq<Node>

    /** The list runs through the items in order; a node is in one place of one queue. */
    ghost predicate Valid()
      reads this, items
    {
      && size == |items| <= limit
      && head == First(items)
      && (|items| > 0 ==> tail == items[|items| - 1])
      && (forall i :: 0 <= i < |items| ==> items[i].owner == this && items[i].next == First(items[i + 1..]))
      && (forall i, j :: 0 <= i < j < |items| ==> items[i] != items[j])
    }

    constructor (limit: int)
      ensures Valid() && fresh(this) && items == []
      ensures this.limit == if limit <= 0 then 65535 else limit
    {
      this.limit := if limit <= 0 then 65535 else limit;
      size := 0;
      head := null;
      tail := null;
      items := [];
    }
  }

  ghost function First(s: seq<Node>): Node? {
    if |s| == 0 then null else s[0]
  }

  /** The packets of a list, oldest first. */
  ghost function Data(s: seq<Node>): (r: seq<Packet>)
    ensures |r| == |s|
    ensures forall k :: 0 <= k < |s| ==> r[k] == s[k].data
  {
    seq(|s|, k requires 0 <= k < |s| => s[k].data)
  }

  /** Appends at the tail, or refuses a full queue or a missing argument and changes nothing. */
  method Push(q: Queue?, item: Node?) returns (ok: bool)
    requires q != null ==> q.Valid()
    requires item != null ==> item.owner == null
    modifies q, item, if q != null && |q.items| > 0 then {q.items[|q.items| - 1]} else {}
    ensures ok <==> q != null && item != null && old(|q.items|) < q.limit
    ensures q != null ==> q.Valid() && q.items == if ok then old(q.items) + [item] else old(q.items)
    ensures q != null ==> forall i :: 0 <= i < |old(q.items)| ==> old(q.items[i]).owner == q
    ensures item != null ==> item.owner == if ok then q else null
    ensures !ok ==> (q != null ==> unchanged(q)) && (item != null ==> unchanged(item))
  {
    if q == null || item == null {
      return false;
    }
    if q.size >= q.limit {
      return false;
    }
    item.next := null;
    if q.size == 0 {
      q.head := item;
      q.tail := item;
    } else {
      q.tail.next := item;
      q.tail := item;
    }
    q.size := q.size + 1;
    item.owner := q;
    ghost var was := q.items;
    q.items := q.items + [item];
    ok := true;
    forall i | 0 <= i < |q.items| ensures q.items[i].owner == q && q.items[i].next == First(q.items[i + 1..]) {
      if i < |was| - 1 {
        assert q.items[i].next == First(was[i + 1..]) == was[i + 1];
      }
    }
  }

  /** Removes the oldest item, or gives null on an empty queue. */
  method Pop(q: Queue) returns (item: Node?)
    requires q.Valid()
    modifies q, if |q.items| > 0 then {q.items[0]} else {}
    ensures q.Valid()
    ensures old(q.items) == [] ==> item == null && q.items == []
    ensures old(q.items) != [] ==> item == old(q.items[0]) && q.items == old(q.items[1..]) && item.owner == null
  {
    var empty := IsEmpty(q);
    if empty {
      return null;
    }
    item := q.head;
    q.head := q.head.next;
    q.size := q.size - 1;
    ghost var was := q.items;
    q.items := q.items[1..];
    item.owner := null;
    forall i | 0 <= i < |q.items| ensures q.items[i].owner == q && q.items[i].next == First(q.items[i + 1..]) {
      assert q.items[i] == was[i + 1];
      assert was[i + 1 + 1..] == q.items[i + 1..];
    }
  }

  /** A missing queue counts as not empty. */
  method IsEmpty(q: Queue?) returns (r: bool)
    requires q != null ==> q.Valid()
    ensures r <==> q != null && q.items == []
  {
    r := q != null && q.size == 0;
  }
}
