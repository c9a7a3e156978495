/** The driver's pool and transmit queue as linked lists through one next field, refining the step system. */
module VlcDevice {
  import opened TxPool

  class Packet {
    var next: Packet?
    var data: seq<nat>

    constructor (next: Packet?)
      ensures this.next == next && data == []
    {
      this.next := next;
      data := [];
    }
  }

  ghost function First(s: seq<Packet>): Packet? {
    if |s| == 0 then null else s[0]
  }

  /** The next fields run through s and end in null. */
  ghost predicate Chain(s: seq<Packet>)
    reads s
  {
    forall i :: 0 <= i < |s| ==> s[i].next == First(s[i + 1..])
  }

  /** A list variable: its first packet, the packets in order, all of them allocated buffers. */
  datatype List = List(first: Packet?, packets: seq<Packet>)

  ghost predicate Linked(l: List, all: set<Packet>)
    reads all
  {
    (forall i :: 0 <= i < |l.packets| ==> l.packets[i] in all) && l.first == First(l.packets) && Chain(l.packets)
  }

  /** The buffers hold the payloads the step system says. */
  ghost predicate Stores(data: map<Packet, seq<nat>>, all: set<Packet>)
    reads all
  {
    data.Keys == all && forall p :: p in all ==> p.data == data[p]
  }

  /** A list stays linked while its packets keep their next fields. */
  twostate lemma ChainKept(s: seq<Packet>)
    requires old(Chain(s)) && forall i :: 0 <= i < |s| ==> s[i].next == old(s[i].next)
    ensures Chain(s)
  {
  }

  /** A buffer in flight is in neither list. */
  lemma InFlight(d: Dev<Packet>, all: set<Packet>, p: Packet)
    requires Inv(d, all) && p in d.place && d.place[p] != Pooled && d.place[p] != Queued
    ensures p in all && d.data.Keys == all
    ensures (forall i :: 0 <= i < |d.pool| ==> d.pool[i] != p) && forall i :: 0 <= i < |d.queue| ==> d.queue[i] != p
  {
  }

  lemma ChainTail(s: seq<Packet>)
    requires s != [] && Chain(s)
    ensures Chain(s[1..]) && s[0].next == First(s[1..])
  {
    forall i | 0 <= i < |s[1..]| ensures s[1..][i].next == First(s[1..][i + 1..]) {
      assert s[1..][i] == s[i + 1] && s[1..][i + 1..] == s[i + 2..];
    }
  }

  lemma ChainPush(p: Packet, s: seq<Packet>)
    requires Chain(s) && p.next == First(s)
    ensures Chain([p] + s)
  {
    forall i | 0 <= i < |[p] + s| ensures ([p] + s)[i].next == First(([p] + s)[i + 1..]) {
      assert ([p] + s)[i + 1..] == s[i..];
      if i > 0 {
        assert ([p] + s)[i] == s[i - 1];
      }
    }
  }

  /** A chain with p linked behind its last element. */
  lemma ChainAppend(s: seq<Packet>, p: Packet)
    requires p.next == null && (|s| > 0 ==> s[|s| - 1].next == p)
    requires forall i :: 0 <= i < |s| - 1 ==> s[i].next == s[i + 1]
    ensures Chain(s + [p])
  {
    forall i | 0 <= i < |s| + 1 ensures (s + [p])[i].next == First((s + [p])[i + 1..]) {
      if i < |s| {
        assert (s + [p])[i + 1..][0] == (s + [p])[i + 1];
      }
    }
  }

  /** vlc_setup_pool: each new buffer goes to the front. */
  method SetupPool(n: nat) returns (head: Packet?, ghost pool: seq<Packet>)
    ensures |pool| == n && head == First(pool) && Chain(pool) && Distinct(pool)
    ensures forall k :: 0 <= k < n ==> fresh(pool[k]) && pool[k].data == []
  {
    head, pool := null, [];
    var i := 0;
    while i < n
      invariant i <= n && |pool| == i && head == First(pool) && Chain(pool) && Distinct(pool)
      invariant forall k :: 0 <= k < i ==> fresh(pool[k]) && pool[k].data == []
    {
      var pkt := new Packet(head);
      ChainPush(pkt, pool);
      head := pkt;
      pool := [pkt] + pool;
      i := i + 1;
    }
  }

  /** The walk of vlc_enqueue_pkt to the end of the list. */
  method FindLast(first: Packet, ghost s: seq<Packet>) returns (last: Packet)
    requires s != [] && first == s[0] && Chain(s)
    ensures last == s[|s| - 1] && forall i :: 0 <= i < |s| - 1 ==> s[i].next == s[i + 1]
  {
    last := first;
    ghost var k := 0;
    while last.next != null
      invariant 0 <= k < |s| && last == s[k]
      decreases |s| - k
    {
      last := last.next;
      k := k + 1;
    }
  }

  lemma ChainEmpty()
    ensures Chain([])
  {
  }

  /** Everything pooled. */
  ghost function Start(pool: seq<Packet>): Dev<Packet> {
    Dev(pool, [], map p | p in pool :: Pooled, map p | p in pool :: [], false, false, [], [])
  }

  lemma StartInit(pool: seq<Packet>, all: set<Packet>)
    requires pool != [] && Distinct(pool) && all == (set p | p in pool) && forall k :: 0 <= k < |pool| ==> pool[k].data == []
    ensures var d := Start(pool);
      Init(d, all) && Inv(d, all) && d.pool == pool && d.queue == [] && !d.stopped && !d.exiting && Stores(d.data, all)
  {
    InitInv(Start(pool), all);
  }

  class Device {
    var ppool: Packet?
    var txQueue: Packet?
    var stopped: bool
    var flagExit: bool
    ghost var dev: Dev<Packet>
    ghost var all: set<Packet>

    ghost predicate Valid()
      reads this, all
    {
      && Inv(dev, all) && stopped == dev.stopped && flagExit == dev.exiting
      && Stores(dev.data, all) && Linked(List(ppool, dev.pool), all) && Linked(List(txQueue, dev.queue), all)
    }

    /** The buffers of the pool and no others; the queue is started. */
    constructor (head: Packet?, ghost pool: seq<Packet>)
      requires pool != [] && head == First(pool) && Chain(pool) && Distinct(pool)
      requires forall k :: 0 <= k < |pool| ==> pool[k].data == []
      ensures Valid() && Init(dev, all) && dev.pool == pool
    {
      ppool, txQueue := head, null;
      stopped, flagExit := false, false;
      all, dev := (set p | p in pool), Start(pool);
      new;
      hide Chain, Inv, Init, Start, Distinct;
      StartInit(pool, all);
      ChainKept(pool);
      ChainEmpty();
    }

    /** vlc_get_tx_buffer: the network stack calls it only while the queue is running. */
    method GetTxBuffer() returns (pkt: Packet)
      requires Valid() && !stopped
      modifies this
      ensures Valid() && all == old(all)
      ensures old(dev.pool) != [] && pkt == old(dev.pool[0]) && dev == Next(old(dev), Get)
    {
      ghost var d := dev;
      hide Chain, Inv;
      GetEnabled(d, all);
      GetKeeps(d, all);
      ChainTail(d.pool);
      pkt := ppool;
      ppool := pkt.next;
      if ppool == null {
        stopped := true;
      }
      dev := Next(dev, Get);
    }

    /** The part of vlc_tx between taking the buffer and enqueueing it. */
    method FillBuffer(pkt: Packet, bytes: seq<nat>)
      requires Valid() && At(dev, pkt, Filling)
      modifies this, pkt
      ensures Valid() && all == old(all)
      ensures pkt.next == null && dev == Next(old(dev), Fill(pkt, bytes))
    {
      hide Chain, Inv;
      InFlight(dev, all, pkt);
      WriteKeeps(dev, all, pkt, bytes);
      pkt.next := null;
      pkt.data := bytes;
      ChainKept(dev.pool);
      ChainKept(dev.queue);
      dev := Next(dev, Fill(pkt, bytes));
    }

    /** vlc_enqueue_pkt: walks to the last packet and links the new one behind it. */
    method EnqueuePkt(pkt: Packet)
      requires Valid() && At(dev, pkt, Filling) && pkt.next == null
      modifies this, all
      ensures dev == Next(old(dev), Enqueue(pkt))
      ensures Valid() && all == old(all)
    {
      hide Inv, Chain;
      ghost var d := dev;
      InFlight(d, all, pkt);
      EnqueueKeeps(d, all, pkt);
      if txQueue == null {
        txQueue := pkt;
      } else {
        var last := FindLast(txQueue, d.queue);
        LastApart(d, all);
        last.next := pkt;
      }
      ChainKept(d.pool);
      ChainAppend(d.queue, pkt);
      hide Stores;
      assert Stores(d.data, all);
      dev := Next(dev, Enqueue(pkt));
    }

    /** vlc_dequeue_pkt: null on an empty queue. */
    method DequeuePkt() returns (pkt: Packet?)
      requires Valid()
      modifies this
      ensures Valid() && all == old(all)
      ensures pkt == First(old(dev.queue)) && Enabled(old(dev), Dequeue) && dev == Next(old(dev), Dequeue)
    {
      hide Chain, Inv;
      ghost var d := dev;
      DequeueEnabled(d, all);
      DequeueKeeps(d, all);
      pkt := txQueue;
      if pkt != null {
        ChainTail(d.queue);
        txQueue := pkt.next;
      }
      dev := Next(dev, Dequeue);
    }

    /** What encoding does to a dequeued packet: its bytes change. */
    method EncodePkt(pkt: Packet, bytes: seq<nat>)
      requires Valid() && At(dev, pkt, Leaving)
      modifies this, pkt
      ensures dev == Next(old(dev), Encode(pkt, bytes))
      ensures Valid() && all == old(all)
    {
      hide Chain, Inv;
      InFlight(dev, all, pkt);
      WriteKeeps(dev, all, pkt, bytes);
      pkt.data := bytes;
      ChainKept(dev.pool);
      ChainKept(dev.queue);
      dev := Next(dev, Encode(pkt, bytes));
    }

    /** vlc_release_buffer: to the front of the pool; wakes a stopped queue when the pool was empty and the driver is not exiting. */
    method ReleaseBuffer(pkt: Packet)
      requires Valid() && At(dev, pkt, Leaving)
      modifies this, pkt
      ensures dev == Next(old(dev), Release(pkt))
      ensures Valid() && all == old(all)
    {
      hide Chain, Inv;
      ghost var d := dev;
      InFlight(d, all, pkt);
      ReleaseKeeps(d, all, pkt);
      pkt.next := ppool;
      ppool := pkt;
      ChainKept(d.pool);
      ChainKept(d.queue);
      ChainPush(pkt, d.pool);
      hide Partition, Stores;
      assert Stores(d.data, all);
      if stopped && pkt.next == null && !flagExit {
        stopped := false;
      }
      dev := Next(dev, Release(pkt));
    }

    /** vlc_tx: a packet offered while the queue runs is accepted, behind all earlier ones. */
    method VlcTx(bytes: seq<nat>) returns (ghost pkt: Packet)
      requires Valid() && !stopped
      modifies this, all
      ensures Valid() && all == old(all)
      ensures Run(old(dev), [Get, Fill(pkt, bytes), Enqueue(pkt)], dev)
      ensures dev.accepted == old(dev.accepted) + [bytes] && dev.sent == old(dev.sent)
    {
      hide Chain, Inv, Linked, Stores;
      ghost var a := dev;
      var buffer := GetTxBuffer();
      InFlightKnown(a, all, dev, buffer);
      ghost var b := dev;
      FillBuffer(buffer, bytes);
      ghost var c := dev;
      EnqueuePkt(buffer);
      pkt := buffer;
      ThreeSteps(a, b, c, dev, pkt, bytes);
    }

    /** The timer's turn with the queue: the oldest packet leaves, is encoded into its buffer, and the buffer is released. */
    method TimerTurn(encoded: seq<nat>)
      requires Valid()
      modifies this, all
      ensures Valid() && all == old(all) && dev.accepted == old(dev.accepted)
      ensures old(dev.queue) == [] ==> dev == old(dev)
      ensures old(dev.queue) != [] ==>
        && old(dev.queue[0]) in old(dev.data) && dev.sent == old(dev.sent) + [old(dev.data)[old(dev.queue[0])]]
        && dev.queue == old(dev.queue[1..]) && dev.pool == [old(dev.queue[0])] + old(dev.pool)
    {
      hide Chain, Inv, Stores;
      if txQueue != null {
        ghost var a := dev;
        var pkt := DequeuePkt();
        LeavingKnown(a, all, dev, pkt);
        EncodePkt(pkt, encoded);
        ReleaseBuffer(pkt);
      }
    }
  }

  lemma InFlightKnown(a: Dev<Packet>, all: set<Packet>, b: Dev<Packet>, p: Packet)
    requires Inv(a, all) && Enabled(a, Get) && b == Next(a, Get) && p == a.pool[0]
    ensures At(b, p, Filling) && p in all
  {
    assert p in a.pool;
  }

  lemma LeavingKnown(a: Dev<Packet>, all: set<Packet>, b: Dev<Packet>, p: Packet)
    requires Inv(a, all) && a.queue != [] && Enabled(a, Dequeue) && b == Next(a, Dequeue) && p == a.queue[0]
    ensures At(b, p, Leaving)
  {
    assert p in a.queue;
  }

  lemma ThreeSteps(a: Dev<Packet>, b: Dev<Packet>, c: Dev<Packet>, d: Dev<Packet>, p: Packet, bytes: seq<nat>)
    requires Enabled(a, Get) && b == Next(a, Get) && Enabled(b, Fill(p, bytes)) && c == Next(b, Fill(p, bytes))
    requires Enabled(c, Enqueue(p)) && d == Next(c, Enqueue(p))
    ensures Run(a, [Get, Fill(p, bytes), Enqueue(p)], d)
  {
    hide Next;
    var acts: seq<Action<Packet>> := [Get, Fill(p, bytes), Enqueue(p)];
    assert acts[1..] == [Fill(p, bytes), Enqueue(p)] && acts[1..][1..] == [Enqueue(p)] && acts[1..][1..][1..] == [];
    assert Run(d, acts[1..][1..][1..], d);
    assert Run(c, acts[1..][1..], d);
    assert Run(b, acts[1..], d);
  }

  /** The device at module start, with n buffers allocated. */
  method Setup(n: nat) returns (device: Device)
    requires n > 0
    ensures fresh(device) && device.Valid() && Init(device.dev, device.all) && |device.dev.pool| == n
  {
    hide Chain, Init, Inv, Distinct;
    var head, pool := SetupPool(n);
    device := new Device(head, pool);
  }

  /** The last queued packet is not in the pool, nor earlier in the queue. */
  lemma LastApart(d: Dev<Packet>, all: set<Packet>)
    requires Inv(d, all) && d.queue != []
    ensures forall i :: 0 <= i < |d.pool| ==> d.pool[i] != d.queue[|d.queue| - 1]
    ensures forall i :: 0 <= i < |d.queue| - 1 ==> d.queue[i] != d.queue[|d.queue| - 1]
  {
    var last := d.queue[|d.queue| - 1];
    assert last in d.queue;
  }
}
