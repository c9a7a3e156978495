/** The gateway's thread bodies on linked queues, refining the step system. */
module Gateway {
  import opened PacketQueue
  import opened RfPipeline

  /** Valid queues whose nodes are all in the given set. */
  ghost predicate AllValid(queues: set<Queue>, nodes: set<Node>)
    reads queues, nodes
  {
    forall q :: q in queues ==> (forall x :: x in q.items ==> x in nodes) && q.Valid()
  }

  lemma Owned(q: Queue)
    requires q.Valid()
    ensures forall x :: x in q.items ==> x.owner == q
  {
  }

  lemma One(q: Queue, queues: set<Queue>, nodes: set<Node>)
    requires AllValid(queues, nodes) && q in queues
    ensures q.Valid() && forall x :: x in q.items ==> x in nodes
  {
  }

  /** A queue stays valid while it and its nodes stay as they are. */
  twostate lemma Untouched(q: Queue)
    requires old(q.Valid()) && q.head == old(q.head) && q.tail == old(q.tail) && q.size == old(q.size) && q.items == old(q.items)
    requires forall x :: x in q.items ==> x.next == old(x.next) && x.owner == old(x.owner)
    ensures q.Valid()
  {
    assert forall i :: 0 <= i < |q.items| ==> q.items[i] in q.items;
  }

  /** Queues and their nodes, and the one queue, if any, that a step works on. */
  datatype Area = Area(at: Queue?, queues: set<Queue>, nodes: set<Node>)

  /** The other queues, and the nodes that were in them, are as they were. */
  twostate predicate OthersKept(w: Area)
    reads w.queues, w.nodes
  {
    && (forall p :: p in w.queues && p != w.at ==> p.head == old(p.head) && p.tail == old(p.tail) && p.size == old(p.size) && p.items == old(p.items))
    && (forall x :: x in w.nodes && old(x.owner) != null && old(x.owner) != w.at ==> x.next == old(x.next) && x.owner == old(x.owner))
  }

  /** Work on one queue, on its nodes and on free nodes leaves the other queues valid. */
  twostate lemma StillValid(w: Area)
    requires old(AllValid(w.queues, w.nodes))
    requires w.at != null ==> w.at.Valid() && forall x :: x in w.at.items ==> x in w.nodes
    requires OthersKept(w)
    ensures AllValid(w.queues, w.nodes)
  {
    hide Queue.Valid;
    forall p | p in w.queues ensures (forall x :: x in p.items ==> x in w.nodes) && p.Valid() {
      if p != w.at {
        assert old(p.Valid());
        OwnedBefore(p);
        Untouched(p);
      }
    }
  }

  twostate lemma OwnedBefore(q: Queue)
    requires old(q.Valid())
    ensures forall x :: x in old(q.items) ==> old(x.owner) == q
  {
  }

  /** Push onto one queue of several that are valid together. */
  method PushOnto(q: Queue, item: Node, ghost queues: set<Queue>, ghost nodes: set<Node>) returns (ok: bool)
    requires AllValid(queues, nodes) && q in queues && item in nodes && item.owner == null
    modifies q, nodes
    ensures AllValid(queues, nodes)
    ensures ok <==> |old(q.items)| < q.limit
    ensures q.items == if ok then old(q.items) + [item] else old(q.items)
  {
    hide Queue.Valid, AllValid, First;
    One(q, queues, nodes);
    ghost var was := q.items;
    assert |was| > 0 ==> was[|was| - 1] in q.items;
    Owned(q);
    ok := Push(q, item);
    StillValid(Area(q, queues, nodes));
  }

  /** Pop from one queue of several that are valid together. */
  method PopFrom(q: Queue, ghost queues: set<Queue>, ghost nodes: set<Node>) returns (item: Node?)
    requires AllValid(queues, nodes) && q in queues
    modifies q, nodes
    ensures AllValid(queues, nodes)
    ensures old(q.items) == [] ==> item == null && q.items == []
    ensures old(q.items) != [] ==> item == old(q.items[0]) && q.items == old(q.items[1..]) && item.owner == null && item in nodes
  {
    hide Queue.Valid;
    assert |q.items| > 0 ==> q.items[0] in q.items;
    Owned(q);
    item := Pop(q);
    StillValid(Area(q, queues, nodes));
  }

  method NewNode(p: Packet, ghost queues: set<Queue>, ghost nodes: set<Node>) returns (node: Node)
    requires AllValid(queues, nodes)
    ensures AllValid(queues, nodes + {node}) && fresh(node) && node.data == p && node.owner == null
  {
    node := new Node(p);
  }

  method EmptyOf(q: Queue, ghost queues: set<Queue>, ghost nodes: set<Node>) returns (r: bool)
    requires AllValid(queues, nodes) && q in queues
    ensures AllValid(queues, nodes) && (r <==> q.items == [])
  {
    r := IsEmpty(q);
  }

  method EmptyQueues(n: nat) returns (queues: seq<Queue>, ghost all: set<Queue>)
    ensures |queues| == n && fresh(all) && AllValid(all, {})
    ensures forall k :: 0 <= k < n ==> queues[k] in all && queues[k].items == [] && queues[k].limit == NODE_QUEUE_SIZE
    ensures forall k, l :: 0 <= k < l < n ==> queues[k] != queues[l]
  {
    queues, all := [], {};
    var i := 0;
    while i < n
      invariant i <= n && |queues| == i && fresh(all) && AllValid(all, {})
      invariant forall k :: 0 <= k < i ==> queues[k] in all && queues[k].items == [] && queues[k].limit == NODE_QUEUE_SIZE
      invariant forall k, l :: 0 <= k < l < i ==> queues[k] != queues[l]
    {
      var q := new Queue(NODE_QUEUE_SIZE);
      queues, all := queues + [q], all + {q};
      i := i + 1;
    }
  }

  lemma Starts(s: Sys, n: nat)
    requires Shaped(s, n) && s.rf == s.tbf == [] && forall i :: 0 <= i < n ==> s.nodes[i] == []
    requires s.r == s.tbfQueueLength == s.nToken == 0 && s.log.attempted == [] && s.log.delivered == s.log.failed == 0
    requires forall i :: 0 <= i < n ==> s.gn[i] == s.arrSeq[i] == 0 && s.log.generated[i] == [] && s.log.dropped[i] == s.log.light[i] == 0
    ensures Init(s, n)
  {
  }

  class RfPath {
    const nodeQueues: seq<Queue>
    const rfQueue: Queue
    const tbfQueue: Queue
    /** Every queue of the path. */
    ghost const queues: set<Queue>
    var gn: seq<int>
    var arrSeq: seq<nat>
    var r: int
    var tbfQueueLength: int
    var nToken: int
    ghost var log: Log
    /** Every node that is or was in a queue of the path. */
    ghost var nodes: set<Node>

    /** The queues are different objects with the sizes main gives them. */
    ghost predicate Wired() {
      && (forall i :: 0 <= i < |nodeQueues| ==> nodeQueues[i] in queues) && rfQueue in queues && tbfQueue in queues
      && (forall i, j :: 0 <= i < j < |nodeQueues| ==> nodeQueues[i] != nodeQueues[j])
      && (forall i :: 0 <= i < |nodeQueues| ==> nodeQueues[i].limit == NODE_QUEUE_SIZE)
      && (forall i :: 0 <= i < |nodeQueues| ==> nodeQueues[i] != rfQueue && nodeQueues[i] != tbfQueue) && rfQueue != tbfQueue
      && rfQueue.limit == RF_QUEUE_SIZE && tbfQueue.limit == LIMIT
    }

    ghost predicate Valid()
      reads this, queues, nodes
    {
      Wired() && AllValid(queues, nodes) && Shaped(View(), |nodeQueues|)
    }

    ghost function NodeData(): (r: seq<seq<Packet>>)
      requires Wired()
      reads queues
      ensures |r| == |nodeQueues|
      ensures forall i :: 0 <= i < |r| ==> r[i] == Data(nodeQueues[i].items)
    {
      seq(|nodeQueues|, i requires 0 <= i < |nodeQueues| reads queues => Data(nodeQueues[i].items))
    }

    /** The step system's view of the queues and counters. */
    ghost function View(): Sys
      requires Wired()
      reads this, queues
    {
      Sys(NodeData(), gn, arrSeq, Data(rfQueue.items), r, Data(tbfQueue.items), tbfQueueLength, nToken, log)
    }

    /** Empty queues of the given sizes, and no token. */
    constructor (nodeQs: seq<Queue>, rfQ: Queue, tbfQ: Queue, ghost all: set<Queue>)
      requires AllValid(all, {})
      requires forall i :: 0 <= i < |nodeQs| ==> nodeQs[i] in all && nodeQs[i].items == [] && nodeQs[i].limit == NODE_QUEUE_SIZE
      requires forall i, j :: 0 <= i < j < |nodeQs| ==> nodeQs[i] != nodeQs[j]
      requires forall i :: 0 <= i < |nodeQs| ==> nodeQs[i] != rfQ && nodeQs[i] != tbfQ
      requires rfQ != tbfQ && rfQ in all && tbfQ in all && rfQ.items == tbfQ.items == []
      requires rfQ.limit == RF_QUEUE_SIZE && tbfQ.limit == LIMIT
      ensures Valid() && Init(View(), |nodeQs|)
    {
      nodeQueues, rfQueue, tbfQueue := nodeQs, rfQ, tbfQ;
      queues, nodes := all, {};
      var n := |nodeQs|;
      gn, arrSeq := seq(n, _ => 0), seq(n, _ => 0);
      r, tbfQueueLength, nToken := 0, 0, 0;
      log := Log(seq(n, _ => []), [], 0, 0, seq(n, _ => 0), seq(n, _ => 0));
      new;
      hide Queue.Valid, AllValid, Init, Data, NodeData;
      assert Wired();
      assert AllValid(queues, nodes);
      assert forall i :: 0 <= i < n ==> NodeData()[i] == [];
      ghost var s := View();
      assert Shaped(s, n) && s.rf == s.tbf == [];
      Starts(s, n);
    }

    /** Node queue i takes a free node. */
    method PushNodeQueue(i: nat, node: Node, ghost all: set<Node>)
      requires Wired() && i < |nodeQueues| && AllValid(queues, all) && node in all && node.owner == null
      modifies nodeQueues[i], all
      ensures AllValid(queues, all) && rfQueue.items == old(rfQueue.items) && tbfQueue.items == old(tbfQueue.items)
      ensures NodeData() == old(NodeData())[i := Pushed(old(NodeData())[i], node.data, NODE_QUEUE_SIZE)]
    {
      hide AllValid, Queue.Valid, Data, NodeData;
      ghost var was := NodeData();
      var ok := PushOnto(nodeQueues[i], node, queues, all);
      assert Data(nodeQueues[i].items) == Pushed(was[i], node.data, NODE_QUEUE_SIZE);
      assert NodeData() == was[i := Pushed(was[i], node.data, NODE_QUEUE_SIZE)];
    }

    /** Node queue i gives up its oldest node. */
    method PopNodeQueue(i: nat) returns (node: Node?)
      requires Wired() && i < |nodeQueues| && AllValid(queues, nodes)
      modifies nodeQueues[i], nodes
      ensures AllValid(queues, nodes) && rfQueue.items == old(rfQueue.items) && tbfQueue.items == old(tbfQueue.items)
      ensures old(NodeData())[i] == [] ==> node == null && NodeData() == old(NodeData())
      ensures old(NodeData())[i] != [] ==>
        && node != null && node in nodes && node.owner == null && node.data == old(NodeData())[i][0]
        && NodeData() == old(NodeData())[i := old(NodeData())[i][1..]]
    {
      hide AllValid, Queue.Valid, Data, NodeData;
      ghost var was := NodeData();
      node := PopFrom(nodeQueues[i], queues, nodes);
      if was[i] != [] {
        assert Data(nodeQueues[i].items) == was[i][1..];
        assert NodeData() == was[i := was[i][1..]];
      } else {
        assert NodeData() == was;
      }
    }

    /** The RF queue or the bucket's queue takes a free node. */
    method PushLater(q: Queue, node: Node) returns (ok: bool)
      requires Wired() && (q == rfQueue || q == tbfQueue) && AllValid(queues, nodes) && node in nodes && node.owner == null
      modifies q, nodes
      ensures AllValid(queues, nodes) && NodeData() == old(NodeData())
      ensures ok <==> |old(q.items)| < q.limit
      ensures Data(q.items) == Pushed(old(Data(q.items)), node.data, q.limit)
    {
      hide AllValid, Queue.Valid, Data, NodeData;
      ghost var was := NodeData();
      ghost var before := Data(q.items);
      ok := PushOnto(q, node, queues, nodes);
      assert NodeData() == was;
      assert Data(q.items) == Pushed(before, node.data, q.limit);
    }

    /** The RF queue or the bucket's queue gives up its oldest node. */
    method PopLater(q: Queue) returns (node: Node?)
      requires Wired() && (q == rfQueue || q == tbfQueue) && AllValid(queues, nodes)
      modifies q, nodes
      ensures AllValid(queues, nodes) && NodeData() == old(NodeData())
      ensures old(Data(q.items)) == [] ==> node == null && Data(q.items) == []
      ensures old(Data(q.items)) != [] ==>
        node != null && node in nodes && node.owner == null && node.data == old(Data(q.items))[0] && Data(q.items) == old(Data(q.items))[1..]
    {
      hide AllValid, Queue.Valid, Data, NodeData;
      ghost var was := NodeData();
      ghost var before := Data(q.items);
      node := PopFrom(q, queues, nodes);
      assert NodeData() == was;
      assert before != [] ==> Data(q.items) == before[1..];
    }

    /** A new node with packet p at the end of node queue i. */
    method AddPacket(i: nat, p: Packet)
      requires Valid() && i < |nodeQueues|
      modifies this`nodes, nodeQueues[i], nodes
      ensures Valid() && fresh(nodes - old(nodes))
      ensures View() == old(View()).(nodes := old(View()).nodes[i := Pushed(old(View()).nodes[i], p, NODE_QUEUE_SIZE)])
    {
      hide AllValid, Queue.Valid, Data, NodeData;
      ghost var s := View();
      var node := NewNode(p, queues, nodes);
      assert NodeData() == s.nodes;
      ghost var all := nodes + {node};
      PushNodeQueue(i, node, all);
      label stored:
      nodes := all;
      StillValid@stored(Area(null, queues, nodes));
      assert NodeData() == old@stored(NodeData());
    }

    /** generate_packet for node i. */
    method GeneratePacket(i: nat, payload: seq<nat>)
      requires Valid() && i < |nodeQueues|
      modifies this, queues, nodes
      ensures Valid() && View() == GenerateStep(old(View()), i, payload)
      ensures fresh(nodes - old(nodes))
    {
      hide AllValid, Queue.Valid, Data, NodeData;
      if gn[i] + 1 < NODE_QUEUE_SIZE {
        var p := Packet(i + 1, arrSeq[i], payload);
        AddPacket(i, p);
        label stored:
        arrSeq := arrSeq[i := (arrSeq[i] + 1) % MAX_SEQ_NUMBER];
        gn := gn[i := gn[i] + 1];
        log := log.(generated := log.generated[i := log.generated[i] + [p]]);
        StillValid@stored(Area(null, queues, nodes));
        assert NodeData() == old@stored(NodeData());
        assert Valid();
      }
    }

    /** schedule_packet for node i, with the scheduler's choice of mode. */
    method SchedulePacket(i: nat, mode: int)
      requires Valid() && i < |nodeQueues|
      modifies this, queues, nodes
      ensures Valid() && View() == ScheduleStep(old(View()), i, mode) && nodes == old(nodes)
    {
      hide AllValid, Queue.Valid, Data, NodeData;
      ghost var s := View();
      if mode != IDLE_MODE {
        var temp := PopNodeQueue(i);
        if temp != null {
          if mode == RF_MODE {
            ToRf(i, temp);
          } else {
            ToLight(i);
          }
        }
      }
    }

    /** A packet taken from node queue i goes to the RF queue, or is lost when that is full. */
    method ToRf(i: nat, temp: Node)
      requires Valid() && i < |nodeQueues| && temp in nodes && temp.owner == null
      modifies this, rfQueue, nodes
      ensures Valid() && nodes == old(nodes)
      ensures var s := old(View());
        View() == s.(gn := s.gn[i := s.gn[i] - 1], r := s.r + 1, rf := Pushed(s.rf, temp.data, RF_QUEUE_SIZE),
                     log := if |s.rf| >= RF_QUEUE_SIZE then s.log.(dropped := s.log.dropped[i := s.log.dropped[i] + 1]) else s.log)
    {
      hide AllValid, Queue.Valid, Data, NodeData;
      gn := gn[i := gn[i] - 1];
      StillValid(Area(null, queues, nodes));
      var ok := PushLater(rfQueue, temp);
      label queued:
      r := r + 1;
      if !ok {
        log := log.(dropped := log.dropped[i := log.dropped[i] + 1]);
      }
      StillValid@queued(Area(null, queues, nodes));
      assert NodeData() == old@queued(NodeData());
    }

    /** A packet taken from node queue i leaves for the light link. */
    method ToLight(i: nat)
      requires Valid() && i < |nodeQueues|
      modifies this
      ensures Valid() && nodes == old(nodes)
      ensures var s := old(View());
        View() == s.(gn := s.gn[i := s.gn[i] - 1], log := s.log.(light := s.log.light[i := s.log.light[i] + 1]))
    {
      hide AllValid, Queue.Valid, Data, NodeData;
      gn := gn[i := gn[i] - 1];
      log := log.(light := log.light[i := log.light[i] + 1]);
      StillValid(Area(null, queues, nodes));
    }

    /** transmit_rf: from the RF queue to the bucket's queue. */
    method TransmitRf()
      requires Valid()
      modifies this, queues, nodes
      ensures Valid() && View() == MoveRfStep(old(View())) && nodes == old(nodes)
    {
      hide AllValid, Queue.Valid, Data, NodeData;
      ghost var s := View();
      var empty := EmptyOf(rfQueue, queues, nodes);
      if !empty && tbfQueueLength < LIMIT {
        var temp := PopLater(rfQueue);
        if temp != null {
          var ok := PushLater(tbfQueue, temp);
          label moved:
          tbfQueueLength := tbfQueueLength + 1;
          r := r - 1;
          StillValid@moved(Area(null, queues, nodes));
        }
      }
    }

    /** tbf_transmit, with the radio's result. */
    method TbfTransmit(result: int)
      requires Valid()
      modifies this, queues, nodes
      ensures Valid() && View() == TransmitStep(old(View()), result) && nodes == old(nodes)
    {
      hide AllValid, Queue.Valid, Data, NodeData;
      ghost var s := View();
      var empty := EmptyOf(tbfQueue, queues, nodes);
      if !empty && nToken > 0 {
        var temp := PopLater(tbfQueue);
        if temp != null {
          Settle(temp.data, result);
        }
      }
    }

    /** The counters after the radio took or refused a packet. */
    method Settle(p: Packet, result: int)
      requires Valid()
      modifies this
      ensures Valid() && nodes == old(nodes)
      ensures var s := old(View());
        if result > 0 then
          View() == s.(nToken := s.nToken - 1, tbfQueueLength := s.tbfQueueLength - 1,
                       log := s.log.(attempted := s.log.attempted + [p], delivered := s.log.delivered + 1))
        else View() == s.(log := s.log.(attempted := s.log.attempted + [p], failed := s.log.failed + 1))
    {
      hide AllValid, Queue.Valid, Data, NodeData;
      log := log.(attempted := log.attempted + [p]);
      if result > 0 {
        nToken := nToken - 1;
        tbfQueueLength := tbfQueueLength - 1;
        log := log.(delivered := log.delivered + 1);
      } else {
        log := log.(failed := log.failed + 1);
      }
      StillValid(Area(null, queues, nodes));
    }

    /** add_token. */
    method RefillToken()
      requires Valid()
      modifies this
      ensures Valid() && View() == AddTokenStep(old(View())) && nodes == old(nodes)
    {
      if BURST - nToken >= TOKEN_RATE {
        nToken := nToken + TOKEN_RATE;
      }
    }

    method Perform(a: Action)
      requires Valid() && Acts(a, |nodeQueues|)
      modifies this, queues, nodes
      ensures Valid() && View() == Next(old(View()), a) && fresh(nodes - old(nodes))
    {
      hide Valid, Wired, View, GenerateStep, ScheduleStep, MoveRfStep, TransmitStep, AddTokenStep;
      match a
      case Generate(i, payload) => GeneratePacket(i, payload);
      case Schedule(i, mode) => SchedulePacket(i, mode);
      case MoveRf => TransmitRf();
      case Transmit(result) => TbfTransmit(result);
      case AddToken => RefillToken();
    }

    /** Any interleaving of thread iterations takes the linked queues where the step system goes. */
    method Execute(acts: seq<Action>)
      requires Valid() && Inv(View(), |nodeQueues|) && AllAct(acts, |nodeQueues|)
      modifies this, queues, nodes
      ensures Valid() && View() == Run(old(View()), acts, |nodeQueues|) && fresh(nodes - old(nodes))
      decreases |acts|
    {
      hide Wired, View, Inv, Next, AllValid, Shaped;
      if |acts| > 0 {
        StepKeeps(View(), |nodeQueues|, acts[0]);
        Perform(acts[0]);
        Execute(acts[1..]);
      }
    }
  }

  /** The queues that main sets up for n nodes. */
  method Setup(n: nat) returns (path: RfPath)
    ensures fresh(path) && path.Valid() && Init(path.View(), n)
  {
    hide Queue.Valid, Init;
    var nodeQs, all := EmptyQueues(n);
    var rfQ := new Queue(RF_QUEUE_SIZE);
    var tbfQ := new Queue(LIMIT);
    path := new RfPath(nodeQs, rfQ, tbfQ, all + {rfQ, tbfQ});
  }
}
