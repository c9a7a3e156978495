/** The gateway's RF path as a step system: packets move from the node queues through the RF queue
    and the token bucket's queue to the radio, one thread iteration at a time, in any interleaving. */
module RfPipeline {
  import opened PacketQueue

  const NODE_QUEUE_SIZE := 1000000
  const RF_QUEUE_SIZE := 300000
  const LIMIT := 1
  const BURST := 6
  const TOKEN_RATE := 1
  const MAX_SEQ_NUMBER: nat := 500000
  const IDLE_MODE := -1
  const RF_MODE := 0

  /** What has happened so far: packets generated for each node, packets handed to the radio, how many of those it
      took and refused, and for each node how many a full RF queue dropped and how many went to the light link. */
  datatype Log = Log(generated: seq<seq<Packet>>, attempted: seq<Packet>, delivered: nat, failed: nat, dropped: seq<nat>, light: seq<nat>)

  datatype Sys = Sys(nodes: seq<seq<Packet>>, gn: seq<int>, arrSeq: seq<nat>, rf: seq<Packet>, r: int,
                     tbf: seq<Packet>, tbfQueueLength: int, nToken: int, log: Log)

  /** One iteration of generate_packet or schedule_packet for node i, of transmit_rf, of tbf_transmit with the
      radio's result, or of add_token. */
  datatype Action = Generate(i: nat, payload: seq<nat>) | Schedule(i: nat, mode: int) | MoveRf | Transmit(result: int) | AddToken

  ghost predicate Shaped(s: Sys, n: nat) {
    && |s.nodes| == |s.gn| == |s.arrSeq| == n
    && |s.log.generated| == |s.log.dropped| == |s.log.light| == n
  }

  ghost predicate Acts(a: Action, n: nat) {
    (a.Generate? ==> a.i < n) && (a.Schedule? ==> a.i < n)
  }

  /** A bounded queue drops what does not fit. */
  ghost function Pushed(q: seq<Packet>, p: Packet, limit: int): seq<Packet> {
    if |q| >= limit then q else q + [p]
  }

  ghost function GenerateStep(s: Sys, i: nat, payload: seq<nat>): Sys
    requires Shaped(s, |s.nodes|) && i < |s.nodes|
  {
    if s.gn[i] + 1 < NODE_QUEUE_SIZE then
      var p := Packet(i + 1, s.arrSeq[i], payload);
      s.(nodes := s.nodes[i := Pushed(s.nodes[i], p, NODE_QUEUE_SIZE)], gn := s.gn[i := s.gn[i] + 1],
         arrSeq := s.arrSeq[i := (s.arrSeq[i] + 1) % MAX_SEQ_NUMBER],
         log := s.log.(generated := s.log.generated[i := s.log.generated[i] + [p]]))
    else s
  }

  ghost function ScheduleStep(s: Sys, i: nat, mode: int): Sys
    requires Shaped(s, |s.nodes|) && i < |s.nodes|
  {
    if mode == IDLE_MODE || s.nodes[i] == [] then s
    else
      var p := s.nodes[i][0];
      var t := s.(nodes := s.nodes[i := s.nodes[i][1..]], gn := s.gn[i := s.gn[i] - 1]);
      if mode == RF_MODE then
        t.(rf := Pushed(s.rf, p, RF_QUEUE_SIZE), r := s.r + 1,
           log := if |s.rf| >= RF_QUEUE_SIZE then s.log.(dropped := s.log.dropped[i := s.log.dropped[i] + 1]) else s.log)
      else t.(log := s.log.(light := s.log.light[i := s.log.light[i] + 1]))
  }

  ghost function MoveRfStep(s: Sys): Sys {
    if s.rf != [] && s.tbfQueueLength < LIMIT then
      s.(rf := s.rf[1..], tbf := Pushed(s.tbf, s.rf[0], LIMIT), tbfQueueLength := s.tbfQueueLength + 1, r := s.r - 1)
    else s
  }

  ghost function TransmitStep(s: Sys, result: int): Sys {
    if s.tbf != [] && s.nToken > 0 then
      var t := s.(tbf := s.tbf[1..], log := s.log.(attempted := s.log.attempted + [s.tbf[0]]));
      if result > 0 then
        t.(nToken := s.nToken - 1, tbfQueueLength := s.tbfQueueLength - 1, log := t.log.(delivered := s.log.delivered + 1))
      else t.(log := t.log.(failed := s.log.failed + 1))
    else s
  }

  ghost function AddTokenStep(s: Sys): Sys {
    if BURST - s.nToken >= TOKEN_RATE then s.(nToken := s.nToken + TOKEN_RATE) else s
  }

  ghost function Next(s: Sys, a: Action): Sys
    requires Shaped(s, |s.nodes|) && Acts(a, |s.nodes|)
  {
    match a
    case Generate(i, payload) => GenerateStep(s, i, payload)
    case Schedule(i, mode) => ScheduleStep(s, i, mode)
    case MoveRf => MoveRfStep(s)
    case Transmit(result) => TransmitStep(s, result)
    case AddToken => AddTokenStep(s)
  }

  ghost predicate Init(s: Sys, n: nat) {
    && Shaped(s, n)
    && (forall i :: 0 <= i < n ==> s.nodes[i] == [] && s.gn[i] == s.arrSeq[i] == 0 && s.log.generated[i] == [] && s.log.dropped[i] == 0 && s.log.light[i] == 0)
    && s.rf == s.tbf == [] && s.r == s.tbfQueueLength == s.nToken == 0
    && s.log.attempted == [] && s.log.delivered == s.log.failed == 0
  }

  // ---------- order ----------

  /** a can be had from b by leaving out elements: same order, each element used at most once. */
  ghost predicate Subsequence(a: seq<Packet>, b: seq<Packet>)
    decreases |b|
  {
    a == [] || (b != [] && (Subsequence(a, b[..|b| - 1]) || (a[|a| - 1] == b[|b| - 1] && Subsequence(a[..|a| - 1], b[..|b| - 1]))))
  }

  /** The packets for one node, in their order. */
  ghost function OfNode(s: seq<Packet>, id: nat): (r: seq<Packet>)
    ensures |r| <= |s|
  {
    if s == [] then []
    else
      var rest := OfNode(s[..|s| - 1], id);
      if s[|s| - 1].nodeId == id then rest + [s[|s| - 1]] else rest
  }

  lemma {:induction false} OfNodeConcat(a: seq<Packet>, b: seq<Packet>, id: nat)
    ensures OfNode(a + b, id) == OfNode(a, id) + OfNode(b, id)
    decreases |b|
  {
    if b == [] {
      assert a + b == a;
    } else {
      hide OfNode;
      var front, p := b[..|b| - 1], b[|b| - 1];
      OfNodeConcat(a, front, id);
      assert b == front + [p];
      Regroup(a, front, p);
      OfNodeAppend(front, p, id);
      OfNodeAppend(a + front, p, id);
      Regroup(OfNode(a, id), OfNode(front, id), p);
    }
  }

  lemma Regroup(a: seq<Packet>, b: seq<Packet>, p: Packet)
    ensures a + (b + [p]) == (a + b) + [p]
  {
  }

  lemma OfNodeAppend(a: seq<Packet>, p: Packet, id: nat)
    ensures OfNode(a + [p], id) == if p.nodeId == id then OfNode(a, id) + [p] else OfNode(a, id)
  {
    assert (a + [p])[..|a|] == a;
  }

  lemma SubsequenceExtend(a: seq<Packet>, b: seq<Packet>, p: Packet)
    requires Subsequence(a, b)
    ensures Subsequence(a + [p], b + [p])
  {
    assert (a + [p])[..|a|] == a && (b + [p])[..|b|] == b;
  }

  /** Leaving out one more element. */
  lemma {:induction false} SubsequenceDrop(a: seq<Packet>, p: Packet, c: seq<Packet>, b: seq<Packet>)
    requires Subsequence(a + [p] + c, b)
    ensures Subsequence(a + c, b)
    decreases |b|
  {
    var d := a + [p] + c;
    var front := b[..|b| - 1];
    if Subsequence(d, front) {
      SubsequenceDrop(a, p, c, front);
    } else {
      assert Subsequence(d[..|d| - 1], front) && d[|d| - 1] == b[|b| - 1];
      if c == [] {
        assert d[..|d| - 1] == a == a + c;
      } else {
        var short := c[..|c| - 1];
        assert d[..|d| - 1] == a + [p] + short;
        SubsequenceDrop(a, p, short, front);
        assert (a + c)[..|a + c| - 1] == a + short;
      }
    }
  }

  lemma {:induction false} SubsequencePrefix(a: seq<Packet>, c: seq<Packet>, b: seq<Packet>)
    requires Subsequence(a + c, b)
    ensures Subsequence(a, b)
    decreases |c|
  {
    if c == [] {
      assert a + c == a;
    } else {
      var short := c[..|c| - 1];
      assert a + c == (a + short) + [c[|c| - 1]] + [];
      SubsequenceDrop(a + short, c[|c| - 1], [], b);
      assert a + short + [] == a + short;
      SubsequencePrefix(a, short, b);
    }
  }

  lemma {:induction false} SubsequenceLength(a: seq<Packet>, b: seq<Packet>)
    requires Subsequence(a, b)
    ensures |a| <= |b|
    ensures |a| == |b| ==> a == b
    decreases |b|
  {
    if a != [] {
      var front := b[..|b| - 1];
      if Subsequence(a, front) {
        SubsequenceLength(a, front);
      } else {
        SubsequenceLength(a[..|a| - 1], front);
        assert a == a[..|a| - 1] + [a[|a| - 1]] && b == front + [b[|b| - 1]];
      }
    }
  }

  // ---------- the invariant ----------

  /** Everything past the node queues, oldest first. */
  ghost function Line(s: Sys): seq<Packet> {
    s.log.attempted + s.tbf + s.rf
  }

  ghost predicate Tagged(q: seq<Packet>, id: nat) {
    forall k :: 0 <= k < |q| ==> q[k].nodeId == id
  }

  /** Node i's packets: in order, all accounted for, and counted by gn. */
  ghost predicate NodeInv(s: Sys, i: nat)
    requires Shaped(s, |s.nodes|) && i < |s.nodes|
  {
    && s.gn[i] == |s.nodes[i]| < NODE_QUEUE_SIZE
    && Tagged(s.nodes[i], i + 1)
    && Subsequence(OfNode(Line(s), i + 1) + s.nodes[i], s.log.generated[i])
    && |s.log.generated[i]| == |OfNode(Line(s), i + 1)| + |s.nodes[i]| + s.log.dropped[i] + s.log.light[i]
  }

  ghost function Total(s: seq<nat>): nat {
    if s == [] then 0 else Total(s[..|s| - 1]) + s[|s| - 1]
  }

  lemma {:induction false} TotalOneMore(s: seq<nat>, i: nat)
    requires i < |s|
    ensures Total(s[i := s[i] + 1]) == Total(s) + 1
  {
    var t, n := s[i := s[i] + 1], |s| - 1;
    if i == n {
      assert t[..n] == s[..n];
    } else {
      TotalOneMore(s[..n], i);
      assert t[..n] == s[..n][i := s[..n][i] + 1];
    }
  }

  lemma {:induction false} TotalNone(s: seq<nat>)
    requires forall i :: 0 <= i < |s| ==> s[i] == 0
    ensures Total(s) == 0
  {
    if s != [] {
      TotalNone(s[..|s| - 1]);
    }
  }

  /** r counts the RF queue and, for good, what was dropped at it. */
  ghost predicate Counters(s: Sys) {
    && |s.rf| <= RF_QUEUE_SIZE && s.r == |s.rf| + Total(s.log.dropped)
    && s.tbfQueueLength == |s.tbf| + s.log.failed <= LIMIT
    && 0 <= s.nToken <= BURST
    && |s.log.attempted| == s.log.delivered + s.log.failed
  }

  ghost predicate Inv(s: Sys, n: nat) {
    Shaped(s, n) && Counters(s) && forall i :: 0 <= i < n ==> NodeInv(s, i)
  }

  lemma InitInv(s: Sys, n: nat)
    requires Init(s, n)
    ensures Inv(s, n)
  {
    assert Line(s) == [];
    TotalNone(s.log.dropped);
  }

  /** Steps that leave the node queues and the line alone. */
  lemma SameNodes(s: Sys, t: Sys, n: nat)
    requires Inv(s, n) && Shaped(t, n) && Counters(t) && Line(t) == Line(s) && t.nodes == s.nodes && t.gn == s.gn
    requires t.log.generated == s.log.generated && t.log.dropped == s.log.dropped && t.log.light == s.log.light
    ensures Inv(t, n)
  {
    hide Line, Subsequence, OfNode;
    forall i | 0 <= i < n ensures NodeInv(t, i) {
      assert NodeInv(s, i);
    }
  }

  lemma GenerateKeeps(s: Sys, n: nat, i: nat, payload: seq<nat>)
    requires Inv(s, n) && i < n
    ensures Inv(GenerateStep(s, i, payload), n)
  {
    hide Subsequence, OfNode;
    var t := GenerateStep(s, i, payload);
    if s.gn[i] + 1 < NODE_QUEUE_SIZE {
      var p := Packet(i + 1, s.arrSeq[i], payload);
      assert Line(t) == Line(s);
      forall j | 0 <= j < n ensures NodeInv(t, j) {
        assert NodeInv(s, j);
        if j == i {
          var ahead := OfNode(Line(s), i + 1) + s.nodes[i];
          SubsequenceExtend(ahead, s.log.generated[i], p);
          assert ahead + [p] == OfNode(Line(s), i + 1) + (s.nodes[i] + [p]);
        }
      }
    }
  }

  lemma ScheduleKeeps(s: Sys, n: nat, i: nat, mode: int)
    requires Inv(s, n) && i < n
    ensures Inv(ScheduleStep(s, i, mode), n)
  {
    hide Subsequence, OfNode, Line;
    var t := ScheduleStep(s, i, mode);
    if mode != IDLE_MODE && s.nodes[i] != [] {
      assert NodeInv(s, i);
      TotalOneMore(s.log.dropped, i);
      var p := s.nodes[i][0];
      var kept := mode == RF_MODE && |s.rf| < RF_QUEUE_SIZE;
      assert Line(t) == if kept then Line(s) + [p] else Line(s) by {
        LineGrows(s, t, p, kept);
      }
      forall j | 0 <= j < n ensures NodeInv(t, j) {
        assert NodeInv(s, j);
        OfNodeAppend(Line(s), p, j + 1);
        if j == i {
          ScheduledNode(s, t, i, p, kept);
        }
      }
    }
  }

  lemma LineGrows(s: Sys, t: Sys, p: Packet, kept: bool)
    requires t.tbf == s.tbf && t.log.attempted == s.log.attempted && t.rf == if kept then s.rf + [p] else s.rf
    ensures Line(t) == if kept then Line(s) + [p] else Line(s)
  {
    assert s.log.attempted + s.tbf + (s.rf + [p]) == s.log.attempted + s.tbf + s.rf + [p];
  }

  /** Popping the head of a node queue, into the line or out of the RF path. */
  lemma ScheduledNode(s: Sys, t: Sys, i: nat, p: Packet, kept: bool)
    requires Shaped(s, |s.nodes|) && i < |s.nodes| && NodeInv(s, i) && Shaped(t, |s.nodes|)
    requires s.nodes[i] != [] && p == s.nodes[i][0] && t.nodes[i] == s.nodes[i][1..]
    requires OfNode(Line(t), i + 1) == if kept then OfNode(Line(s), i + 1) + [p] else OfNode(Line(s), i + 1)
    requires t.gn[i] == s.gn[i] - 1 && t.log.generated[i] == s.log.generated[i]
    requires t.log.dropped[i] + t.log.light[i] == s.log.dropped[i] + s.log.light[i] + if kept then 0 else 1
    ensures NodeInv(t, i)
  {
    hide Subsequence, OfNode, Line;
    var a, q := OfNode(Line(s), i + 1), s.nodes[i];
    assert q == [p] + q[1..];
    assert a + q == a + [p] + q[1..];
    if !kept {
      SubsequenceDrop(a, p, q[1..], s.log.generated[i]);
    }
  }

  lemma MoveRfKeeps(s: Sys, n: nat)
    requires Inv(s, n)
    ensures Inv(MoveRfStep(s), n)
    ensures s.rf != [] && s.tbfQueueLength < LIMIT ==> |s.tbf| < LIMIT
  {
    hide NodeInv;
    var t := MoveRfStep(s);
    assert s.rf != [] ==> [s.rf[0]] + s.rf[1..] == s.rf;
    assert Line(t) == Line(s);
    SameNodes(s, t, n);
  }

  lemma TransmitKeeps(s: Sys, n: nat, result: int)
    requires Inv(s, n)
    ensures Inv(TransmitStep(s, result), n)
  {
    hide NodeInv;
    var t := TransmitStep(s, result);
    assert s.tbf != [] ==> [s.tbf[0]] + s.tbf[1..] == s.tbf;
    assert Line(t) == Line(s);
    SameNodes(s, t, n);
  }

  lemma StepKeeps(s: Sys, n: nat, a: Action)
    requires Inv(s, n) && Acts(a, n)
    ensures Inv(Next(s, a), n)
  {
    hide NodeInv, GenerateStep, ScheduleStep, MoveRfStep, TransmitStep;
    match a
    case Generate(i, payload) => GenerateKeeps(s, n, i, payload);
    case Schedule(i, mode) => ScheduleKeeps(s, n, i, mode);
    case MoveRf => MoveRfKeeps(s, n);
    case Transmit(result) => TransmitKeeps(s, n, result);
    case AddToken => SameNodes(s, AddTokenStep(s), n);
  }

  // ---------- every run ----------

  ghost predicate AllAct(acts: seq<Action>, n: nat) {
    forall k :: 0 <= k < |acts| ==> Acts(acts[k], n)
  }

  /** The system after a run of actions. */
  ghost function Run(s: Sys, acts: seq<Action>, n: nat): (t: Sys)
    requires Inv(s, n) && AllAct(acts, n)
    ensures Inv(t, n)
    decreases |acts|
  {
    if acts == [] then s
    else StepKeeps(s, n, acts[0]); Run(Next(s, acts[0]), acts[1..], n)
  }

  /** In every run: what reached the radio for a node is an in-order subsequence of what was generated for it, and every
      packet is in a queue, at the radio, dropped at a full RF queue, or on the light link. */
  lemma InOrder(s: Sys, acts: seq<Action>, n: nat, i: nat)
    requires Init(s, n) && AllAct(acts, n) && i < n
    ensures Inv(s, n)
    ensures var t := Run(s, acts, n);
      && Subsequence(OfNode(t.log.attempted, i + 1), t.log.generated[i])
      && |t.log.generated[i]| == |OfNode(t.log.attempted, i + 1)| + |OfNode(t.tbf, i + 1)| + |OfNode(t.rf, i + 1)|
                                 + |t.nodes[i]| + t.log.dropped[i] + t.log.light[i]
      && t.gn[i] == |t.nodes[i]|
  {
    hide Subsequence, OfNode, Run;
    InitInv(s, n);
    var t := Run(s, acts, n);
    assert NodeInv(t, i);
    var a, b, c, q := t.log.attempted, t.tbf, t.rf, t.nodes[i];
    OfNodeConcat(a + b, c, i + 1);
    OfNodeConcat(a, b, i + 1);
    var rest := OfNode(b, i + 1) + OfNode(c, i + 1) + q;
    assert OfNode(Line(t), i + 1) + q == OfNode(a, i + 1) + rest;
    SubsequencePrefix(OfNode(a, i + 1), rest, t.log.generated[i]);
  }

  /** With no drop and nothing on the light link, the path is one exact first-in first-out queue. */
  lemma Lossless(s: Sys, acts: seq<Action>, n: nat, i: nat)
    requires Init(s, n) && AllAct(acts, n) && i < n
    ensures Inv(s, n)
    ensures var t := Run(s, acts, n);
      t.log.dropped[i] == t.log.light[i] == 0 <==> OfNode(Line(t), i + 1) + t.nodes[i] == t.log.generated[i]
  {
    hide Subsequence, OfNode, Run, Line;
    InitInv(s, n);
    var t := Run(s, acts, n);
    assert NodeInv(t, i);
    SubsequenceLength(OfNode(Line(t), i + 1) + t.nodes[i], t.log.generated[i]);
  }

  // ---------- what the actions say ----------

  /** The payloads offered for node i that found room in its queue, in order. */
  ghost function Offered(s: Sys, acts: seq<Action>, n: nat, i: nat): seq<seq<nat>>
    requires Inv(s, n) && AllAct(acts, n) && i < n
    decreases |acts|
  {
    if acts == [] then []
    else
      StepKeeps(s, n, acts[0]);
      (if acts[0].Generate? && acts[0].i == i && |s.nodes[i]| + 1 < NODE_QUEUE_SIZE then [acts[0].payload] else [])
        + Offered(Next(s, acts[0]), acts[1..], n, i)
  }

  /** A packet of node i is generated for each payload offered with room, with that payload and the next number. */
  lemma {:induction false} GeneratedFrom(s: Sys, acts: seq<Action>, n: nat, i: nat)
    requires Inv(s, n) && AllAct(acts, n) && i < n && Numbered(s, i)
    ensures var g, t := s.log.generated[i], Run(s, acts, n).log.generated[i];
      var offered := Offered(s, acts, n, i);
      && |t| == |g| + |offered| && t[..|g|] == g
      && forall k :: |g| <= k < |t| ==> t[k] == Packet(i + 1, k % MAX_SEQ_NUMBER, offered[k - |g|])
    decreases |acts|
  {
    hide NodeInv, Subsequence, OfNode, Line;
    if acts != [] {
      var a := acts[0];
      var u := Next(s, a);
      StepKeeps(s, n, a);
      NumberedKept(s, n, a, i);
      GeneratedFrom(u, acts[1..], n, i);
      OneGenerated(s, n, a, i);
      hide Numbered, Next, Inv;
      var g, v, t := s.log.generated[i], u.log.generated[i], Run(s, acts, n).log.generated[i];
      assert t[..|g|] == t[..|v|][..|g|];
      if |v| == |g| + 1 {
        assert t[|g|] == t[..|v|][|g|];
      }
    }
  }

  /** What one action adds to node i's packets. */
  lemma OneGenerated(s: Sys, n: nat, a: Action, i: nat)
    requires Inv(s, n) && Acts(a, n) && i < n && Numbered(s, i)
    ensures Shaped(Next(s, a), n)
    ensures var g, v := s.log.generated[i], Next(s, a).log.generated[i];
      if a.Generate? && a.i == i && |s.nodes[i]| + 1 < NODE_QUEUE_SIZE then v == g + [Packet(i + 1, |g| % MAX_SEQ_NUMBER, a.payload)] else v == g
  {
    hide Subsequence, OfNode, Line;
    assert NodeInv(s, i);
  }

  /** From the start: node i's packets are exactly the payloads offered with room, numbered from 0. */
  lemma GeneratedExactly(s: Sys, acts: seq<Action>, n: nat, i: nat)
    requires Init(s, n) && AllAct(acts, n) && i < n
    ensures Inv(s, n)
    ensures var t := Run(s, acts, n).log.generated[i];
      && |t| == |Offered(s, acts, n, i)|
      && forall k :: 0 <= k < |t| ==> t[k] == Packet(i + 1, k % MAX_SEQ_NUMBER, Offered(s, acts, n, i)[k])
  {
    hide Run, Offered, NodeInv;
    InitInv(s, n);
    GeneratedFrom(s, acts, n, i);
  }

  /** Transmissions the radio was asked for and took, and those it refused: each needs a packet in the bucket's queue and a token. */
  ghost function Results(s: Sys, acts: seq<Action>, n: nat): (int, int)
    requires Inv(s, n) && AllAct(acts, n)
    decreases |acts|
  {
    if acts == [] then (0, 0)
    else
      StepKeeps(s, n, acts[0]);
      var (taken, refused) := Results(Next(s, acts[0]), acts[1..], n);
      if acts[0].Transmit? && s.tbf != [] && s.nToken > 0 then
        if acts[0].result > 0 then (taken + 1, refused) else (taken, refused + 1)
      else (taken, refused)
  }

  lemma {:induction false} ResultsCounted(s: Sys, acts: seq<Action>, n: nat)
    requires Inv(s, n) && AllAct(acts, n)
    ensures var t := Run(s, acts, n);
      t.log.delivered == s.log.delivered + Results(s, acts, n).0 && t.log.failed == s.log.failed + Results(s, acts, n).1
    decreases |acts|
  {
    hide NodeInv;
    if acts != [] {
      StepKeeps(s, n, acts[0]);
      ResultsCounted(Next(s, acts[0]), acts[1..], n);
    }
  }

  /** Packets of node i that a schedule step took for the light link, and those an RF step lost at a full queue. */
  ghost function Diverted(s: Sys, acts: seq<Action>, n: nat, i: nat): (int, int)
    requires Inv(s, n) && AllAct(acts, n) && i < n
    decreases |acts|
  {
    if acts == [] then (0, 0)
    else
      StepKeeps(s, n, acts[0]);
      var (light, lost) := Diverted(Next(s, acts[0]), acts[1..], n, i);
      var a := acts[0];
      if a.Schedule? && a.i == i && a.mode != IDLE_MODE && s.nodes[i] != [] then
        if a.mode != RF_MODE then (light + 1, lost) else if |s.rf| >= RF_QUEUE_SIZE then (light, lost + 1) else (light, lost)
      else (light, lost)
  }

  lemma {:induction false} DivertedCounted(s: Sys, acts: seq<Action>, n: nat, i: nat)
    requires Inv(s, n) && AllAct(acts, n) && i < n
    ensures var t := Run(s, acts, n);
      t.log.light[i] == s.log.light[i] + Diverted(s, acts, n, i).0 && t.log.dropped[i] == s.log.dropped[i] + Diverted(s, acts, n, i).1
    decreases |acts|
  {
    hide NodeInv;
    if acts != [] {
      StepKeeps(s, n, acts[0]);
      DivertedCounted(Next(s, acts[0]), acts[1..], n, i);
    }
  }

  // ---------- sequence numbers ----------

  /** Node i's packets are numbered in the order they were generated, modulo MAX_SEQ_NUMBER. */
  ghost predicate Numbered(s: Sys, i: nat)
    requires Shaped(s, |s.nodes|) && i < |s.nodes|
  {
    var g := s.log.generated[i];
    && s.arrSeq[i] == |g| % MAX_SEQ_NUMBER
    && forall k :: 0 <= k < |g| ==> g[k].seqNumber == k % MAX_SEQ_NUMBER
  }

  lemma NextNumber(x: nat)
    ensures (x % MAX_SEQ_NUMBER + 1) % MAX_SEQ_NUMBER == (x + 1) % MAX_SEQ_NUMBER
  {
  }

  lemma NumberedKept(s: Sys, n: nat, a: Action, i: nat)
    requires Inv(s, n) && Acts(a, n) && i < n && Numbered(s, i)
    ensures Shaped(Next(s, a), n) && Numbered(Next(s, a), i)
  {
    hide NodeInv;
    NextNumber(|s.log.generated[i]|);
  }

  lemma {:induction false} RunNumbered(s: Sys, acts: seq<Action>, n: nat, i: nat)
    requires Inv(s, n) && AllAct(acts, n) && i < n && Numbered(s, i)
    ensures Numbered(Run(s, acts, n), i)
    decreases |acts|
  {
    hide NodeInv, Next, Numbered;
    if acts != [] {
      StepKeeps(s, n, acts[0]);
      NumberedKept(s, n, acts[0], i);
      RunNumbered(Next(s, acts[0]), acts[1..], n, i);
    }
  }

  ghost predicate Increasing(s: seq<Packet>) {
    forall j, k :: 0 <= j < k < |s| ==> s[j].seqNumber < s[k].seqNumber
  }

  lemma {:induction false} SubsequenceMember(a: seq<Packet>, b: seq<Packet>, k: nat) returns (m: nat)
    requires Subsequence(a, b) && k < |a|
    ensures m < |b| && a[k] == b[m]
    decreases |b|
  {
    var front := b[..|b| - 1];
    if Subsequence(a, front) {
      m := SubsequenceMember(a, front, k);
    } else if k == |a| - 1 {
      m := |b| - 1;
    } else {
      m := SubsequenceMember(a[..|a| - 1], front, k);
    }
  }

  lemma {:induction false} SubsequenceIncreasing(a: seq<Packet>, b: seq<Packet>)
    requires Subsequence(a, b) && Increasing(b)
    ensures Increasing(a)
    decreases |b|
  {
    if a != [] {
      var front := b[..|b| - 1];
      if Subsequence(a, front) {
        SubsequenceIncreasing(a, front);
      } else {
        var short := a[..|a| - 1];
        SubsequenceIncreasing(short, front);
        forall j, k | 0 <= j < k < |a| ensures a[j].seqNumber < a[k].seqNumber {
          if k == |a| - 1 {
            var m := SubsequenceMember(short, front, j);
            assert b[m].seqNumber < b[|b| - 1].seqNumber;
          } else {
            assert short[j].seqNumber < short[k].seqNumber;
          }
        }
      }
    }
  }

  /** Within one epoch the packets for a node reach the radio with increasing numbers, so none twice. */
  lemma NumbersIncrease(s: Sys, acts: seq<Action>, n: nat, i: nat)
    requires Init(s, n) && AllAct(acts, n) && i < n
    ensures Inv(s, n)
    ensures var t := Run(s, acts, n);
      && (forall k :: 0 <= k < |t.log.generated[i]| ==> t.log.generated[i][k].seqNumber == k % MAX_SEQ_NUMBER)
      && (|t.log.generated[i]| <= MAX_SEQ_NUMBER ==> Increasing(OfNode(t.log.attempted, i + 1)))
  {
    hide Subsequence, OfNode, Run, NodeInv, Line;
    InOrder(s, acts, n, i);
    RunNumbered(s, acts, n, i);
    var t := Run(s, acts, n);
    if |t.log.generated[i]| <= MAX_SEQ_NUMBER {
      assert Increasing(t.log.generated[i]);
      SubsequenceIncreasing(OfNode(t.log.attempted, i + 1), t.log.generated[i]);
    }
  }

  // ---------- tokens ----------

  ghost function Ticks(acts: seq<Action>): nat {
    if acts == [] then 0 else (if acts[0] == AddToken then 1 else 0) + Ticks(acts[1..])
  }

  /** In any segment of any run the radio takes at most the tokens at hand plus the ticks, hence at most BURST plus the ticks. */
  lemma {:induction false} TokenBound(s: Sys, acts: seq<Action>, n: nat)
    requires Inv(s, n) && AllAct(acts, n)
    ensures var t := Run(s, acts, n);
      && t.log.delivered + t.nToken <= s.log.delivered + s.nToken + Ticks(acts)
      && t.log.delivered - s.log.delivered <= BURST + Ticks(acts)
    decreases |acts|
  {
    hide NodeInv;
    if acts != [] {
      StepKeeps(s, n, acts[0]);
      TokenBound(Next(s, acts[0]), acts[1..], n);
    }
  }

  /** Ticks that found the bucket not full. */
  ghost function Gained(s: Sys, acts: seq<Action>, n: nat): nat
    requires Inv(s, n) && AllAct(acts, n)
    decreases |acts|
  {
    if acts == [] then 0
    else
      StepKeeps(s, n, acts[0]);
      (if acts[0] == AddToken && s.nToken < BURST then 1 else 0) + Gained(Next(s, acts[0]), acts[1..], n)
  }

  /** Tokens are spent by successful transmissions alone, one each, and gained by ticks that find room alone. */
  lemma {:induction false} TokensExact(s: Sys, acts: seq<Action>, n: nat)
    requires Inv(s, n) && AllAct(acts, n)
    ensures Run(s, acts, n).nToken + Run(s, acts, n).log.delivered == s.nToken + s.log.delivered + Gained(s, acts, n)
    decreases |acts|
  {
    hide NodeInv;
    if acts != [] {
      StepKeeps(s, n, acts[0]);
      TokensExact(Next(s, acts[0]), acts[1..], n);
    }
  }

  /** Ticks alone fill the bucket one by one up to BURST, and no further. */
  lemma {:induction false} TicksFill(s: Sys, acts: seq<Action>, n: nat)
    requires Inv(s, n) && (forall k :: 0 <= k < |acts| ==> acts[k] == AddToken)
    ensures AllAct(acts, n)
    ensures Run(s, acts, n) == s.(nToken := if s.nToken + |acts| <= BURST then s.nToken + |acts| else BURST)
    decreases |acts|
  {
    hide NodeInv;
    if acts != [] {
      StepKeeps(s, n, acts[0]);
      TicksFill(Next(s, acts[0]), acts[1..], n);
    }
  }

  /** The bucket's queue is empty and yet counts as full. */
  ghost predicate Stalled(s: Sys) {
    s.tbfQueueLength == LIMIT && s.tbf == []
  }

  /** In every run from there nothing reaches the radio any more. */
  lemma {:induction false} StallsForGood(s: Sys, acts: seq<Action>, n: nat)
    requires Inv(s, n) && AllAct(acts, n) && Stalled(s)
    ensures Run(s, acts, n).log.attempted == s.log.attempted && Stalled(Run(s, acts, n))
    decreases |acts|
  {
    hide NodeInv;
    if acts != [] {
      StepKeeps(s, n, acts[0]);
      StallsForGood(Next(s, acts[0]), acts[1..], n);
    }
  }

  /** A refused packet keeps its place in the count of the bucket's queue, so LIMIT refusals are the most there can be, and they stall it. */
  lemma RefusalsStall(s: Sys, n: nat)
    requires Inv(s, n)
    ensures s.log.failed <= LIMIT && (s.log.failed == LIMIT <==> Stalled(s))
  {
  }

  /** One turn of each thread, for the first node. */
  ghost function Round(payload: seq<nat>): seq<Action> {
    [Generate(0, payload), Schedule(0, RF_MODE), MoveRf, AddToken, Transmit(1)]
  }

  /** From every other state a turn of each thread hands another packet to the radio. */
  lemma RoundSends(s: Sys, n: nat, payload: seq<nat>)
    requires Inv(s, n) && n > 0 && !Stalled(s)
    ensures AllAct(Round(payload), n) && |Run(s, Round(payload), n).log.attempted| == |s.log.attempted| + 1
  {
    hide NodeInv, Run;
    var acts := Round(payload);
    var c := ThreeTurns(s, n, payload, acts);
    assert c.tbf != [];
    var d := Next(c, acts[3]);
    RunStep(c, acts[3..], n);
    assert d.nToken > 0;
    RunStep(d, acts[4..], n);
    RunNone(Next(d, acts[4]), acts[5..], n);
  }

  /** After the first three turns the bucket's queue holds a packet, unless it is stalled. */
  lemma ThreeTurns(s: Sys, n: nat, payload: seq<nat>, acts: seq<Action>) returns (c: Sys)
    requires Inv(s, n) && n > 0 && AllAct(acts, n) && |acts| >= 3
    requires acts[0] == Generate(0, payload) && acts[1] == Schedule(0, RF_MODE) && acts[2] == MoveRf
    ensures Inv(c, n) && AllAct(acts[3..], n) && Run(s, acts, n) == Run(c, acts[3..], n)
    ensures c.log.attempted == s.log.attempted && c.nToken == s.nToken && c.log.failed == s.log.failed
    ensures c.tbf == [] ==> Stalled(s)
    ensures s.tbf == [] && s.tbfQueueLength == 0 ==> |c.tbf| == 1 == c.tbfQueueLength
  {
    hide NodeInv, Run;
    var a := Next(s, acts[0]);
    assert |a.nodes[0]| > 0 by {
      assert NodeInv(s, 0);
      Waiting(s, n, payload);
    }
    RunStep(s, acts, n);
    var b := Next(a, acts[1]);
    RunStep(a, acts[1..], n);
    assert b.rf != [] && b.tbf == s.tbf && b.tbfQueueLength == s.tbfQueueLength;
    c := Next(b, acts[2]);
    RunStep(b, acts[2..], n);
    assert acts[1..][1..] == acts[2..] && acts[2..][1..] == acts[3..];
  }

  /** Stalled states are exactly those from which the radio gets nothing, and one refusal leads from the start to one. */
  lemma StallExact(s: Sys, n: nat)
    requires Inv(s, n) && n > 0
    ensures Stalled(s) <==> forall acts :: AllAct(acts, n) ==> Run(s, acts, n).log.attempted == s.log.attempted
  {
    hide NodeInv, Run;
    if Stalled(s) {
      forall acts | AllAct(acts, n) ensures Run(s, acts, n).log.attempted == s.log.attempted {
        StallsForGood(s, acts, n);
      }
    } else {
      RoundSends(s, n, []);
    }
  }

  /** From the start: one packet, one token, one refusal. */
  lemma OneRefusal(s: Sys, n: nat, payload: seq<nat>, acts: seq<Action>)
    requires Init(s, n) && n > 0 && acts == [Generate(0, payload), Schedule(0, RF_MODE), MoveRf, AddToken, Transmit(0)]
    ensures Inv(s, n) && AllAct(acts, n) && Stalled(Run(s, acts, n))
  {
    hide NodeInv, Run;
    InitInv(s, n);
    var c := ThreeTurns(s, n, payload, acts);
    var d := Next(c, acts[3]);
    RunStep(c, acts[3..], n);
    RunStep(d, acts[4..], n);
    RunNone(Next(d, acts[4]), acts[5..], n);
  }

  lemma Waiting(s: Sys, n: nat, payload: seq<nat>)
    requires Inv(s, n) && n > 0 && NodeInv(s, 0)
    ensures |GenerateStep(s, 0, payload).nodes[0]| > 0
  {
    hide Subsequence, OfNode, Line;
  }

  lemma RunStep(s: Sys, acts: seq<Action>, n: nat)
    requires Inv(s, n) && AllAct(acts, n) && |acts| > 0
    ensures Inv(Next(s, acts[0]), n) && AllAct(acts[1..], n) && Run(s, acts, n) == Run(Next(s, acts[0]), acts[1..], n)
  {
    hide NodeInv;
    StepKeeps(s, n, acts[0]);
  }

  lemma RunNone(s: Sys, acts: seq<Action>, n: nat)
    requires Inv(s, n) && acts == []
    ensures Run(s, acts, n) == s
  {
  }
}
