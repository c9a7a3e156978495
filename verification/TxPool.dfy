/** The transmitter driver's buffers as a step system: a pool, a transmit queue, and buffers in flight on their way in and out. */
module TxPool {
  /** Where a buffer is: in the pool, taken by vlc_tx, in the transmit queue, or taken by the timer. */
  datatype Place = Pooled | Filling | Queued | Leaving

  /** place covers every allocated buffer; accepted and sent record the payloads as they were enqueued and dequeued. */
  datatype Dev<!P(==)> = Dev(pool: seq<P>, queue: seq<P>, place: map<P, Place>, data: map<P, seq<nat>>, stopped: bool, exiting: bool,
                             accepted: seq<seq<nat>>, sent: seq<seq<nat>>)

  datatype Action<!P(==)> = Get | Fill(p: P, bytes: seq<nat>) | Enqueue(p: P) | Dequeue | Encode(p: P, bytes: seq<nat>) | Release(p: P) | Exit

  ghost predicate At<P>(d: Dev<P>, p: P, where: Place) {
    p in d.place && p in d.data && d.place[p] == where
  }

  /** The network stack calls vlc_tx only while the device queue is running; a buffer is filled, enqueued, encoded or
      released by whoever has taken it. */
  ghost predicate Enabled<P>(d: Dev<P>, a: Action<P>) {
    match a
    case Get => !d.stopped && d.pool != []
    case Fill(p, _) => At(d, p, Filling)
    case Enqueue(p) => At(d, p, Filling)
    case Dequeue => d.queue != [] ==> d.queue[0] in d.data
    case Encode(p, _) => At(d, p, Leaving)
    case Release(p) => At(d, p, Leaving)
    case Exit => true
  }

  ghost function Next<P>(d: Dev<P>, a: Action<P>): Dev<P>
    requires Enabled(d, a)
  {
    match a
    case Get => d.(pool := d.pool[1..], place := d.place[d.pool[0] := Filling], stopped := d.stopped || |d.pool| == 1)
    case Fill(p, bytes) => d.(data := d.data[p := bytes])
    case Enqueue(p) => d.(queue := d.queue + [p], place := d.place[p := Queued], accepted := d.accepted + [d.data[p]])
    case Dequeue =>
      if d.queue == [] then d
      else d.(queue := d.queue[1..], place := d.place[d.queue[0] := Leaving], sent := d.sent + [d.data[d.queue[0]]])
    case Encode(p, bytes) => d.(data := d.data[p := bytes])
    case Release(p) => d.(pool := [p] + d.pool, place := d.place[p := Pooled], stopped := d.stopped && (d.pool != [] || d.exiting))
    case Exit => d.(exiting := true)
  }

  ghost predicate Distinct<P>(s: seq<P>) {
    forall i, j :: 0 <= i < j < |s| ==> s[i] != s[j]
  }

  /** Every allocated buffer is in exactly one place, and each list holds exactly the buffers whose place it is, once. */
  ghost predicate Partition<P>(d: Dev<P>, all: set<P>) {
    && d.place.Keys == d.data.Keys == all
    && Distinct(d.pool) && Distinct(d.queue)
    && (forall p :: p in d.pool ==> p in all) && (forall p :: p in d.queue ==> p in all)
    && (forall p :: p in all ==> (d.place[p] == Pooled <==> p in d.pool) && (d.place[p] == Queued <==> p in d.queue))
  }

  /** Stopped exactly when the pool is empty, except that an exiting driver may leave the queue stopped. */
  ghost predicate FlowControl<P>(d: Dev<P>) {
    (d.pool == [] ==> d.stopped) && (d.stopped ==> d.pool == [] || d.exiting)
  }

  ghost function Payloads<P>(queue: seq<P>, data: map<P, seq<nat>>): (r: seq<seq<nat>>)
    requires forall k :: 0 <= k < |queue| ==> queue[k] in data
    ensures |r| == |queue| && forall k :: 0 <= k < |queue| ==> r[k] == data[queue[k]]
  {
    seq(|queue|, k requires 0 <= k < |queue| => data[queue[k]])
  }

  /** What was accepted is what was sent followed by what is queued. */
  ghost predicate Fifo<P>(d: Dev<P>) {
    && (forall k :: 0 <= k < |d.queue| ==> d.queue[k] in d.data)
    && d.accepted == d.sent + Payloads(d.queue, d.data)
  }

  ghost predicate Inv<P>(d: Dev<P>, all: set<P>) {
    Partition(d, all) && FlowControl(d) && Fifo(d)
  }

  /** Right after module start: every buffer pooled, at least one of them, and the queue started. */
  ghost predicate Init<P>(d: Dev<P>, all: set<P>) {
    && d.pool != [] && Distinct(d.pool) && (forall p :: p in d.pool ==> p in all) && (forall p :: p in all ==> p in d.pool)
    && d.place.Keys == d.data.Keys == all && (forall p :: p in all ==> d.place[p] == Pooled)
    && d.queue == [] && !d.stopped && !d.exiting && d.accepted == d.sent == []
  }

  lemma InitInv<P>(d: Dev<P>, all: set<P>)
    requires Init(d, all)
    ensures Inv(d, all)
  {
  }

  lemma Popped<P>(s: seq<P>)
    requires s != [] && Distinct(s)
    ensures Distinct(s[1..]) && forall p :: p in s[1..] <==> p in s && p != s[0]
  {
    forall p | p in s && p != s[0] ensures p in s[1..] {
      var i :| 0 <= i < |s| && s[i] == p;
      assert s[1..][i - 1] == p;
    }
  }

  lemma GetKeeps<P>(d: Dev<P>, all: set<P>)
    requires Inv(d, all) && Enabled(d, Get)
    ensures Inv(Next(d, Get), all)
  {
    hide Distinct;
    Popped(d.pool);
    assert d.pool[0] in d.pool;
  }

  lemma EnqueueKeeps<P>(d: Dev<P>, all: set<P>, p: P)
    requires Inv(d, all) && Enabled(d, Enqueue(p))
    ensures Inv(Next(d, Enqueue(p)), all)
  {
    var t := Next(d, Enqueue(p));
    assert p !in d.queue && p !in d.pool;
    assert Payloads(t.queue, t.data) == Payloads(d.queue, d.data) + [d.data[p]];
  }

  lemma DequeueKeeps<P>(d: Dev<P>, all: set<P>)
    requires Inv(d, all)
    requires Enabled(d, Dequeue)
    ensures Inv(Next(d, Dequeue), all)
  {
    hide Distinct, Partition, Fifo;
    if d.queue != [] {
      DequeuePartition(d, all);
      DequeueFifo(d);
    }
  }

  lemma DequeueFifo<P>(d: Dev<P>)
    requires Fifo(d) && d.queue != [] && Enabled(d, Dequeue)
    ensures Fifo(Next(d, Dequeue))
  {
    hide Payloads;
    PayloadsPopped(d.queue, d.data);
    Regroup(d.sent, d.data[d.queue[0]], Payloads(d.queue[1..], d.data));
  }

  lemma Regroup(sent: seq<seq<nat>>, x: seq<nat>, rest: seq<seq<nat>>)
    ensures sent + ([x] + rest) == (sent + [x]) + rest
  {
  }

  lemma DequeuePartition<P>(d: Dev<P>, all: set<P>)
    requires Partition(d, all) && d.queue != [] && Enabled(d, Dequeue)
    ensures Partition(Next(d, Dequeue), all)
  {
    hide Distinct;
    Popped(d.queue);
    assert d.queue[0] in d.queue;
  }

  lemma PayloadsPopped<P>(queue: seq<P>, data: map<P, seq<nat>>)
    requires queue != [] && forall k :: 0 <= k < |queue| ==> queue[k] in data
    ensures Payloads(queue, data) == [data[queue[0]]] + Payloads(queue[1..], data)
  {
  }

  /** A running queue finds a buffer. */
  lemma GetEnabled<P>(d: Dev<P>, all: set<P>)
    requires Inv(d, all) && !d.stopped
    ensures Enabled(d, Get)
  {
  }

  /** A queued buffer is allocated, so Dequeue is always enabled. */
  lemma DequeueEnabled<P>(d: Dev<P>, all: set<P>)
    requires Inv(d, all)
    ensures Enabled(d, Dequeue)
  {
  }

  /** Writing a buffer in flight leaves what is queued alone. */
  lemma WriteKeeps<P>(d: Dev<P>, all: set<P>, p: P, bytes: seq<nat>)
    requires Inv(d, all) && p in all && d.place[p] != Queued
    ensures Inv(d.(data := d.data[p := bytes]), all)
  {
    var t := d.(data := d.data[p := bytes]);
    assert p !in d.queue;
    assert t.data.Keys == d.data.Keys;
    assert Payloads(t.queue, t.data) == Payloads(d.queue, d.data);
  }

  lemma ReleaseKeeps<P>(d: Dev<P>, all: set<P>, p: P)
    requires Inv(d, all) && Enabled(d, Release(p))
    ensures Inv(Next(d, Release(p)), all)
  {
    var t := Next(d, Release(p));
    assert p !in d.pool;
  }

  lemma StepKeeps<P>(d: Dev<P>, all: set<P>, a: Action<P>)
    requires Inv(d, all) && Enabled(d, a)
    ensures Inv(Next(d, a), all)
  {
    match a
    case Get => GetKeeps(d, all);
    case Fill(p, bytes) => WriteKeeps(d, all, p, bytes);
    case Enqueue(p) => EnqueueKeeps(d, all, p);
    case Dequeue => DequeueKeeps(d, all);
    case Encode(p, bytes) => WriteKeeps(d, all, p, bytes);
    case Release(p) => ReleaseKeeps(d, all, p);
    case Exit =>
  }

  // ---------- every run ----------

  /** The actions, each enabled when it comes, lead from d to t. */
  ghost predicate Run<P>(d: Dev<P>, acts: seq<Action<P>>, t: Dev<P>)
    decreases |acts|
  {
    if acts == [] then t == d else Enabled(d, acts[0]) && Run(Next(d, acts[0]), acts[1..], t)
  }

  lemma {:induction false} RunKeeps<P>(d: Dev<P>, all: set<P>, acts: seq<Action<P>>, t: Dev<P>)
    requires Inv(d, all) && Run(d, acts, t)
    ensures Inv(t, all)
    decreases |acts|
  {
    hide Inv, Next;
    if acts != [] {
      StepKeeps(d, all, acts[0]);
      RunKeeps(Next(d, acts[0]), all, acts[1..], t);
    }
  }

  /** After any run: every buffer in one place; while the driver is not exiting, stopped exactly when the pool is empty, so that
      vlc_tx always finds a buffer; and packets leave with their payloads in the order they were accepted. */
  lemma PoolSafe<P>(d: Dev<P>, all: set<P>, acts: seq<Action<P>>, t: Dev<P>)
    requires Init(d, all) && Run(d, acts, t)
    ensures Partition(t, all)
    ensures !t.stopped ==> Enabled(t, Get)
    ensures Enabled(t, Dequeue)
    ensures !t.exiting ==> (t.stopped <==> t.pool == [])
    ensures t.exiting <==> exists k :: 0 <= k < |acts| && acts[k].Exit?
    ensures |t.sent| <= |t.accepted| && t.sent == t.accepted[..|t.sent|] && |t.accepted| - |t.sent| == |t.queue|
  {
    InitInv(d, all);
    RunKeeps(d, all, acts, t);
    ExitsOnly(d, acts, t);
  }

  /** The driver is exiting once it was told to, and not before. */
  lemma {:induction false} ExitsOnly<P>(d: Dev<P>, acts: seq<Action<P>>, t: Dev<P>)
    requires Run(d, acts, t)
    ensures t.exiting <==> d.exiting || exists k :: 0 <= k < |acts| && acts[k].Exit?
    decreases |acts|
  {
    if acts != [] {
      var rest := acts[1..];
      ExitsOnly(Next(d, acts[0]), rest, t);
      assert forall k :: 0 <= k < |rest| ==> rest[k] == acts[k + 1];
      if k :| 0 <= k < |rest| && rest[k].Exit? {
        assert acts[k + 1].Exit?;
      }
      if k :| 1 <= k < |acts| && acts[k].Exit? {
        assert rest[k - 1].Exit?;
      }
    }
  }

  /** An exiting driver never starts a stopped queue again. */
  lemma {:induction false} ExitNeverWakes<P>(d: Dev<P>, acts: seq<Action<P>>, t: Dev<P>)
    requires d.exiting && d.stopped && Run(d, acts, t)
    ensures t.stopped && |t.pool| >= |d.pool|
    decreases |acts|
  {
    if acts != [] {
      ExitNeverWakes(Next(d, acts[0]), acts[1..], t);
    }
  }
}
