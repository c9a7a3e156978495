/** The buffer pool with releasing a buffer taken apart: the push onto the pool, and the wake-up test that vlc_release_buffer
    makes after it, with steps of vlc_tx in between. */
module TxPoolSplit {
  import opened TxPool

  /** Whether the timer is between the push of a buffer and its test. */
  datatype Turn<!P(==)> = Free | Testing(p: P)

  /** The device, the buffers whose next field is null, and the timer's turn. */
  datatype Split<!P(==)> = Split(dev: Dev<P>, tails: set<P>, turn: Turn<P>)

  /** A step of the device other than a release, or one half of a release. */
  datatype Step<!P(==)> = Do(a: Action<P>) | Push(p: P) | Test

  /** The timer does one thing at a time; vlc_tx runs at any point. */
  ghost predicate CanStep<P>(s: Split<P>, x: Step<P>) {
    match x
    case Do(a) => Enabled(s.dev, a) && !a.Release? && (a.Dequeue? || a.Encode? ==> s.turn.Free?)
    case Push(p) => s.turn.Free? && At(s.dev, p, Leaving)
    case Test => s.turn.Testing?
  }

  ghost function Tails<P>(s: Split<P>, a: Action<P>): set<P> {
    match a
    case Fill(p, _) => s.tails + {p}
    case Enqueue(_) => if s.dev.queue == [] then s.tails else s.tails - {s.dev.queue[|s.dev.queue| - 1]}
    case _ => s.tails
  }

  /** The test finds a stopped queue, a null next field and a driver that is not exiting. */
  ghost predicate Wakes<P>(s: Split<P>)
    requires s.turn.Testing?
  {
    s.dev.stopped && s.turn.p in s.tails && !s.dev.exiting
  }

  ghost function After<P>(s: Split<P>, x: Step<P>): Split<P>
    requires CanStep(s, x)
  {
    match x
    case Do(a) => s.(dev := Next(s.dev, a), tails := Tails(s, a))
    case Push(p) =>
      s.(dev := s.dev.(pool := [p] + s.dev.pool, place := s.dev.place[p := Pooled]),
         tails := if s.dev.pool == [] then s.tails + {p} else s.tails - {p}, turn := Testing(p))
    case Test => s.(dev := s.dev.(stopped := s.dev.stopped && !Wakes(s)), turn := Free)
  }

  /** The two halves without a step between them are the release. */
  lemma HalvesAreRelease<P>(s: Split<P>, p: P)
    requires CanStep(s, Push(p)) && Enabled(s.dev, Release(p))
    ensures After(After(s, Push(p)), Test).dev == Next(s.dev, Release(p))
  {
  }

  /** vlc_tx never meets an empty pool. */
  ghost predicate Safe<P>(s: Split<P>) {
    s.dev.pool == [] ==> s.dev.stopped
  }

  /** A stopped queue has an empty pool, an exiting driver, or a test to come that will wake it. */
  ghost predicate Accounted<P>(s: Split<P>) {
    s.dev.stopped ==>
      || s.dev.pool == [] || s.dev.exiting
      || (s.turn.Testing? && s.turn.p in s.tails && At(s.dev, s.turn.p, Pooled))
  }

  ghost predicate SplitInv<P>(s: Split<P>, all: set<P>) {
    && Partition(s.dev, all) && Fifo(s.dev) && Safe(s) && Accounted(s)
    && (s.turn.Testing? ==> s.turn.p in all)
  }

  /** The one thing that goes wrong: the buffer just pushed has been taken again and its next field cleared, and the queue
      has stopped since. */
  ghost predicate Raced<P>(s: Split<P>) {
    s.turn.Testing? && Wakes(s) && !At(s.dev, s.turn.p, Pooled)
  }

  lemma PooledMember<P>(s: Split<P>, all: set<P>, p: P)
    requires Partition(s.dev, all) && At(s.dev, p, Pooled)
    ensures s.dev.pool != []
  {
    assert p in s.dev.pool;
  }

  /** The test leaves vlc_tx safe if and only if it was not raced. */
  lemma TestExact<P>(s: Split<P>, all: set<P>)
    requires SplitInv(s, all) && s.turn.Testing?
    ensures Safe(After(s, Test)) <==> !Raced(s)
    ensures !Raced(s) ==> SplitInv(After(s, Test), all)
  {
    hide Partition, Fifo;
    if At(s.dev, s.turn.p, Pooled) {
      PooledMember(s, all, s.turn.p);
    }
    SameDevice(s.dev, After(s, Test).dev, all);
  }

  /** Partition and order do not look at the flags. */
  lemma SameDevice<P>(d: Dev<P>, e: Dev<P>, all: set<P>)
    requires Partition(d, all) && Fifo(d) && e == d.(stopped := e.stopped)
    ensures Partition(e, all) && Fifo(e)
  {
    hide Payloads, Distinct;
  }

  lemma PushKeeps<P>(s: Split<P>, all: set<P>, p: P)
    requires SplitInv(s, all) && CanStep(s, Push(p))
    ensures SplitInv(After(s, Push(p)), all)
  {
    hide Payloads;
    var t := After(s, Push(p));
    assert p !in s.dev.pool;
    assert Partition(t.dev, all);
  }

  /** Steps of the device keep partition and order whatever the flag says. */
  lemma DeviceKeeps<P>(d: Dev<P>, all: set<P>, a: Action<P>)
    requires Partition(d, all) && Fifo(d) && Enabled(d, a)
    ensures Partition(Next(d, a), all) && Fifo(Next(d, a))
  {
    hide Partition, Fifo;
    var e := d.(stopped := d.pool == []);
    SameDevice(d, e, all);
    StepKeeps(e, all, a);
    SameDevice(Next(e, a), Next(d, a), all);
  }

  lemma DoKeeps<P>(s: Split<P>, all: set<P>, a: Action<P>)
    requires SplitInv(s, all) && CanStep(s, Do(a))
    ensures SplitInv(After(s, Do(a)), all)
  {
    hide Fifo, Distinct;
    DeviceKeeps(s.dev, all, a);
    if s.dev.queue != [] {
      assert s.dev.queue[|s.dev.queue| - 1] in s.dev.queue;
    }
  }

  lemma SplitKeeps<P>(s: Split<P>, all: set<P>, x: Step<P>)
    requires SplitInv(s, all) && CanStep(s, x) && (x.Test? ==> !Raced(s))
    ensures SplitInv(After(s, x), all)
  {
    hide SplitInv, After;
    match x
    case Do(a) => DoKeeps(s, all, a);
    case Push(p) => PushKeeps(s, all, p);
    case Test => TestExact(s, all);
  }

  // ---------- runs ----------

  /** The steps, each possible when it comes, lead through the states ss. */
  ghost predicate SplitRun<P>(ss: seq<Split<P>>, xs: seq<Step<P>>) {
    && |ss| == |xs| + 1
    && forall i :: 0 <= i < |xs| ==> CanStep(ss[i], xs[i]) && ss[i + 1] == After(ss[i], xs[i])
  }

  ghost predicate SplitInit<P>(s: Split<P>, all: set<P>) {
    Init(s.dev, all) && s.turn.Free?
  }

  /** In every run without a raced test: every buffer in one place, order kept, a running queue finds a buffer, and between releases
      the queue of a driver that is not exiting is stopped exactly when the pool is empty. */
  lemma {:induction false} SplitSafe<P>(ss: seq<Split<P>>, xs: seq<Step<P>>, all: set<P>, i: nat)
    requires SplitRun(ss, xs) && SplitInit(ss[0], all) && i < |ss|
    requires forall k :: 0 <= k < i && xs[k].Test? ==> !Raced(ss[k])
    ensures SplitInv(ss[i], all)
    ensures !ss[i].dev.stopped ==> Enabled(ss[i].dev, Get)
    ensures ss[i].turn.Free? && !ss[i].dev.exiting ==> (ss[i].dev.stopped <==> ss[i].dev.pool == [])
  {
    hide Partition, Fifo, CanStep, After, Raced;
    if i == 0 {
      InitInv(ss[0].dev, all);
    } else {
      SplitSafe(ss, xs, all, i - 1);
      assert ss[i - 1 + 1] == After(ss[i - 1], xs[i - 1]);
      SplitKeeps(ss[i - 1], all, xs[i - 1]);
    }
  }

  /** What rules the race out: vlc_tx takes no buffer between a push and its test. */
  lemma {:induction false} NoGetNoRace<P>(ss: seq<Split<P>>, xs: seq<Step<P>>, all: set<P>, i: nat)
    requires SplitRun(ss, xs) && SplitInit(ss[0], all) && i < |ss|
    requires forall k :: 0 <= k < i && xs[k] == Do(Get) ==> ss[k].turn.Free?
    ensures !Raced(ss[i]) && (ss[i].turn.Testing? ==> At(ss[i].dev, ss[i].turn.p, Pooled))
    ensures SplitInv(ss[i], all)
  {
    hide Partition, Fifo, Tails;
    if i == 0 {
      InitInv(ss[0].dev, all);
    } else {
      NoGetNoRace(ss, xs, all, i - 1);
      var s, x := ss[i - 1], xs[i - 1];
      assert CanStep(s, x) && ss[i - 1 + 1] == After(s, x);
      SplitKeeps(s, all, x);
    }
  }

  // ---------- the race ----------

  /** Two buffers: the first goes out and is pushed back; before its test vlc_tx takes both, clearing the first one's next field. */
  function RaceSteps(): seq<Step<nat>> {
    [Do(Get), Do(Fill(1, [])), Do(Enqueue(1)), Do(Dequeue), Push(1), Do(Get), Do(Fill(1, [])), Do(Get), Test]
  }

  function RaceStart(): Split<nat> {
    Split(Dev([1, 2], [], map[1 := Pooled, 2 := Pooled], map[1 := [], 2 := []], false, false, [], []), {2}, Free)
  }

  /** After the push: as at the start, but with a packet sent and the test to come. */
  function RaceMiddle(): Split<nat> {
    var s := RaceStart();
    s.(dev := s.dev.(accepted := [[]], sent := [[]]), turn := Testing(1))
  }

  /** The steps xs lead from a to b one after the other. */
  ghost predicate Leads<P>(a: Split<P>, xs: seq<Step<P>>, b: Split<P>)
    decreases |xs|
  {
    if xs == [] then b == a else CanStep(a, xs[0]) && Leads(After(a, xs[0]), xs[1..], b)
  }

  lemma OutAndBack()
    ensures Leads(RaceStart(), RaceSteps()[..5], RaceMiddle())
  {
    var a, xs := RaceStart(), RaceSteps()[..5];
    var b := After(a, xs[0]);
    var c := After(b, xs[1]);
    var d := After(c, xs[2]);
    var e := After(d, xs[3]);
    assert After(e, xs[4]) == RaceMiddle();
    assert Leads(RaceMiddle(), xs[1..][1..][1..][1..][1..], RaceMiddle());
  }

  lemma RaceStarts()
    ensures SplitInit(RaceStart(), {1, 2})
  {
  }

  /** vlc_tx between push and test. */
  lemma BothTaken() returns (raced: Split<nat>)
    ensures Leads(RaceMiddle(), RaceSteps()[5..8], raced) && Raced(raced) && raced.dev.pool == []
  {
    var f, xs := RaceMiddle(), RaceSteps()[5..8];
    var g := After(f, xs[0]);
    var h := After(g, xs[1]);
    raced := After(h, xs[2]);
    assert Leads(raced, xs[1..][1..][1..], raced);
  }

  /** The test then wakes the queue on an empty pool. */
  lemma RaceExample() returns (raced: Split<nat>, woken: Split<nat>)
    ensures SplitInit(RaceStart(), {1, 2}) && Leads(RaceStart(), RaceSteps()[..5], RaceMiddle())
    ensures Leads(RaceMiddle(), RaceSteps()[5..8], raced) && Raced(raced)
    ensures CanStep(raced, Test) && woken == After(raced, Test) && !woken.dev.stopped && woken.dev.pool == []
  {
    hide SplitInit, RaceStart, RaceMiddle, RaceSteps, Leads;
    RaceStarts();
    OutAndBack();
    raced := BothTaken();
    woken := After(raced, Test);
  }
}
