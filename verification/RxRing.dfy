/** Receiver PRU and kernel thread around the shared ring: two processes stepping in any order,
    bit by bit on one side and byte by byte on the other, each access to a shared index a step of its own. */
module RxRing {
  import opened LinkCoding
  import opened RxPru

  const SLOTS := (BUFFER_LIMIT - BUFFER_START) / SLOT

  /** At the top of its loop, with the read index loaded, with a frame seen there, or copying it. */
  datatype Consumer = Idle | HasRead(idx: nat) | Seen(idx: nat) | Copying(idx: nat, datalen: nat, buf: seq<nat>)

  /** The whole system; room says that FINAL has found room and not yet stored the write index, and
      published and delivered record the frames in order. */
  datatype Sys = Sys(m: Machine, room: bool, consumer: Consumer, published: seq<seq<nat>>, delivered: seq<seq<nat>>)

  /** A raw bit, the test and the store of FINAL; the consumer's three loads, one copied byte, and the release of a slot. */
  datatype Action = Bit(b: nat) | Test | Publish | LoadRead | LoadWrite | LoadLength | Copy | Finish

  /** Where the k-th frame since start-up lives. */
  function SlotOf(k: nat): (base: nat)
    ensures SlotStart(base)
  {
    BUFFER_START + SLOT * (k % SLOTS)
  }

  ghost predicate Enabled(s: Sys, a: Action) {
    && |s.m.mem| >= BUFFER_LIMIT
    && match a
       case Bit(b) => b <= 1 && !s.m.rx.full && SafeWrite(s.m)
       case Test => s.m.rx.full && !s.room
       case Publish => s.m.rx.full && s.room && WriteIdx(s.m.mem) + SLOT <= |s.m.mem|
       case LoadRead => s.consumer.Idle?
       case LoadWrite => s.consumer.HasRead?
       case LoadLength => s.consumer.Seen? && s.consumer.idx + 1 < |s.m.mem|
       case Copy => s.consumer.Copying? && |s.consumer.buf| < s.consumer.datalen + HEADER + ECC_LEN
                    && s.consumer.idx + |s.consumer.buf| < |s.m.mem|
       case Finish => s.consumer.Copying? && |s.consumer.buf| == s.consumer.datalen + HEADER + ECC_LEN
  }

  ghost function Next(s: Sys, a: Action): Sys
    requires Enabled(s, a)
  {
    match a
    case Bit(b) => s.(m := RxBit(s.m, b))
    case Test => s.(room := ReadIdx(s.m.mem) != s.m.rx.off)
    case Publish =>
      var base := WriteIdx(s.m.mem);
      s.(m := Published(s.m), room := false, published := s.published + [s.m.mem[base..base + SLOT]])
    case LoadRead => s.(consumer := HasRead(ReadIdx(s.m.mem)))
    case LoadWrite => s.(consumer := if s.consumer.idx == WriteIdx(s.m.mem) then Idle else Seen(s.consumer.idx))
    case LoadLength =>
      var datalen := Le16(s.m.mem, s.consumer.idx);
      s.(consumer := if 0 < datalen <= MTU_VALUE then Copying(s.consumer.idx, datalen, []) else Idle)
    case Copy =>
      var c := s.consumer;
      s.(consumer := c.(buf := c.buf + [s.m.mem[c.idx + |c.buf|]]))
    case Finish =>
      var c := s.consumer;
      s.(m := s.m.(mem := StoreHalf(s.m.mem, 2, Wrap(c.idx + c.datalen + HEADER + ECC_LEN))),
         consumer := Idle, delivered := s.delivered + [c.buf])
  }

  ghost predicate Init(s: Sys) {
    && |s.m.mem| >= BUFFER_LIMIT
    && Synced(s.m.rx) && s.m.rx.first <= 1 && s.m.rx.off < BUFFER_LIMIT
    && WriteIdx(s.m.mem) == ReadIdx(s.m.mem) == BUFFER_START
    && s.consumer == Idle && !s.room
    && s.published == s.delivered == []
  }

  // ---------- the invariant ----------

  ghost function Slice(mem: seq<nat>, k: nat): seq<nat>
    requires |mem| >= BUFFER_LIMIT
  {
    mem[SlotOf(k)..SlotOf(k) + SLOT]
  }

  /** Indices and the number of outstanding frames. */
  ghost predicate Pointers(s: Sys) {
    && |s.m.mem| >= BUFFER_LIMIT
    && |s.delivered| <= |s.published| <= |s.delivered| + SLOTS - 1
    && WriteIdx(s.m.mem) == SlotOf(|s.published|)
    && ReadIdx(s.m.mem) == SlotOf(|s.delivered|)
    && (s.room ==> s.m.rx.full && |s.published| + 1 <= |s.delivered| + SLOTS - 1)
  }

  /** Published frames not yet delivered are still in their slots; delivered ones were delivered in order. */
  ghost predicate Frames(s: Sys)
    requires Pointers(s)
  {
    && s.delivered == s.published[..|s.delivered|]
    && (forall k :: 0 <= k < |s.published| ==> |s.published[k]| == SLOT && s.published[k][..2] == [PAYLOAD_LEN, 0])
    && (forall k :: |s.delivered| <= k < |s.published| ==> Slice(s.m.mem, k) == s.published[k])
  }

  /** The receiver keeps to the slot at base. */
  ghost predicate InSlot(m: Machine, base: nat)
    requires |m.mem| >= BUFFER_LIMIT && SlotStart(base)
  {
    var rx := m.rx;
    && rx.off < BUFFER_LIMIT && rx.prev <= 1 && rx.first <= 1
    && (rx.full ==> rx.phase == Body && rx.mode == SecondBit && rx.got == BODY_LEN && rx.off == Wrap(base + SLOT))
    && (rx.phase == Body && rx.mode != Hunting ==>
          && rx.val == BODY_LEN
          && m.mem[base..base + 2] == [PAYLOAD_LEN, 0]
          && (!rx.full ==> rx.got < BODY_LEN && rx.off == base + 2 + rx.got))
  }

  /** The receiver is writing the slot after the last published frame. */
  ghost predicate Writing(s: Sys)
    requires Pointers(s)
  {
    InSlot(s.m, SlotOf(|s.published|))
  }

  /** The consumer is at the oldest outstanding frame and has copied a prefix of it. */
  ghost predicate Reading(s: Sys)
    requires Pointers(s)
  {
    var c := s.consumer;
    && (c.HasRead? || c.Seen? ==> c.idx == SlotOf(|s.delivered|))
    && (c.Seen? ==> |s.delivered| < |s.published|)
    && (c.Copying? ==>
      && |s.delivered| < |s.published|
      && c.idx == SlotOf(|s.delivered|)
      && c.datalen == PAYLOAD_LEN
      && |s.published[|s.delivered|]| == SLOT
      && |c.buf| <= SLOT
      && c.buf == s.published[|s.delivered|][..|c.buf|])
  }

  ghost predicate Inv(s: Sys) {
    Pointers(s) && Frames(s) && Writing(s) && Reading(s)
  }

  lemma InitInv(s: Sys)
    requires Init(s)
    ensures Inv(s)
  {
  }

  // ---------- slots ----------

  lemma SlotsApart(i: nat, k: nat)
    requires i < k <= i + SLOTS - 1
    ensures SlotOf(i) + SLOT <= SlotOf(k) || SlotOf(k) + SLOT <= SlotOf(i)
  {
    var a, b := i % SLOTS, k % SLOTS;
    assert a != b by {
      var q := k / SLOTS - i / SLOTS;
      assert k - i == q * SLOTS + (b - a);
    }
  }

  lemma NextSlot(k: nat)
    ensures Wrap(SlotOf(k) + SLOT) == SlotOf(k + 1)
  {
    Sixty();
    var q, r := k / 60, k % 60;
    assert (k + 1) % 60 == if r == 59 then 0 else r + 1 by {
      assert k + 1 == if r == 59 then 60 * (q + 1) + 0 else 60 * q + (r + 1);
    }
  }

  lemma Sixty()
    ensures SLOTS == 60 && SLOT == 100 && BODY_LEN == 98
  {
  }

  /** A write inside slot p leaves the outstanding slots before it alone. */
  lemma WriteElsewhere(mem: seq<nat>, mem': seq<nat>, p: nat, k: nat)
    requires |mem| == |mem'| >= BUFFER_LIMIT && k < p <= k + SLOTS - 1
    requires forall i :: 0 <= i < |mem| && !(SlotOf(p) <= i < SlotOf(p) + SLOT) ==> mem'[i] == mem[i]
    ensures Slice(mem', k) == Slice(mem, k)
  {
    hide SlotOf;
    SlotsApart(k, p);
    var a := SlotOf(k);
    SlotInside(k);
    assert mem'[a..a + SLOT] == mem[a..a + SLOT];
  }

  // ---------- every step keeps it ----------

  /** What a raw bit can do to memory: nothing, or a store inside the slot being written. */
  lemma BitEffect(s: Sys, b: nat)
    requires Inv(s) && b <= 1 && !s.m.rx.full && SafeWrite(s.m)
    ensures var m := RxBit(s.m, b);
      && |m.mem| == |s.m.mem|
      && (forall i :: 0 <= i < |m.mem| && !(SlotOf(|s.published|) <= i < SlotOf(|s.published|) + SLOT) ==> m.mem[i] == s.m.mem[i])
  {
    hide SlotOf, Frames, Reading, Wrap, DelimiterStep, PreambleStep;
    SlotInside(|s.published|);
  }

  lemma SlotInside(k: nat)
    ensures SlotStart(SlotOf(k))
  {
  }

  /** A raw bit keeps the receiver to its slot. */
  lemma BitInSlot(m: Machine, b: nat, base: nat)
    requires !m.rx.full && SafeWrite(m) && SlotStart(base) && InSlot(m, base) && WriteIdx(m.mem) == base && b <= 1
    ensures |RxBit(m, b).mem| == |m.mem| && InSlot(RxBit(m, b), base)
  {
    hide PreambleStep;
    PreambleKeeps(m.rx, b);
  }

  lemma PreambleKeeps(rx: Rx, b: nat)
    ensures var k := PreambleStep(rx, b);
      k.prev == b && k.first == rx.first && k.off == rx.off && k.full == rx.full && (k.mode == rx.mode || k.phase == Delimiter)
  {
  }

  lemma BitWriting(s: Sys, b: nat)
    requires Inv(s) && b <= 1 && !s.m.rx.full && SafeWrite(s.m)
    requires Pointers(Next(s, Bit(b)))
    ensures Writing(Next(s, Bit(b)))
  {
    hide SlotOf, Frames, Reading, Slice, Pointers, InSlot, RxBit;
    PointersAt(s);
    SlotInside(|s.published|);
    BitInSlot(s.m, b, SlotOf(|s.published|));
  }

  lemma PointersAt(s: Sys)
    requires Pointers(s)
    ensures |s.m.mem| >= BUFFER_LIMIT && WriteIdx(s.m.mem) == SlotOf(|s.published|)
  {
  }

  lemma BitKeeps(s: Sys, b: nat)
    requires Inv(s) && Enabled(s, Bit(b))
    ensures Inv(Next(s, Bit(b)))
  {
    hide SlotOf, Writing, RxBit, Slice;
    var t := Next(s, Bit(b));
    BitEffect(s, b);
    SlotInside(|s.published|);
    assert Pointers(t);
    forall k | |t.delivered| <= k < |t.published| ensures Slice(t.m.mem, k) == t.published[k] {
      WriteElsewhere(s.m.mem, t.m.mem, |s.published|, k);
    }
    BitWriting(s, b);
  }

  lemma PublishKeeps(s: Sys)
    requires Inv(s) && Enabled(s, Publish)
    ensures Inv(Next(s, Publish))
  {
    hide SlotOf, Wrap;
    var p, t := |s.published|, Next(s, Publish);
    SlotInside(p);
    SlotInside(p + 1);
    NextSlot(p);
    var base := SlotOf(p);
    var frame := s.m.mem[base..base + SLOT];
    assert frame[..2] == s.m.mem[base..base + 2];
    assert Pointers(t);
    forall k | |t.delivered| <= k < |t.published| ensures Slice(t.m.mem, k) == t.published[k] {
      SlotInside(k);
      SliceAbove(s.m.mem, t.m.mem, k);
    }
  }

  /** Room is found only when the frame after next has a slot of its own. */
  lemma TestKeeps(s: Sys)
    requires Inv(s) && Enabled(s, Test)
    ensures Inv(Next(s, Test))
  {
    hide SlotOf, Wrap, Frames;
    var p, t := |s.published|, Next(s, Test);
    SlotInside(p);
    NextSlot(p);
    if p + 1 - |s.delivered| == SLOTS {
      SlotPeriod(|s.delivered|);
    }
    assert Pointers(t);
    FramesSame(s, t);
    WritingSame(s, t);
  }

  /** One pass of FINAL is the test, followed by the store if there is room. */
  lemma FinalIsTestPublish(s: Sys)
    requires Inv(s) && Enabled(s, Test)
    ensures var t := Next(s, Test);
      if t.room then Enabled(t, Publish) && Next(t, Publish).m == RxFinal(s.m) else t == s && RxFinal(s.m) == s.m
  {
    hide SlotOf, Frames, Writing, Reading;
    SlotInside(|s.published|);
  }

  /** FINAL finds room exactly when the frame would not be the sixtieth outstanding one. */
  lemma RoomExact(s: Sys)
    requires Inv(s) && Enabled(s, Test)
    ensures Next(s, Test).room <==> |s.published| + 1 - |s.delivered| < SLOTS
  {
    hide Wrap, Frames, Reading;
    var p, d := |s.published|, |s.delivered|;
    NextSlot(p);
    if p + 1 - d == SLOTS {
      SlotPeriod(d);
    } else {
      SlotsDiffer(d, p + 1);
    }
  }

  lemma SlotsDiffer(i: nat, k: nat)
    requires i < k <= i + SLOTS - 1
    ensures SlotOf(i) != SlotOf(k)
  {
    hide SlotOf;
    SlotsApart(i, k);
  }

  lemma FramesSame(s: Sys, t: Sys)
    requires Pointers(s) && Pointers(t) && Frames(s) && t.m == s.m && t.published == s.published && t.delivered == s.delivered
    ensures Frames(t)
  {
  }

  lemma SlotPeriod(k: nat)
    ensures SlotOf(k + SLOTS) == SlotOf(k)
  {
    assert SLOTS == 60;
    Wraps(k);
  }

  lemma Wraps(k: nat)
    ensures (k + 60) % 60 == k % 60
  {
  }

  /** Changing only the two indices changes no slot. */
  lemma SliceAbove(mem: seq<nat>, mem': seq<nat>, k: nat)
    requires |mem| == |mem'| >= BUFFER_LIMIT && mem[4..] == mem'[4..]
    ensures Slice(mem, k) == Slice(mem', k)
  {
    hide SlotOf;
    SlotInside(k);
    var a := SlotOf(k);
    var x, y := mem[4..], mem'[4..];
    assert forall i :: a <= i < a + SLOT ==> mem[i] == x[i - 4] && mem'[i] == y[i - 4];
    assert mem[a..a + SLOT] == mem'[a..a + SLOT];
  }

  lemma WritingSame(s: Sys, t: Sys)
    requires Pointers(s) && Pointers(t) && Writing(s) && t.m == s.m && t.published == s.published
    ensures Writing(t)
  {
  }

  lemma LoadIndexKeeps(s: Sys, a: Action)
    requires Inv(s) && Enabled(s, a) && (a == LoadRead || a == LoadWrite)
    ensures Inv(Next(s, a))
  {
    hide SlotOf, Writing, Frames;
    FramesSame(s, Next(s, a));
    WritingSame(s, Next(s, a));
  }

  lemma LoadLengthKeeps(s: Sys)
    requires Inv(s) && Enabled(s, LoadLength)
    ensures Inv(Next(s, LoadLength))
  {
    hide SlotOf, Writing;
    var d, t := |s.delivered|, Next(s, LoadLength);
    SlotInside(d);
    var f := s.published[d];
    assert Slice(s.m.mem, d) == f && f[..2] == [PAYLOAD_LEN, 0];
    assert s.m.mem[SlotOf(d)] == f[0] == f[..2][0];
    assert s.m.mem[SlotOf(d) + 1] == f[1] == f[..2][1];
    WritingSame(s, t);
  }

  lemma CopyKeeps(s: Sys)
    requires Inv(s) && Enabled(s, Copy)
    ensures Inv(Next(s, Copy))
  {
    hide SlotOf, Writing;
    var d := |s.delivered|;
    var c, f := s.consumer, s.published[d];
    SlotInside(d);
    assert Slice(s.m.mem, d) == f;
    assert s.m.mem[c.idx + |c.buf|] == f[|c.buf|];
    assert f[..|c.buf| + 1] == f[..|c.buf|] + [f[|c.buf|]];
    WritingSame(s, Next(s, Copy));
  }

  lemma FinishKeeps(s: Sys)
    requires Inv(s) && Enabled(s, Finish)
    ensures Inv(Next(s, Finish))
    ensures Next(s, Finish).delivered == s.delivered + [s.published[|s.delivered|]]
  {
    hide SlotOf, Wrap;
    var d, p, t := |s.delivered|, |s.published|, Next(s, Finish);
    SlotInside(d);
    SlotInside(d + 1);
    SlotInside(p);
    NextSlot(d);
    assert s.consumer.buf == s.published[d][..SLOT] == s.published[d];
    assert s.published[..d + 1] == s.published[..d] + [s.published[d]];
    assert Pointers(t);
    forall k | |t.delivered| <= k < |t.published| ensures Slice(t.m.mem, k) == t.published[k] {
      SlotInside(k);
      SliceAbove(s.m.mem, t.m.mem, k);
    }
    assert t.m.mem[SlotOf(p)..SlotOf(p) + 2] == s.m.mem[SlotOf(p)..SlotOf(p) + 2];
  }

  lemma StepKeeps(s: Sys, a: Action)
    requires Inv(s) && Enabled(s, a)
    ensures Inv(Next(s, a))
  {
    hide Inv, Next, Enabled;
    match a
    case Bit(b) => BitKeeps(s, b);
    case Test => TestKeeps(s);
    case Publish => PublishKeeps(s);
    case LoadRead => LoadIndexKeeps(s, a);
    case LoadWrite => LoadIndexKeeps(s, a);
    case LoadLength => LoadLengthKeeps(s);
    case Copy => CopyKeeps(s);
    case Finish => FinishKeeps(s);
  }

  /** The guards that keep memory accesses in range never hold a process back: each is always able to
      take the step its program is at. */
  lemma NeverBlocked(s: Sys)
    requires Inv(s)
    ensures !s.m.rx.full ==> Enabled(s, Bit(0)) && Enabled(s, Bit(1))
    ensures s.m.rx.full ==> Enabled(s, if s.room then Publish else Test)
    ensures s.consumer.Idle? ==> Enabled(s, LoadRead)
    ensures s.consumer.HasRead? ==> Enabled(s, LoadWrite)
    ensures s.consumer.Seen? ==> Enabled(s, LoadLength)
    ensures s.consumer.Copying? ==> Enabled(s, Copy) || Enabled(s, Finish)
  {
    hide SlotOf, Frames;
    SlotInside(|s.published|);
    SlotInside(|s.delivered|);
    Sixty();
  }

  // ---------- the consumer gets on ----------

  /** The actions, each enabled when it comes, lead from s to t. */
  ghost predicate Leads(s: Sys, acts: seq<Action>, t: Sys)
    decreases |acts|
  {
    if acts == [] then t == s else Enabled(s, acts[0]) && Leads(Next(s, acts[0]), acts[1..], t)
  }

  lemma LeadsFirst(s: Sys, a: Action, acts: seq<Action>, t: Sys)
    requires Enabled(s, a) && Leads(Next(s, a), acts, t)
    ensures Leads(s, [a] + acts, t)
  {
    hide Next, Enabled;
    assert ([a] + acts)[1..] == acts;
  }

  /** With nothing outstanding the consumer is back at the top after two loads; otherwise three loads bring it to the oldest frame. */
  lemma LoadsOldest(s: Sys) returns (acts: seq<Action>, t: Sys)
    requires Inv(s) && s.consumer.Idle?
    ensures Leads(s, acts, t) && Inv(t) && t.m == s.m && t.published == s.published && t.delivered == s.delivered
    ensures |s.delivered| == |s.published| ==> acts == [LoadRead, LoadWrite] && t == s
    ensures |s.delivered| < |s.published| ==>
      acts == [LoadRead, LoadWrite, LoadLength] && t.consumer == Copying(SlotOf(|s.delivered|), PAYLOAD_LEN, [])
  {
    hide SlotOf, Writing;
    var a := Next(s, LoadRead);
    StepKeeps(s, LoadRead);
    var b := Next(a, LoadWrite);
    StepKeeps(a, LoadWrite);
    if |s.delivered| == |s.published| {
      t, acts := b, [LoadRead, LoadWrite];
      assert b == s;
      assert acts[1..][1..] == [];
      assert Leads(b, acts[1..][1..], t);
      assert Leads(a, acts[1..], t);
    } else {
      SlotsDiffer(|s.delivered|, |s.published|);
      SlotInside(|s.delivered|);
      t, acts := Next(b, LoadLength), [LoadRead, LoadWrite, LoadLength];
      StepKeeps(b, LoadLength);
      OldestLength(b);
      assert acts[1..][1..][1..] == [];
      assert Leads(t, acts[1..][1..][1..], t);
      assert Leads(b, acts[1..][1..], t);
      assert Leads(a, acts[1..], t);
    }
  }

  lemma OldestLength(s: Sys)
    requires Inv(s) && |s.delivered| < |s.published|
    ensures SlotOf(|s.delivered|) + 1 < |s.m.mem| && Le16(s.m.mem, SlotOf(|s.delivered|)) == PAYLOAD_LEN
  {
    hide SlotOf, Writing, Reading;
    var d := |s.delivered|;
    SlotInside(d);
    var f := s.published[d];
    assert Slice(s.m.mem, d) == f && f[..2] == [PAYLOAD_LEN, 0];
    assert s.m.mem[SlotOf(d)] == f[0] == f[..2][0];
    assert s.m.mem[SlotOf(d) + 1] == f[1] == f[..2][1];
  }

  /** From there its own steps alone deliver the frame and free the slot. */
  lemma {:induction false} Delivers(s: Sys) returns (acts: seq<Action>, t: Sys)
    requires Inv(s) && s.consumer.Copying?
    ensures Leads(s, acts, t) && (forall k :: 0 <= k < |acts| ==> acts[k] == Copy || acts[k] == Finish)
    ensures |s.delivered| < |s.published| && t.consumer.Idle? && t.published == s.published
    ensures t.delivered == s.delivered + [s.published[|s.delivered|]]
    decreases SLOT - |s.consumer.buf|
  {
    hide SlotOf, Frames, Writing;
    NeverBlocked(s);
    if |s.consumer.buf| < SLOT {
      StepKeeps(s, Copy);
      var rest;
      rest, t := Delivers(Next(s, Copy));
      LeadsFirst(s, Copy, rest, t);
      acts := [Copy] + rest;
    } else {
      FinishKeeps(s);
      t := Next(s, Finish);
      assert Leads(t, [], t);
      LeadsFirst(s, Finish, [], t);
      acts := [Finish] + [];
    }
  }

  // ---------- runs ----------

  /** States linked by enabled actions in any order. */
  ghost predicate Run(ss: seq<Sys>, acts: seq<Action>) {
    && |ss| == |acts| + 1
    && Init(ss[0])
    && forall i :: 0 <= i < |acts| ==> Enabled(ss[i], acts[i]) && ss[i + 1] == Next(ss[i], acts[i])
  }

  lemma {:induction false} RunInv(ss: seq<Sys>, acts: seq<Action>, i: nat)
    requires Run(ss, acts) && i < |ss|
    ensures Inv(ss[i])
  {
    hide Inv, Next, Enabled, Init;
    if i == 0 {
      InitInv(ss[0]);
    } else {
      RunInv(ss, acts, i - 1);
      assert ss[i - 1 + 1] == Next(ss[i - 1], acts[i - 1]);
      StepKeeps(ss[i - 1], acts[i - 1]);
    }
  }

  /** In every reachable state: the indices are slot starts, at most 59 frames are outstanding, the frames
      delivered are the first ones published, in order and once each, and those outstanding are intact. */
  lemma RingSafe(ss: seq<Sys>, acts: seq<Action>, i: nat)
    requires Run(ss, acts) && i < |ss|
    ensures var s := ss[i];
      && |s.m.mem| >= BUFFER_LIMIT
      && SlotStart(WriteIdx(s.m.mem)) && SlotStart(ReadIdx(s.m.mem))
      && (WriteIdx(s.m.mem) - BUFFER_START) % SLOT == (ReadIdx(s.m.mem) - BUFFER_START) % SLOT == 0
      && |s.published| - |s.delivered| <= SLOTS - 1 == 59
      && s.delivered <= s.published
      && (forall k :: 0 <= k < |s.published| ==> |s.published[k]| == SLOT && s.published[k][..2] == [PAYLOAD_LEN, 0])
      && forall k :: |s.delivered| <= k < |s.published| ==> s.m.mem[SlotOf(k)..SlotOf(k) + SLOT] == s.published[k]
  {
    RunInv(ss, acts, i);
    hide Run, Writing, Reading, Next, Enabled;
    var s := ss[i];
    SlotAligned(|s.published|);
    SlotAligned(|s.delivered|);
    forall k | |s.delivered| <= k < |s.published| ensures s.m.mem[SlotOf(k)..SlotOf(k) + SLOT] == s.published[k] {
      assert Slice(s.m.mem, k) == s.published[k];
    }
  }

  lemma SlotAligned(k: nat)
    ensures (SlotOf(k) - BUFFER_START) % SLOT == 0
  {
  }

  lemma {:induction false} RunPlausible(ss: seq<Sys>, acts: seq<Action>, i: nat)
    requires Run(ss, acts) && i < |ss|
    ensures Plausible(ss[i].m.rx)
  {
    hide RxBit, StoreHalf, Le16;
    if i > 0 {
      RunPlausible(ss, acts, i - 1);
      var s, a := ss[i - 1], acts[i - 1];
      assert Enabled(s, a) && ss[i - 1 + 1] == Next(s, a);
      if a.Bit? {
        PlausibleKept(s.m, a.b);
      }
    }
  }

  /** From every reachable state before the body of a frame, four high bits bring the receiver back in step. */
  lemma Resynchronises(ss: seq<Sys>, acts: seq<Action>, i: nat) returns (m: Machine)
    requires Run(ss, acts) && i < |ss| && !ss[i].m.rx.full && (ss[i].m.rx.mode == Hunting || ss[i].m.rx.phase != Body)
    ensures Feeds(ss[i].m, [1, 1, 1, 1], m) && Synced(m.rx) && m.mem == ss[i].m.mem
  {
    RunInv(ss, acts, i);
    RunPlausible(ss, acts, i);
    hide Run, Feeds, SlotOf, Frames, Reading, Plausible;
    SlotInside(|ss[i].published|);
    m := FourHighs(ss[i].m);
  }

  /** No raw bit, whatever its value, touches a frame that is published and not yet delivered. */
  lemma UnreadUntouched(ss: seq<Sys>, acts: seq<Action>, i: nat, k: nat)
    requires Run(ss, acts) && i < |acts| && acts[i].Bit?
    requires |ss[i].delivered| <= k < |ss[i].published|
    ensures |ss[i].m.mem| == |ss[i + 1].m.mem| >= BUFFER_LIMIT
    ensures Slice(ss[i + 1].m.mem, k) == Slice(ss[i].m.mem, k)
  {
    RunInv(ss, acts, i);
    var s := ss[i];
    assert Enabled(s, acts[i]) && ss[i + 1] == Next(s, acts[i]);
    hide Run, Frames, Writing, Reading, SlotOf, RxBit, Slice;
    BitEffect(s, acts[i].b) by { assert Inv(s); }
    WriteElsewhere(s.m.mem, ss[i + 1].m.mem, |s.published|, k);
  }
}
