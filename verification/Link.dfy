/** Transmitter and receiver joined by the line, while the kernel thread empties the ring. */
module Link {
  import BitXor
  import opened LinkCoding
  import opened RxPru
  import opened RxRing
  import Tx = TxPru
  import RxProgram

  // ---------- what is on the line ----------

  /** High bits between frames. */
  function Highs(n: nat): seq<nat> {
    seq(n, _ => 1)
  }

  /** One frame with the bits before it; raw is what the line makes of its body. */
  function Unit(gap: seq<nat>, raw: seq<nat>): seq<nat> {
    gap + (Opening() + raw)
  }

  /** Bits that leave a synchronised receiver synchronised, without a frame and without a write. */
  ghost predicate Quiet(q: seq<nat>) {
    forall m: Machine {:trigger QuietFor(m, q)} :: SafeWrite(m) && Synced(m.rx) ==> QuietFor(m, q)
  }

  ghost predicate QuietFor(m: Machine, q: seq<nat>) {
    exists m' :: Feeds(m, q, m') && Synced(m'.rx) && m'.mem == m.mem && SafeWrite(m')
  }

  /** Frames one after the other: quiet bits gaps[k] before frame k, and the last gap behind them all. */
  datatype Traffic = Traffic(gaps: seq<seq<nat>>, raws: seq<seq<nat>>)

  ghost predicate WellFormed(t: Traffic) {
    && |t.gaps| == |t.raws| + 1 && (forall k :: 0 <= k < |t.gaps| ==> Quiet(t.gaps[k]))
    && forall k :: 0 <= k < |t.raws| ==> |t.raws[k]| == 16 * BODY_LEN && IsBits(t.raws[k])
  }

  /** The bits of the first k frames. */
  ghost function Units(t: Traffic, k: nat): seq<nat>
    requires WellFormed(t) && k <= |t.raws|
  {
    if k == 0 then [] else Units(t, k - 1) + Unit(t.gaps[k - 1], t.raws[k - 1])
  }

  /** Frame k, or the bits behind the last frame. */
  ghost function Segment(t: Traffic, k: nat): seq<nat>
    requires WellFormed(t) && k <= |t.raws|
  {
    if k < |t.raws| then Unit(t.gaps[k], t.raws[k]) else t.gaps[k]
  }

  /** Everything on the line. */
  ghost function Stream(t: Traffic): seq<nat>
    requires WellFormed(t)
  {
    Units(t, |t.raws|) + t.gaps[|t.raws|]
  }

  lemma {:induction false} StreamSplit(t: Traffic, k: nat)
    requires WellFormed(t) && k <= |t.raws|
    ensures Units(t, k) + Segment(t, k) <= Stream(t)
    decreases |t.raws| - k
  {
    hide Unit, Quiet;
    if k < |t.raws| {
      StreamSplit(t, k + 1);
      assert Units(t, k + 1) == Units(t, k) + Segment(t, k);
    }
  }

  /** The raw bits among the actions, in order. */
  ghost function Fed(acts: seq<Action>): seq<nat> {
    if |acts| == 0 then []
    else
      var before, a := Fed(acts[..|acts| - 1]), acts[|acts| - 1];
      if a.Bit? then before + [a.b] else before
  }

  // ---------- one frame from a synchronised receiver ----------

  lemma {:induction false} FeedsSplit(m: Machine, a: seq<nat>, b: seq<nat>, x: Machine, y: Machine)
    requires Feeds(m, a, x) && Feeds(m, a + b, y)
    ensures Feeds(x, b, y)
    decreases |a|
  {
    hide RxBit;
    if |a| == 0 {
      assert a + b == b;
    } else {
      assert (a + b)[1..] == a[1..] + b;
      FeedsSplit(RxBit(m, a[0]), a[1..], b, x, y);
    }
  }

  lemma QuietPassed(m: Machine, q: seq<nat>) returns (m': Machine)
    requires SafeWrite(m) && Synced(m.rx) && Quiet(q)
    ensures Feeds(m, q, m') && Synced(m'.rx) && m'.mem == m.mem && SafeWrite(m')
  {
    hide Feeds, SafeWrite, Synced;
    assert QuietFor(m, q);
    m' :| Feeds(m, q, m') && Synced(m'.rx) && m'.mem == m.mem && SafeWrite(m');
  }

  /** Where frame k takes a receiver that stands at slot k. */
  lemma UnitReceived(m: Machine, gap: seq<nat>, raw: seq<nat>) returns (m': Machine)
    requires SafeWrite(m) && Synced(m.rx) && SlotStart(WriteIdx(m.mem)) && |raw| == 16 * BODY_LEN && IsBits(raw) && Quiet(gap)
    ensures Feeds(m, Unit(gap, raw), m') && m'.rx.full && m'.rx.off == Wrap(WriteIdx(m.mem) + SLOT)
    ensures m'.mem == Overwrite(m.mem, WriteIdx(m.mem), [PAYLOAD_LEN, 0] + RawBytes(raw, BODY_LEN))
  {
    hide Feeds, Alternating, CodeBits, RawBytes, Overwrite;
    var k := QuietPassed(m, gap);
    m' := FrameReceived(k, raw);
    FeedsConcat(m, gap, Opening() + raw, k, m');
  }

  /** The same on the program's registers and memory. */
  method ReceiveUnit(receiver: RxProgram.Receiver, ghost gap: seq<nat>, ghost raw: seq<nat>, bits: seq<nat>)
    requires SafeWrite(receiver.State()) && Synced(receiver.Registers()) && SlotStart(WriteIdx(receiver.mem[..]))
    requires |raw| == 16 * BODY_LEN && IsBits(raw) && Quiet(gap) && bits == Unit(gap, raw)
    modifies receiver, receiver.mem
    ensures receiver.full && receiver.off == Wrap(WriteIdx(old(receiver.mem[..])) + SLOT)
    ensures receiver.mem[..] == Overwrite(old(receiver.mem[..]), WriteIdx(old(receiver.mem[..])), [PAYLOAD_LEN, 0] + RawBytes(raw, BODY_LEN))
  {
    hide Feeds, Unit, RawBytes, Overwrite, SafeWrite, Synced, Quiet;
    ghost var end := UnitReceived(receiver.State(), gap, raw);
    receiver.Feed(bits, end);
  }

  /** The receiver with the read index, which it does not look at before the frame is complete, set to zero. */
  ghost function Erase(m: Machine): Machine
    requires |m.mem| >= BUFFER_LIMIT
  {
    m.(mem := StoreHalf(m.mem, 2, 0))
  }

  lemma EraseBit(m: Machine, b: nat)
    requires !m.rx.full && SafeWrite(m) && WriteIdx(m.mem) >= 4
    requires m.rx.mode == SecondBit && m.rx.phase == Body ==> m.rx.off >= 4
    ensures SafeWrite(Erase(m)) && |RxBit(m, b).mem| == |m.mem| && Erase(RxBit(m, b)) == RxBit(Erase(m), b)
  {
  }

  // ---------- the receiver in a run ----------

  /** After the bits fed, with k frames published: part of frame k has gone into a receiver that started synchronised
      at slot k, the frame is complete exactly when all of it has, and what was published is what the line made of the frames. */
  ghost predicate Tracks(s: Sys, fed: seq<nat>, t: Traffic, start: Machine, part: seq<nat>)
    requires WellFormed(t)
  {
    var k := |s.published|;
    && |s.m.mem| >= BUFFER_LIMIT && k <= |t.raws|
    && (forall i :: 0 <= i < k ==> s.published[i] == [PAYLOAD_LEN, 0] + RawBytes(t.raws[i], BODY_LEN))
    && fed == Units(t, k) + part && part <= Segment(t, k)
    && SafeWrite(start) && Synced(start.rx) && WriteIdx(start.mem) == SlotOf(k)
    && Feeds(start, part, Erase(s.m))
    && (s.m.rx.full <==> k < |t.raws| && part == Segment(t, k))
  }

  /** What the whole of segment k does to such a receiver. */
  lemma SegmentReceived(t: Traffic, k: nat, start: Machine) returns (end: Machine)
    requires WellFormed(t) && k <= |t.raws| && SafeWrite(start) && Synced(start.rx) && WriteIdx(start.mem) == SlotOf(k)
    ensures Feeds(start, Segment(t, k), end) && (end.rx.full <==> k < |t.raws|)
    ensures k < |t.raws| ==>
      && end.rx.off == SlotOf(k + 1)
      && end.mem == Overwrite(start.mem, SlotOf(k), [PAYLOAD_LEN, 0] + RawBytes(t.raws[k], BODY_LEN))
  {
    hide Feeds, Unit, Overwrite, RawBytes, SlotOf, Quiet;
    SlotInside(k);
    if k < |t.raws| {
      end := UnitReceived(start, t.gaps[k], t.raws[k]);
      NextSlot(k);
    } else {
      end := QuietPassed(start, t.gaps[k]);
    }
  }

  /** A receiver part of the way into a segment is complete only at its end. */
  lemma PartOfSegment(t: Traffic, k: nat, start: Machine, part: seq<nat>, x: Machine)
    requires WellFormed(t) && k <= |t.raws| && SafeWrite(start) && Synced(start.rx) && WriteIdx(start.mem) == SlotOf(k)
    requires part <= Segment(t, k) && Feeds(start, part, x)
    ensures x.rx.full <==> k < |t.raws| && part == Segment(t, k)
  {
    hide Overwrite, RawBytes, SlotOf, Segment, RxBit;
    var all := Segment(t, k);
    var end := SegmentReceived(t, k, start);
    var rest := all[|part|..];
    assert all == part + rest;
    FeedsSplit(start, part, rest, x, end);
    if rest == [] {
      assert part == all;
    }
  }

  lemma BitTracks(s: Sys, b: nat, fed: seq<nat>, t: Traffic, start: Machine, part: seq<nat>)
    requires WellFormed(t) && Inv(s) && Enabled(s, Bit(b)) && Tracks(s, fed, t, start, part) && fed + [b] <= Stream(t)
    ensures Tracks(Next(s, Bit(b)), fed + [b], t, start, part + [b])
  {
    hide Feeds, RawBytes, SlotOf, Segment, Stream, Units, RxBit, Erase, Frames;
    var k := |s.published|;
    PartGrows(t, k, fed, part, b);
    SlotInside(k);
    EraseBit(s.m, b);
    var x := Erase(RxBit(s.m, b));
    EraseParts(s.m);
    FeedsOne(Erase(s.m), b, x);
    FeedsConcat(start, part, [b], Erase(s.m), x);
    PartOfSegment(t, k, start, part + [b], x);
    EraseParts(RxBit(s.m, b));
  }

  lemma EraseParts(m: Machine)
    requires |m.mem| >= BUFFER_LIMIT
    ensures Erase(m).rx == m.rx && |Erase(m).mem| == |m.mem| && WriteIdx(Erase(m).mem) == WriteIdx(m.mem)
    ensures forall i :: 4 <= i < |m.mem| ==> Erase(m).mem[i] == m.mem[i]
  {
  }

  /** The next bit on the line is the next bit of the segment. */
  lemma PartGrows(t: Traffic, k: nat, fed: seq<nat>, part: seq<nat>, b: nat)
    requires WellFormed(t) && k <= |t.raws| && fed == Units(t, k) + part && fed + [b] <= Stream(t)
    requires part <= Segment(t, k) && (k < |t.raws| ==> part != Segment(t, k))
    ensures part + [b] <= Segment(t, k) && fed + [b] == Units(t, k) + (part + [b])
  {
    StreamSplit(t, k);
    hide Units, Unit, Quiet;
    var u, g := Units(t, k), Segment(t, k);
    assert k == |t.raws| ==> Stream(t) == u + g;
    hide Stream, Segment;
    NextOnLine(u, g, part, b, Stream(t));
  }

  lemma NextOnLine(u: seq<nat>, g: seq<nat>, part: seq<nat>, b: nat, stream: seq<nat>)
    requires u + g <= stream && (u + part) + [b] <= stream && part <= g && (stream == u + g || part != g)
    ensures part + [b] <= g && (u + part) + [b] == u + (part + [b])
  {
    assert |part| == |g| ==> part == g;
    assert stream[|u| + |part|] == (u + g)[|u| + |part|] == g[|part|];
    assert ((u + part) + [b])[|u| + |part|] == b;
  }

  /** A complete frame is in its slot as the line made it. */
  lemma CompleteBytes(s: Sys, fed: seq<nat>, t: Traffic, start: Machine, part: seq<nat>)
    requires WellFormed(t) && Tracks(s, fed, t, start, part) && s.m.rx.full && |s.published| < |t.raws|
    ensures var at := SlotOf(|s.published|); s.m.mem[at..at + SLOT] == [PAYLOAD_LEN, 0] + RawBytes(t.raws[|s.published|], BODY_LEN)
    ensures s.m.rx.off == SlotOf(|s.published| + 1)
  {
    hide Feeds, RawBytes, SlotOf, Segment, Units, Erase, Overwrite;
    var k := |s.published|;
    SlotInside(k);
    var end := SegmentReceived(t, k, start);
    FeedsSame(start, part, Erase(s.m), end);
    EraseParts(s.m);
    SlotBytes(s.m.mem, end.mem, start.mem, SlotOf(k), [PAYLOAD_LEN, 0] + RawBytes(t.raws[k], BODY_LEN));
  }

  /** Publishing leaves a synchronised receiver at the next slot. */
  lemma NextStart(m: Machine, k: nat) returns (start: Machine)
    requires |m.mem| >= BUFFER_LIMIT && m.rx.off == SlotOf(k)
    ensures start == Erase(Published(m)) && SafeWrite(start) && Synced(start.rx) && WriteIdx(start.mem) == SlotOf(k)
  {
    hide SlotOf;
    SlotInside(k);
    start := Erase(Published(m));
  }

  /** One more frame published, and nothing yet of the next one. */
  lemma OneMore(s: Sys, n: Sys, fed: seq<nat>, t: Traffic, start: Machine, part: seq<nat>, start': Machine)
    requires WellFormed(t) && Tracks(s, fed, t, start, part) && s.m.rx.full
    requires |n.m.mem| >= BUFFER_LIMIT && !n.m.rx.full && |s.published| < |t.raws|
    requires n.published == s.published + [[PAYLOAD_LEN, 0] + RawBytes(t.raws[|s.published|], BODY_LEN)]
    requires start' == Erase(n.m) && SafeWrite(start') && Synced(start'.rx) && WriteIdx(start'.mem) == SlotOf(|s.published| + 1)
    ensures Tracks(n, fed, t, start', [])
  {
    hide Feeds, RawBytes, SlotOf, Segment, Units, Erase, SafeWrite, Synced;
    var k := |s.published|;
    UnitsNext(t, k);
    NothingFed(start', []);
    if k + 1 < |t.raws| {
      UnitsNext(t, k + 1);
    }
    assert [] <= Segment(t, k + 1);
    assert fed == fed + [];
  }

  lemma PublishTracks(s: Sys, fed: seq<nat>, t: Traffic, start: Machine, part: seq<nat>) returns (start': Machine)
    requires WellFormed(t) && Inv(s) && Enabled(s, Publish) && Tracks(s, fed, t, start, part)
    ensures Tracks(Next(s, Publish), fed, t, start', [])
  {
    hide Tracks, Frames, Writing, Reading, Feeds, RawBytes, SlotOf, Erase, StoreHalf, Hunt;
    var n := Next(s, Publish);
    PointersAt(s);
    FullIsFrame(s, fed, t, start, part);
    CompleteBytes(s, fed, t, start, part);
    start' := NextStart(s.m, |s.published| + 1);
    EraseParts(n.m);
    OneMore(s, n, fed, t, start, part, start');
  }

  lemma FullIsFrame(s: Sys, fed: seq<nat>, t: Traffic, start: Machine, part: seq<nat>)
    requires WellFormed(t) && Tracks(s, fed, t, start, part) && s.m.rx.full
    ensures |s.published| < |t.raws|
  {
    hide Feeds, RawBytes, SlotOf, Segment, Units, Erase;
  }

  lemma FeedsSame(m: Machine, bits: seq<nat>, x: Machine, y: Machine)
    requires Feeds(m, bits, x) && Feeds(m, bits, y)
    ensures x == y
  {
    assert bits + [] == bits;
    FeedsSplit(m, bits, [], x, y);
  }

  lemma UnitsNext(t: Traffic, k: nat)
    requires WellFormed(t) && k < |t.raws|
    ensures Units(t, k) + Segment(t, k) == Units(t, k + 1)
    ensures |Segment(t, k)| > 0
  {
    hide Quiet;
  }

  /** The slot written by an overwrite, read from memory that agrees with it above the indices. */
  lemma SlotBytes(mem: seq<nat>, erased: seq<nat>, was: seq<nat>, at: nat, bytes: seq<nat>)
    requires |mem| == |erased| && 4 <= at && at + |bytes| <= |was| && erased == Overwrite(was, at, bytes)
    requires forall i :: 4 <= i < |mem| ==> erased[i] == mem[i]
    ensures mem[at..at + |bytes|] == bytes
  {
    assert forall i :: at <= i < at + |bytes| ==> mem[i] == erased[i] == bytes[i - at];
  }

  /** Consumer steps and the test of FINAL. */
  lemma OtherTracks(s: Sys, a: Action, fed: seq<nat>, t: Traffic, start: Machine, part: seq<nat>)
    requires WellFormed(t) && Inv(s) && Enabled(s, a) && !a.Bit? && a != Publish && Tracks(s, fed, t, start, part)
    ensures Tracks(Next(s, a), fed, t, start, part)
  {
    hide Feeds, RawBytes, SlotOf, Segment, Units, Inv;
    assert Erase(Next(s, a).m) == Erase(s.m);
  }

  lemma InitTracks(s: Sys, t: Traffic) returns (start: Machine)
    requires WellFormed(t) && Init(s)
    ensures Tracks(s, [], t, start, [])
  {
    hide Feeds, RawBytes, Segment;
    start := Erase(s.m);
    NothingFed(start, []);
    if |t.raws| > 0 {
      UnitsNext(t, 0);
    }
  }

  /** Every run whose raw bits are a beginning of the stream is tracked, whatever the consumer does in between. */
  lemma {:induction false} RunTracks(ss: seq<Sys>, acts: seq<Action>, t: Traffic) returns (start: Machine, part: seq<nat>)
    requires Run(ss, acts) && WellFormed(t) && Fed(acts) <= Stream(t)
    ensures Tracks(ss[|acts|], Fed(acts), t, start, part)
    decreases |acts|
  {
    hide Tracks, Init, Inv, Enabled, Next, Stream;
    var n := |acts|;
    if n == 0 {
      start := InitTracks(ss[0], t);
      part := [];
    } else {
      var a, s := acts[n - 1], ss[n - 1];
      start, part := RunTracks(ss[..n], acts[..n - 1], t);
      RunInv(ss, acts, n - 1);
      assert Enabled(s, a) && ss[n - 1 + 1] == Next(s, a);
      if a.Bit? {
        BitTracks(s, a.b, Fed(acts[..n - 1]), t, start, part);
        part := part + [a.b];
      } else if a == Publish {
        start := PublishTracks(s, Fed(acts), t, start, part);
        part := [];
      } else {
        OtherTracks(s, a, Fed(acts), t, start, part);
      }
    }
  }

  // ---------- every run ----------

  /** In every run whose raw bits are a beginning of the stream, of any length and however the consumer's steps fall in between: the
      frames published are the frames on the line, in order and as the line made them, the consumer has got the first of
      them, and every frame whose last bit has arrived is published or waits in FINAL. */
  lemma StreamPublished(ss: seq<Sys>, acts: seq<Action>, t: Traffic)
    requires Run(ss, acts) && WellFormed(t) && Fed(acts) <= Stream(t)
    ensures var s := ss[|acts|];
      && |s.delivered| <= |s.published| <= |t.raws|
      && (forall k :: 0 <= k < |s.published| ==> s.published[k] == [PAYLOAD_LEN, 0] + RawBytes(t.raws[k], BODY_LEN))
      && (forall k :: 0 <= k < |s.delivered| ==> s.delivered[k] == [PAYLOAD_LEN, 0] + RawBytes(t.raws[k], BODY_LEN))
      && Units(t, |s.published|) <= Fed(acts)
      && (s.m.rx.full <==> |s.published| < |t.raws| && Fed(acts) == Units(t, |s.published| + 1))
      && (|s.published| < |t.raws| ==> |Fed(acts)| <= |Units(t, |s.published| + 1)|)
  {
    var start, part := RunTracks(ss, acts, t);
    RunInv(ss, acts, |acts|);
    hide Run, Stream, Feeds, RawBytes, SlotOf, Writing, Reading, Fed, Erase;
    hide Units, Segment;
    var s := ss[|acts|];
    assert s.delivered == s.published[..|s.delivered|];
    if |s.published| < |t.raws| {
      UnitsNext(t, |s.published|);
      PartLength(Units(t, |s.published|), part, Segment(t, |s.published|));
    }
  }

  lemma PartLength(u: seq<nat>, part: seq<nat>, all: seq<nat>)
    requires part <= all
    ensures |u + part| <= |u + all| && (u + part == u + all <==> part == all)
  {
    assert (u + part)[|u|..] == part && (u + all)[|u|..] == all;
  }

  /** In some run on this traffic, frame is what the consumer got as its k-th. */
  ghost predicate Arrives(t: Traffic, ss: seq<Sys>, acts: seq<Action>, k: nat, frame: seq<nat>) {
    && Run(ss, acts) && WellFormed(t) && Fed(acts) <= Stream(t)
    && k < |ss[|acts|].delivered| && frame == ss[|acts|].delivered[k]
  }

  lemma ArrivesAs(t: Traffic, ss: seq<Sys>, acts: seq<Action>, k: nat, frame: seq<nat>)
    requires Arrives(t, ss, acts, k, frame)
    ensures WellFormed(t) && k < |t.raws| && frame == [PAYLOAD_LEN, 0] + RawBytes(t.raws[k], BODY_LEN)
  {
    hide Run, Stream, Units, Fed, RawBytes;
    StreamPublished(ss, acts, t);
  }

  // ---------- quiet bits ----------

  lemma HighsQuiet(n: nat)
    ensures Quiet(Highs(n))
  {
    hide Feeds;
    forall m: Machine | SafeWrite(m) && Synced(m.rx)
      ensures QuietFor(m, Highs(n))
    {
      var m' := IdleHighs(m, n);
    }
  }

  ghost predicate BeforeBody(m: Machine) {
    !m.rx.full && SafeWrite(m) && (m.rx.mode == Hunting || m.rx.phase != Body)
  }

  /** The bits never bring the receiver into the body of a frame. */
  ghost predicate Outside(m: Machine, bits: seq<nat>)
    decreases |bits|
  {
    BeforeBody(m) && (bits != [] ==> Outside(RxBit(m, bits[0]), bits[1..]))
  }

  /** No opening of a frame is to be found in the bits, from wherever a synchronised receiver takes them up. */
  ghost predicate NoOpening(bits: seq<nat>) {
    forall m: Machine {:trigger Outside(m, bits)} :: SafeWrite(m) && Synced(m.rx) ==> Outside(m, bits)
  }

  lemma OutsideStep(m: Machine, b: nat)
    requires BeforeBody(m) && BeforeBody(RxBit(m, b)) && Plausible(m.rx) && b <= 1
    ensures RxBit(m, b).mem == m.mem && Plausible(RxBit(m, b).rx)
  {
    PlausibleKept(m, b);
    hide StoreHalf, Le16;
  }

  lemma {:induction false} OutsideFeeds(m: Machine, bits: seq<nat>) returns (x: Machine)
    requires Plausible(m.rx) && Outside(m, bits) && IsBits(bits)
    ensures Feeds(m, bits, x) && x.mem == m.mem && BeforeBody(x) && Plausible(x.rx)
    decreases |bits|
  {
    hide RxBit, Plausible, BeforeBody;
    if bits == [] {
      x := m;
    } else {
      BeforeParts(m);
      assert Outside(RxBit(m, bits[0]), bits[1..]);
      OutsideStep(m, bits[0]);
      x := OutsideFeeds(RxBit(m, bits[0]), bits[1..]);
    }
  }

  lemma BeforeParts(m: Machine)
    requires BeforeBody(m)
    ensures !m.rx.full && SafeWrite(m)
  {
  }

  ghost predicate Inside(rx: Rx) {
    rx.phase == Body && rx.mode != Hunting
  }

  lemma {:induction false} StaysInside(m: Machine, bits: seq<nat>, x: Machine)
    requires Inside(m.rx) && Feeds(m, bits, x)
    ensures Inside(x.rx)
    decreases |bits|
  {
    if bits != [] {
      InsideStep(m, bits[0]);
      hide RxBit;
      StaysInside(RxBit(m, bits[0]), bits[1..], x);
    }
  }

  lemma InsideStep(m: Machine, b: nat)
    requires Inside(m.rx) && !m.rx.full && SafeWrite(m)
    ensures Inside(RxBit(m, b).rx)
  {
  }

  /** Bits fed to the end at a state before the body have been outside it all along. */
  lemma {:induction false} FeedsOutside(m: Machine, bits: seq<nat>, x: Machine)
    requires Feeds(m, bits, x) && BeforeBody(x)
    ensures Outside(m, bits)
    decreases |bits|
  {
    hide RxBit;
    if Inside(m.rx) {
      StaysInside(m, bits, x);
    }
    if bits != [] {
      FeedsOutside(RxBit(m, bits[0]), bits[1..], x);
    }
  }

  lemma {:induction false} OutsidePrefix(m: Machine, a: seq<nat>, b: seq<nat>)
    requires Outside(m, a + b)
    ensures Outside(m, a)
    decreases |a|
  {
    hide RxBit;
    if a != [] {
      assert (a + b)[1..] == a[1..] + b;
      OutsidePrefix(RxBit(m, a[0]), a[1..], b);
    }
  }

  lemma OutsideThenHighs(m: Machine, t: seq<nat>)
    requires IsBits(t) && SafeWrite(m) && Synced(m.rx) && Outside(m, t)
    ensures QuietFor(m, t + [1, 1, 1, 1])
  {
    hide Feeds, Outside, SafeWrite;
    var x := OutsideFeeds(m, t);
    var m' := FourHighs(x);
    FeedsConcat(m, t, [1, 1, 1, 1], x, m');
  }

  /** Bits followed by four highs are quiet if and only if no opening of a frame is in them. */
  lemma QuietExact(t: seq<nat>)
    requires IsBits(t)
    ensures Quiet(t + [1, 1, 1, 1]) <==> NoOpening(t)
  {
    hide Feeds, Outside, QuietFor;
    if NoOpening(t) {
      forall m: Machine | SafeWrite(m) && Synced(m.rx) ensures QuietFor(m, t + [1, 1, 1, 1]) {
        assert Outside(m, t);
        OutsideThenHighs(m, t);
      }
    }
    if Quiet(t + [1, 1, 1, 1]) {
      forall m: Machine | SafeWrite(m) && Synced(m.rx) ensures Outside(m, t) {
        var m' := QuietPassed(m, t + [1, 1, 1, 1]);
        FeedsOutside(m, t + [1, 1, 1, 1], m');
        OutsidePrefix(m, t, [1, 1, 1, 1]);
      }
    }
  }

  /** Some synchronised receiver. */
  lemma SomeReceiver() returns (m: Machine)
    ensures SafeWrite(m) && Synced(m.rx)
  {
    var mem := seq(BUFFER_LIMIT, _ => 0);
    m := Machine(Rx(Hunting, 1, 0, 0, 0, Delimiter, 7, 0, 0, 0, 0, false), mem);
  }

  /** So bits that begin with an opening are not quiet. */
  lemma OpeningNotQuiet(rest: seq<nat>)
    ensures !Quiet(Opening() + rest)
  {
    hide Feeds, Opening;
    if Quiet(Opening() + rest) {
      var m := SomeReceiver();
      var c := OpeningReceived(m);
      var m' := QuietPassed(m, Opening() + rest);
      FeedsSplit(m, Opening(), rest, c, m');
      StaysInside(c, rest, m');
      assert false;
    }
  }

  /** Five bytes whose coded bits begin with an opening. */
  lemma OpeningInBytes()
    ensures CodeBytes([0x00, 0x0a, 0x30, 0x04, 0xa0]) == Opening() + CodeBits(0, 4)
  {
    hide CodeBits, CodeBytes, Opening;
    var k := 4;
    assert BitXor.Pow2(k) == 16;
    var z, a, c, d := CodeBits(0, k), CodeBits(0xa, k), CodeBits(3, k), CodeBits(4, k);
    HalfOpening(k);
    CodeNibbles(0x00, 0, 0, k);
    CodeNibbles(0x0a, 0, 0xa, k);
    CodeNibbles(0x30, 3, 0, k);
    CodeNibbles(0x04, 0, 4, k);
    CodeNibbles(0xa0, 0xa, 0, k);
    FiveBytes(0x00, 0x0a, 0x30, 0x04, 0xa0);
    assert z + z + (z + a) + (c + z) + (z + d) + (a + z) == (z + z + z + (a + c) + (z + z + (d + a))) + z;
  }

  lemma HalfOpening(k: nat)
    requires k == 4
    ensures Opening() == CodeBits(0, k) + CodeBits(0, k) + CodeBits(0, k) + (CodeBits(0xa, k) + CodeBits(3, k))
                         + (CodeBits(0, k) + CodeBits(0, k) + (CodeBits(4, k) + CodeBits(0xa, k)))
  {
    hide CodeBits, Alternating;
    ZeroNibble(k);
    assert BitXor.Pow2(k) == 16;
    CodeNibbles(SFD, 0xa, 3, k);
    CodeSplit(PAYLOAD_LEN, 8, 8);
    CodeNibbles(0, 0, 0, k);
    CodeNibbles(PAYLOAD_LEN, 4, 0xa, k);
    NoHighByte();
  }

  lemma NoHighByte()
    ensures BitXor.Shr(PAYLOAD_LEN, 8) == 0
  {
  }

  lemma ZeroNibble(k: nat)
    requires k == 4
    ensures Alternating(0) == CodeBits(0, k)
  {
  }

  lemma OneByte(a: nat)
    ensures CodeBytes([a]) == CodeBits(a, 8)
  {
    hide CodeBits;
    assert [a][1..] == [];
    assert CodeBytes([]) == [];
  }

  lemma FiveBytes(a: nat, b: nat, c: nat, d: nat, e: nat)
    ensures CodeBytes([a, b, c, d, e]) == CodeBits(a, 8) + CodeBits(b, 8) + CodeBits(c, 8) + CodeBits(d, 8) + CodeBits(e, 8)
  {
    hide CodeBytes, CodeBits;
    OneByte(a);
    OneByte(b);
    OneByte(c);
    OneByte(d);
    OneByte(e);
    CodeBytesConcat([a], [b]);
    CodeBytesConcat([a] + [b], [c]);
    CodeBytesConcat([a] + [b] + [c], [d]);
    CodeBytesConcat([a] + [b] + [c] + [d], [e]);
    assert [a] + [b] + [c] + [d] + [e] == [a, b, c, d, e];
  }

  /** Behind a frame they swallow what comes next: such a surplus is not quiet. */
  lemma SurplusExample(rest: seq<nat>)
    ensures !Quiet(CodeBytes([0x00, 0x0a, 0x30, 0x04, 0xa0] + rest) + [1, 1, 1, 1])
  {
    hide CodeBytes, CodeBits, Opening, Quiet;
    OpeningInBytes();
    CodeBytesConcat([0x00, 0x0a, 0x30, 0x04, 0xa0], rest);
    OpeningNotQuiet(CodeBits(0, 4) + CodeBytes(rest) + [1, 1, 1, 1]);
    assert CodeBytes([0x00, 0x0a, 0x30, 0x04, 0xa0] + rest) + [1, 1, 1, 1]
        == Opening() + (CodeBits(0, 4) + CodeBytes(rest) + [1, 1, 1, 1]);
  }

  /** The traffic of correctly sent frames. */
  ghost function Coded(gaps: seq<seq<nat>>, bodies: seq<seq<nat>>): (t: Traffic)
    ensures t.gaps == gaps && |t.raws| == |bodies|
  {
    Traffic(gaps, seq(|bodies|, k requires 0 <= k < |bodies| => CodeBytes(bodies[k])))
  }

  ghost predicate Bodies(bodies: seq<seq<nat>>) {
    forall k :: 0 <= k < |bodies| ==> |bodies[k]| == BODY_LEN && IsBytes(bodies[k])
  }

  ghost predicate AllQuiet(gaps: seq<seq<nat>>) {
    forall k :: 0 <= k < |gaps| ==> Quiet(gaps[k])
  }

  lemma CodedWellFormed(gaps: seq<seq<nat>>, bodies: seq<seq<nat>>)
    requires |gaps| == |bodies| + 1 && Bodies(bodies) && AllQuiet(gaps)
    ensures WellFormed(Coded(gaps, bodies))
    ensures forall k :: 0 <= k < |bodies| ==> RawBytes(Coded(gaps, bodies).raws[k], BODY_LEN) == bodies[k]
    ensures forall k :: 0 <= k < |bodies| ==> Unit(gaps[k], Coded(gaps, bodies).raws[k]) == gaps[k] + FrameBits(PAYLOAD_LEN, bodies[k])
  {
    hide CodeBytes, RawBytes, CodeBits, Alternating, Quiet;
    forall k | 0 <= k < |bodies|
      ensures IsBits(CodeBytes(bodies[k])) && RawBytes(CodeBytes(bodies[k]), BODY_LEN) == bodies[k]
    {
      RawOfCodeBytes(bodies[k]);
    }
  }

  /** Any number of frames, back to back or with quiet bits between them, are stored byte for byte and reach the kernel thread in order,
      in every run of receiver and consumer. */
  lemma FramesStored(ss: seq<Sys>, acts: seq<Action>, gaps: seq<seq<nat>>, bodies: seq<seq<nat>>)
    requires Run(ss, acts) && |gaps| == |bodies| + 1 && Bodies(bodies) && AllQuiet(gaps)
    requires WellFormed(Coded(gaps, bodies)) && Fed(acts) <= Stream(Coded(gaps, bodies))
    ensures var s := ss[|acts|];
      && |s.delivered| <= |s.published| <= |bodies|
      && (forall k :: 0 <= k < |s.published| ==> s.published[k] == [PAYLOAD_LEN, 0] + bodies[k])
      && (forall k :: 0 <= k < |s.delivered| ==> s.delivered[k] == [PAYLOAD_LEN, 0] + bodies[k])
  {
    hide Run, Stream, Units, CodeBytes, RawBytes, Fed, Unit, Quiet;
    CodedWellFormed(gaps, bodies);
    StreamPublished(ss, acts, Coded(gaps, bodies));
  }

  // ---------- from the transmitter's memory ----------

  /** The emitter is at the start of a packet. */
  ghost predicate Ready(e: Tx.Emitter) {
    e.tx.stage == Tx.Preamble && e.tx.cnt == 7 && e.tx.preambles == 0
  }

  /** The bytes the receiver takes for the body, whatever else the emitter sends. */
  ghost function Front(e: Tx.Emitter): seq<nat> {
    if |Tx.PacketBody(e)| < BODY_LEN then [] else Tx.PacketBody(e)[..BODY_LEN]
  }

  /** The bytes sent behind them and the closing highs. */
  ghost function Trail(e: Tx.Emitter): seq<nat> {
    if |Tx.PacketBody(e)| < BODY_LEN then [] else CodeBytes(Tx.PacketBody(e)[BODY_LEN..]) + Highs(4)
  }

  /** A 74-byte packet of bytes in memory, sent with at least the receiver's byte count, and nothing in the surplus that looks like a frame. */
  ghost predicate Loaded(e: Tx.Emitter) {
    Ready(e) && e.extra >= OTHER_PACKET_CONTENT_BYTE && Tx.PacketLen(e) == PAYLOAD_LEN && IsBytes(e.mem) && Quiet(Trail(e))
  }

  /** What the emitter puts on the line for one packet. */
  ghost function Emission(e: Tx.Emitter): seq<nat> {
    FrameBits(PAYLOAD_LEN, Tx.PacketBody(e)) + Highs(4)
  }

  /** And for the packets of the first k emitters. */
  ghost function Emissions(es: seq<Tx.Emitter>, k: nat): seq<nat>
    requires k <= |es|
  {
    if k == 0 then [] else Emissions(es, k - 1) + Emission(es[k - 1])
  }

  ghost function Contents(es: seq<Tx.Emitter>): (r: seq<seq<nat>>)
    ensures |r| == |es| && forall k :: 0 <= k < |es| ==> r[k] == Front(es[k])
  {
    seq(|es|, k requires 0 <= k < |es| => Front(es[k]))
  }

  /** Nothing before the first frame, and each emitter's trail behind its frame. */
  ghost function Trails(es: seq<Tx.Emitter>): (r: seq<seq<nat>>)
    ensures |r| == |es| + 1 && r[0] == [] && forall k :: 0 <= k < |es| ==> r[k + 1] == Trail(es[k])
  {
    seq(|es| + 1, k requires 0 <= k <= |es| => if k == 0 then [] else Trail(es[k - 1]))
  }

  /** Emitters sent with the receiver's own count have only the four highs behind the frame. */
  lemma OwnCountLoaded(e: Tx.Emitter)
    requires Ready(e) && e.extra == OTHER_PACKET_CONTENT_BYTE && Tx.PacketLen(e) == PAYLOAD_LEN && IsBytes(e.mem)
    ensures Loaded(e)
  {
    hide Quiet, Tx.PacketLen;
    var b := Tx.PacketBody(e);
    assert |b| == BODY_LEN;
    assert b[BODY_LEN..] == [];
    assert CodeBytes([]) == [];
    assert Trail(e) == Highs(4);
    HighsQuiet(4);
  }

  /** For any other count the surplus decides, bit for bit. */
  lemma SurplusExact(e: Tx.Emitter)
    requires Ready(e) && e.extra >= OTHER_PACKET_CONTENT_BYTE && Tx.PacketLen(e) == PAYLOAD_LEN && IsBytes(e.mem)
    ensures |Tx.PacketBody(e)| >= BODY_LEN
    ensures Loaded(e) <==> NoOpening(CodeBytes(Tx.PacketBody(e)[BODY_LEN..]))
  {
    hide Quiet, NoOpening, Tx.PacketLen, CodeBytes;
    var t := CodeBytes(Tx.PacketBody(e)[BODY_LEN..]);
    CodeBytesAreBits(Tx.PacketBody(e)[BODY_LEN..]);
    QuietExact(t);
    assert Highs(4) == [1, 1, 1, 1];
  }

  lemma EmitterSends(e: Tx.Emitter) returns (e': Tx.Emitter)
    requires Loaded(e)
    ensures Tx.Emits(e, Emission(e), e') && Ready(e')
    ensures |Front(e)| == BODY_LEN && IsBytes(Front(e))
  {
    hide FrameBits, Tx.Emits, Tx.Byte, Quiet;
    e' := Tx.PacketSent(e);
    assert Highs(4) == [1, 1, 1, 1];
    var b := Tx.PacketBody(e);
    forall i | 0 <= i < |b| ensures b[i] < 256 {
      PacketByte(e, i);
    }
  }

  lemma PacketByte(e: Tx.Emitter, i: nat)
    requires IsBytes(e.mem) && i < |Tx.PacketBody(e)|
    ensures Tx.PacketBody(e)[i] < 256
  {
    assert Tx.PacketBody(e)[i] == Tx.Byte(e.mem, e.tx.idx + 2 + i);
  }

  /** An emission is the frame the receiver takes, and the trail. */
  lemma EmissionSplit(e: Tx.Emitter)
    requires |Tx.PacketBody(e)| >= BODY_LEN
    ensures Emission(e) == FrameBits(PAYLOAD_LEN, Front(e)) + Trail(e)
  {
    hide CodeBytes, CodeBits, Alternating, Tx.PacketBody, Highs;
    var b := Tx.PacketBody(e);
    var f, r := b[..BODY_LEN], b[BODY_LEN..];
    assert b == f + r;
    CodeBytesConcat(f, r);
    Regroup3(Opening(), CodeBytes(f), CodeBytes(r), Highs(4));
  }

  lemma Regroup3(o: seq<nat>, f: seq<nat>, r: seq<nat>, h: seq<nat>)
    ensures (o + (f + r)) + h == (o + f) + (r + h)
  {
  }

  lemma {:induction false} EmissionsAreUnits(es: seq<Tx.Emitter>, k: nat)
    requires Bodies(Contents(es)) && AllQuiet(Trails(es)) && WellFormed(Coded(Trails(es), Contents(es))) && k <= |es|
    ensures Emissions(es, k) == Units(Coded(Trails(es), Contents(es)), k) + Trails(es)[k]
  {
    hide FrameBits, Unit, Front, Trail, Coded, Contents, Trails, Emission, Quiet, WellFormed, Bodies, AllQuiet;
    var gaps, bodies := Trails(es), Contents(es);
    var t := Coded(gaps, bodies);
    if k > 0 {
      EmissionsAreUnits(es, k - 1);
      CodedWellFormed(gaps, bodies);
      FrontLength(es, k - 1);
      EmissionSplit(es[k - 1]);
      var u, h, f, g := Units(t, k - 1), gaps[k - 1], FrameBits(PAYLOAD_LEN, bodies[k - 1]), gaps[k - 1 + 1];
      assert Units(t, k) == u + (h + f);
      assert Emission(es[k - 1]) == f + g;
      hide Units;
      Regroup(u, h, f, g);
    }
  }

  lemma FrontLength(es: seq<Tx.Emitter>, k: nat)
    requires Bodies(Contents(es)) && k < |es|
    ensures |Tx.PacketBody(es[k])| >= BODY_LEN
  {
    assert Contents(es)[k] == Front(es[k]);
  }

  lemma Regroup(u: seq<nat>, h: seq<nat>, f: seq<nat>, g: seq<nat>)
    ensures (u + h) + (f + g) == (u + (h + f)) + g
  {
  }

  /** Packets in the transmitter's memory, each sent with any count not below the receiver's and with no opening in the surplus, arrive byte for
      byte and in order, in every run of receiver and consumer; each emitter sends just its packet and is ready for the next one. */
  lemma PacketsAcrossLink(es: seq<Tx.Emitter>, ss: seq<Sys>, acts: seq<Action>)
    requires (forall k :: 0 <= k < |es| ==> Loaded(es[k])) && Run(ss, acts) && Fed(acts) <= Emissions(es, |es|)
    ensures forall k :: 0 <= k < |es| ==> exists e' :: Tx.Emits(es[k], Emission(es[k]), e') && Ready(e')
    ensures var s := ss[|acts|];
      && |s.delivered| <= |s.published| <= |es|
      && (forall k :: 0 <= k < |s.published| ==> s.published[k] == [PAYLOAD_LEN, 0] + Front(es[k]))
      && (forall k :: 0 <= k < |s.delivered| ==> s.delivered[k] == [PAYLOAD_LEN, 0] + Front(es[k]))
  {
    hide Run, Fed, Emission, Tx.Emits, Front, Trail, Ready, CodeBytes, Units, Quiet, Tx.PacketLen;
    forall k | 0 <= k < |es|
      ensures |Front(es[k])| == BODY_LEN && IsBytes(Front(es[k])) && Quiet(Trail(es[k]))
      ensures exists e' :: Tx.Emits(es[k], Emission(es[k]), e') && Ready(e')
    {
      var e' := EmitterSends(es[k]);
    }
    var gaps, bodies := Trails(es), Contents(es);
    TrailsQuiet(es);
    CodedWellFormed(gaps, bodies);
    EmissionsAreUnits(es, |es|);
    FramesStored(ss, acts, gaps, bodies);
  }

  lemma TrailsQuiet(es: seq<Tx.Emitter>)
    requires forall k :: 0 <= k < |es| ==> Quiet(Trail(es[k]))
    ensures AllQuiet(Trails(es))
  {
    hide Quiet, Trail, Trails;
    EmptyQuiet();
    var gaps := Trails(es);
    forall k | 0 <= k < |gaps| ensures Quiet(gaps[k]) {
      if k > 0 {
        assert gaps[k - 1 + 1] == Trail(es[k - 1]);
      }
    }
  }

  lemma EmptyQuiet()
    ensures Quiet([])
  {
    HighsQuiet(0);
    assert Highs(0) == [];
  }
}
