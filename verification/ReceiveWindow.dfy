/** The node's sliding receive window: sequence numbers arrive in any order, and the
    acknowledgement number follows the first one missing. */
module ReceiveWindow {
  const MAX_SEQ_NUMBER: nat := 500000
  /** max_ACK_bit_pattern: the widest window a report may describe. */
  const MAX_PATTERN: nat := 100000

  /** The acknowledgement number, the marks, and the largest number received. */
  datatype Status = Status(rcvSeq: nat, rcvState: seq<nat>, lastRcvSeq: nat)

  function Initial(): Status {
    Status(0, seq(MAX_SEQ_NUMBER, _ => 0), 0)
  }

  /** The first unmarked cell from k on. */
  function FirstGap(state: seq<nat>, k: nat): (r: nat)
    requires k <= |state|
    ensures k <= r <= |state|
    ensures forall j :: k <= j < r ==> state[j] == 1
    ensures r < |state| ==> state[r] != 1
    decreases |state| - k
  {
    if k < |state| && state[k] == 1 then FirstGap(state, k + 1) else k
  }

  /** Below this number nothing is acknowledged individually any more. */
  function Floor(last: nat): nat {
    if last < MAX_PATTERN then 0 else last - MAX_PATTERN + 1
  }

  function Marked(s: Status, i: nat): seq<nat>
    requires i < |s.rcvState|
  {
    if i >= s.rcvSeq then s.rcvState[i := 1] else s.rcvState
  }

  /** Whether the arrival of i pushes the window past numbers still missing. */
  predicate Slides(s: Status, i: nat)
    requires i < |s.rcvState| && s.rcvSeq <= |s.rcvState|
  {
    var last := if i > s.lastRcvSeq then i else s.lastRcvSeq;
    last - FirstGap(Marked(s, i), s.rcvSeq) + 1 > MAX_PATTERN
  }

  function Process(s: Status, i: nat): Status
    requires i < |s.rcvState| && s.rcvSeq <= |s.rcvState|
  {
    var last := if i > s.lastRcvSeq then i else s.lastRcvSeq;
    Status(if Slides(s, i) then last - MAX_PATTERN + 1 else FirstGap(Marked(s, i), s.rcvSeq), Marked(s, i), last)
  }

  /** Some number of the last window of the array has not arrived. */
  ghost predicate RoomLeft(h: seq<nat>) {
    exists j: nat :: MAX_SEQ_NUMBER - MAX_PATTERN <= j < MAX_SEQ_NUMBER && j !in h
  }

  /** A history within one epoch: numbers that have a cell, in any order, repeats allowed, while there is room. */
  ghost predicate Epoch(h: seq<nat>) {
    (forall k :: 0 <= k < |h| ==> h[k] < MAX_SEQ_NUMBER) && RoomLeft(h)
  }

  /** The window after a history. */
  ghost function Run(h: seq<nat>): (s: Status)
    requires Epoch(h)
    ensures Inv(s, h)
    decreases |h|
  {
    if |h| == 0 then InitialInv(); Initial()
    else
      var front, i := h[..|h| - 1], h[|h| - 1];
      assert h == front + [i];
      EpochFront(front, [i]);
      ProcessKeeps(Run(front), front, i);
      Process(Run(front), i)
  }

  ghost predicate Sized(s: Status) {
    |s.rcvState| == MAX_SEQ_NUMBER && s.rcvSeq < MAX_SEQ_NUMBER && s.lastRcvSeq < MAX_SEQ_NUMBER
  }

  /** Marks are exact from the acknowledgement number on, and a mark is always a received number. */
  ghost predicate MarksExact(s: Status, h: seq<nat>)
    requires Sized(s)
  {
    && (forall j :: 0 <= j < MAX_SEQ_NUMBER ==> s.rcvState[j] <= 1)
    && (forall j :: 0 <= j < MAX_SEQ_NUMBER && s.rcvState[j] == 1 ==> j in h)
    && (forall j :: s.rcvSeq <= j < MAX_SEQ_NUMBER && j in h ==> s.rcvState[j] == 1)
  }

  ghost predicate IsLargest(last: nat, h: seq<nat>) {
    (forall j: nat :: j in h ==> j <= last) && (last == 0 || last in h)
  }

  ghost predicate Inv(s: Status, h: seq<nat>) {
    && Sized(s) && MarksExact(s, h) && IsLargest(s.lastRcvSeq, h)
    && 0 <= s.lastRcvSeq - s.rcvSeq + 1 <= MAX_PATTERN
    && (forall j: nat :: Floor(s.lastRcvSeq) <= j < s.rcvSeq ==> j in h)
    && (s.rcvState[s.rcvSeq] == 1 ==> s.rcvSeq == Floor(s.lastRcvSeq))
  }

  lemma InitialInv()
    ensures Inv(Initial(), [])
  {
  }

  /** The inner loop stops at most one past the largest number, and inside the array. */
  lemma GapBelowLast(s: Status, h: seq<nat>, i: nat)
    requires Inv(s, h) && Epoch(h + [i]) && i < MAX_SEQ_NUMBER
    ensures var last := if i > s.lastRcvSeq then i else s.lastRcvSeq;
      s.rcvSeq <= FirstGap(Marked(s, i), s.rcvSeq) <= last + 1
    ensures FirstGap(Marked(s, i), s.rcvSeq) < MAX_SEQ_NUMBER
  {
    var last := if i > s.lastRcvSeq then i else s.lastRcvSeq;
    assert forall j :: last < j < MAX_SEQ_NUMBER ==> Marked(s, i)[j] != 1;
    assert last + 1 < MAX_SEQ_NUMBER ==> Marked(s, i)[last + 1] != 1;
    var j: nat :| MAX_SEQ_NUMBER - MAX_PATTERN <= j < MAX_SEQ_NUMBER && j !in h + [i];
    assert j !in h && j != i;
    assert Floor(s.lastRcvSeq) <= j;
    assert s.rcvState[j] != 1 && Marked(s, i)[j] != 1;
  }

  /** Once the last window is complete it does not: the loop runs out of the array now, or does so at the next arrival,
      whatever that is. The condition of Epoch is the weakest under which the program may go on. */
  lemma LoopLeavesArray(s: Status, h: seq<nat>, i: nat)
    requires Inv(s, h) && Epoch(h) && i < MAX_SEQ_NUMBER && !RoomLeft(h + [i])
    ensures var t := Process(s, i);
      || FirstGap(Marked(s, i), s.rcvSeq) == MAX_SEQ_NUMBER
      || (t.rcvSeq < MAX_SEQ_NUMBER && forall n: nat :: n < MAX_SEQ_NUMBER ==> FirstGap(Marked(t, n), t.rcvSeq) == MAX_SEQ_NUMBER)
  {
    var g := FirstGap(Marked(s, i), s.rcvSeq);
    var j: nat :| MAX_SEQ_NUMBER - MAX_PATTERN <= j < MAX_SEQ_NUMBER && j !in h;
    assert j in h + [i];
    assert Floor(s.lastRcvSeq) <= i && i >= s.rcvSeq;
    if g < MAX_SEQ_NUMBER {
      CompleteWindow(s, h, i);
      assert Marked(s, i)[g] != 1 && g < MAX_SEQ_NUMBER - MAX_PATTERN;
      assert MAX_SEQ_NUMBER - 1 in h + [i];
      assert Process(s, i).lastRcvSeq == MAX_SEQ_NUMBER - 1;
      assert Process(s, i).rcvSeq == MAX_SEQ_NUMBER - MAX_PATTERN;
    }
  }

  /** At one arrival: the loop leaves the array if and only if nothing from the acknowledgement number on is missing. */
  lemma LoopLeavesNow(s: Status, h: seq<nat>, i: nat)
    requires Inv(s, h) && i < MAX_SEQ_NUMBER
    ensures FirstGap(Marked(s, i), s.rcvSeq) == MAX_SEQ_NUMBER <==> forall j: nat :: s.rcvSeq <= j < MAX_SEQ_NUMBER ==> j in h + [i]
  {
    hide Floor;
    var g := FirstGap(Marked(s, i), s.rcvSeq);
    forall j: nat | s.rcvSeq <= j < MAX_SEQ_NUMBER ensures Marked(s, i)[j] == 1 <==> j in h + [i] {
      if j != i {
        assert j in h + [i] <==> j in h;
      }
    }
  }

  /** The last window but its last number, in order. */
  function LastWindow(): (h: seq<nat>)
    ensures |h| == MAX_PATTERN - 1
  {
    seq(MAX_PATTERN - 1, k => MAX_SEQ_NUMBER - MAX_PATTERN + k)
  }

  /** A history that is fine until one more packet, number 499999, arrives; then the loop leaves the array at the arrival after that. */
  lemma ArrayExample(i: nat, n: nat)
    requires i == 499999 && n < MAX_SEQ_NUMBER
    ensures Epoch(LastWindow()) && !RoomLeft(LastWindow() + [i])
    ensures var t := Process(Run(LastWindow()), i); t.rcvSeq <= |t.rcvState| && FirstGap(Marked(t, n), t.rcvSeq) == MAX_SEQ_NUMBER
  {
    hide Run, Inv, FirstGap;
    var h := LastWindow();
    assert forall k :: 0 <= k < |h| ==> h[k] == MAX_SEQ_NUMBER - MAX_PATTERN + k;
    assert i !in h;
    forall j: nat | MAX_SEQ_NUMBER - MAX_PATTERN <= j < MAX_SEQ_NUMBER ensures j in h + [i] {
      if j != i {
        assert h[j - (MAX_SEQ_NUMBER - MAX_PATTERN)] == j;
      }
    }
    Overruns(h, i, n);
  }

  /** A complete last window with a gap just below it: not now, but at the next arrival. */
  lemma Overruns(h: seq<nat>, i: nat, n: nat)
    requires Epoch(h) && i < MAX_SEQ_NUMBER && !RoomLeft(h + [i]) && n < MAX_SEQ_NUMBER
    requires MAX_SEQ_NUMBER - MAX_PATTERN - 1 !in h + [i] && forall j: nat :: j in h ==> j < MAX_SEQ_NUMBER - 1
    ensures var t := Process(Run(h), i); t.rcvSeq <= |t.rcvState| && FirstGap(Marked(t, n), t.rcvSeq) == MAX_SEQ_NUMBER
  {
    hide Run, FirstGap;
    var s := Run(h);
    var gap := MAX_SEQ_NUMBER - MAX_PATTERN - 1;
    assert gap !in h;
    assert Floor(s.lastRcvSeq) <= gap && s.rcvSeq <= gap;
    LoopLeavesNow(s, h, i);
    LoopLeavesArray(s, h, i);
  }

  lemma CompleteWindow(s: Status, h: seq<nat>, i: nat)
    requires Inv(s, h) && s.rcvSeq <= i < MAX_SEQ_NUMBER && !RoomLeft(h + [i])
    ensures forall k :: s.rcvSeq <= k < MAX_SEQ_NUMBER && MAX_SEQ_NUMBER - MAX_PATTERN <= k ==> Marked(s, i)[k] == 1
  {
    forall k: nat | s.rcvSeq <= k < MAX_SEQ_NUMBER && MAX_SEQ_NUMBER - MAX_PATTERN <= k ensures Marked(s, i)[k] == 1 {
      assert k in h + [i];
      if k != i {
        assert k in h;
      }
    }
  }

  lemma MarksKept(s: Status, h: seq<nat>, i: nat)
    requires Inv(s, h) && Epoch(h + [i]) && i < MAX_SEQ_NUMBER
    ensures var t := Process(s, i); Sized(t) && t.rcvSeq >= s.rcvSeq && MarksExact(t, h + [i]) && IsLargest(t.lastRcvSeq, h + [i])
  {
    hide Floor;
    GapBelowLast(s, h, i);
    var t := Process(s, i);
    assert Sized(t);
    forall j | t.rcvSeq <= j < MAX_SEQ_NUMBER && j in h + [i] ensures t.rcvState[j] == 1 {
      if j != i {
        assert j in h && s.rcvState[j] == 1;
      }
    }
  }

  lemma ProcessKeeps(s: Status, h: seq<nat>, i: nat)
    requires Inv(s, h) && Epoch(h + [i]) && i < MAX_SEQ_NUMBER
    ensures Inv(Process(s, i), h + [i])
  {
    var t := Process(s, i);
    GapBelowLast(s, h, i);
    MarksKept(s, h, i);
    forall j: nat | Floor(t.lastRcvSeq) <= j < t.rcvSeq ensures j in h + [i] {
      if j < s.rcvSeq {
        assert Floor(s.lastRcvSeq) <= j;
      } else {
        assert t.rcvState[j] == 1;
      }
    }
  }

  // ---------- over every history ----------

  lemma RunStep(h: seq<nat>, i: nat)
    requires Epoch(h + [i])
    ensures Epoch(h) && i < MAX_SEQ_NUMBER && Run(h + [i]) == Process(Run(h), i)
  {
    hide Inv;
    EpochFront(h, [i]);
    assert [i][0] == i;
    assert (h + [i])[..|h|] == h;
  }

  /** Neither number ever decreases. */
  lemma {:induction false} Monotone(h: seq<nat>, more: seq<nat>)
    requires Epoch(h + more)
    ensures Epoch(h) && Run(h).rcvSeq <= Run(h + more).rcvSeq && Run(h).lastRcvSeq <= Run(h + more).lastRcvSeq
    decreases |more|
  {
    hide Run, Inv, Process;
    EpochFront(h, more);
    if |more| == 0 {
      assert h + more == h;
    } else {
      var front, i := more[..|more| - 1], more[|more| - 1];
      assert (h + front) + [i] == h + more;
      EpochFront(h + front, [i]);
      Monotone(h, front);
      RunStep(h + front, i);
      Grows(h + front, i);
    }
  }

  lemma EpochFront(h: seq<nat>, more: seq<nat>)
    requires Epoch(h + more)
    ensures Epoch(h) && forall k :: 0 <= k < |more| ==> more[k] < MAX_SEQ_NUMBER
  {
    var j: nat :| MAX_SEQ_NUMBER - MAX_PATTERN <= j < MAX_SEQ_NUMBER && j !in h + more;
    assert j !in h;
    assert forall k :: 0 <= k < |h| ==> h[k] == (h + more)[k];
    assert forall k :: 0 <= k < |more| ==> more[k] == (h + more)[|h| + k];
  }

  lemma Grows(h: seq<nat>, i: nat)
    requires Epoch(h) && Epoch(h + [i]) && i < MAX_SEQ_NUMBER
    ensures Sized(Run(h)) && Process(Run(h), i).rcvSeq >= Run(h).rcvSeq && Process(Run(h), i).lastRcvSeq >= Run(h).lastRcvSeq
  {
    hide Run;
    MarksKept(Run(h), h, i);
  }

  /** The least number from k on that is not in h. */
  ghost predicate LeastMissing(r: nat, k: nat, h: seq<nat>) {
    k <= r && r !in h && forall j :: k <= j < r ==> j in h
  }

  /** What the acknowledgement number is, after any history: the least missing number at or above the floor set by
      the largest number received, except that right after a slide it may rest on a received floor. */
  lemma AckNumber(h: seq<nat>)
    requires Epoch(h)
    ensures var s := Run(h);
      if s.rcvState[s.rcvSeq] != 1 then LeastMissing(s.rcvSeq, Floor(s.lastRcvSeq), h) else s.rcvSeq == Floor(s.lastRcvSeq) && s.rcvSeq in h
  {
  }

  /** The largest number received, or zero. */
  ghost function Largest(h: seq<nat>): (r: nat)
    ensures IsLargest(r, h)
    decreases |h|
  {
    if |h| == 0 then 0
    else
      var front, i := h[..|h| - 1], h[|h| - 1];
      assert h == front + [i];
      if i > Largest(front) then i else Largest(front)
  }

  /** The acknowledgement number is the least missing number of all if and only if no number below the floor of the history is missing. */
  lemma AckIsLeastMissing(h: seq<nat>)
    requires Epoch(h)
    ensures LeastMissing(Run(h).rcvSeq, 0, h) <==> forall j: nat :: j < Floor(Largest(h)) ==> j in h
  {
    hide Run, Floor;
    var s := Run(h);
    FloorBelow(h);
    assert s.lastRcvSeq == Largest(h);
    if s.rcvState[s.rcvSeq] == 1 {
      var gap := LagMisses(h);
    }
  }

  /** An acknowledgement number resting on a received number has skipped a missing one. */
  lemma LagMisses(h: seq<nat>) returns (gap: nat)
    requires Epoch(h) && Run(h).rcvState[Run(h).rcvSeq] == 1
    ensures gap < Floor(Run(h).lastRcvSeq) && gap !in h
  {
    NotEmpty(h);
    var front, i := h[..|h| - 1], h[|h| - 1];
    assert h == front + [i];
    RunStep(front, i);
    gap := SlideSkips(Run(front), front, i);
  }

  lemma NotEmpty(h: seq<nat>)
    requires Epoch(h) && Run(h).rcvState[Run(h).rcvSeq] == 1
    ensures |h| > 0
  {
    if h == [] {
      RunEmpty(h);
    }
  }

  /** The guard of the last branch: when it holds, the number after the inner loop is missing and falls below the window. */
  lemma SlideSkips(s: Status, h: seq<nat>, i: nat) returns (gap: nat)
    requires Inv(s, h) && Epoch(h + [i]) && i < MAX_SEQ_NUMBER && Process(s, i).rcvSeq < MAX_SEQ_NUMBER
    ensures gap == FirstGap(Marked(s, i), s.rcvSeq)
    ensures Slides(s, i) ==> gap < Process(s, i).rcvSeq == Floor(Process(s, i).lastRcvSeq) && gap !in h + [i]
    ensures !Slides(s, i) ==> Process(s, i).rcvState[Process(s, i).rcvSeq] != 1
  {
    GapBelowLast(s, h, i);
    gap := FirstGap(Marked(s, i), s.rcvSeq);
    assert Marked(s, i)[gap] != 1;
    if gap in h + [i] && gap != i {
      assert gap in h;
    }
  }

  /** The floor may itself have arrived: then the number rests on it until the next arrival. */
  lemma RestsOnReceived()
    ensures Epoch([1, 100000]) && Run([1, 100000]).rcvSeq == 1 && 1 in [1, 100000]
  {
    hide Inv, Run;
    var none: seq<nat> := [];
    var one: seq<nat> := none + [1];
    assert one == [1] && one + [100000] == [1, 100000];
    assert MAX_SEQ_NUMBER - 1 !in one + [100000];
    assert Epoch(one + [100000]);
    RunStep(one, 100000);
    RunStep(none, 1);
    RunEmpty(none);
    InitialMarks();
  }

  /** The smallest history that shows it: one packet ahead of a full window. */
  lemma SlideExample()
    ensures Epoch([100000]) && Run([100000]).rcvSeq == 1 && !LeastMissing(1, 0, [100000])
  {
    hide Inv, Run;
    var h: seq<nat> := [];
    assert MAX_SEQ_NUMBER - 1 !in h + [100000];
    assert h + [100000] == [100000];
    assert Epoch(h + [100000]);
    RunStep(h, 100000);
    RunEmpty(h);
    InitialMarks();
    assert 0 !in [100000];
  }

  lemma FloorBelow(h: seq<nat>)
    requires Epoch(h)
    ensures Floor(Run(h).lastRcvSeq) <= Run(h).rcvSeq
  {
  }

  /** No prefix of the history slides the window. */
  ghost predicate NeverSlides(h: seq<nat>)
    requires Epoch(h)
    decreases |h|
  {
    |h| > 0 ==>
      var front, i := h[..|h| - 1], h[|h| - 1];
      assert h == front + [i];
      EpochFront(front, [i]);
      NeverSlides(front) && !Slides(Run(front), i)
  }

  /** Without slides the acknowledgement number is the least missing number, and every mark is exact. */
  lemma {:induction false} NoSlideLeastMissing(h: seq<nat>)
    requires Epoch(h) && NeverSlides(h)
    ensures LeastMissing(Run(h).rcvSeq, 0, h)
    ensures forall j :: 0 <= j < MAX_SEQ_NUMBER ==> (Run(h).rcvState[j] == 1 <==> j in h)
    decreases |h|
  {
    hide Floor, Initial, Run, Inv, Process, Slides;
    if |h| > 0 {
      var front, i := h[..|h| - 1], h[|h| - 1];
      assert h == front + [i];
      RunStep(front, i);
      NoSlideLeastMissing(front);
      NoSlideStep(front, i, Run(front), Run(h));
    } else {
      RunEmpty(h);
      InitialMarks();
    }
  }

  lemma RunEmpty(h: seq<nat>)
    requires h == []
    ensures Epoch(h) && Run(h) == Initial()
  {
    assert MAX_SEQ_NUMBER - 1 !in h;
  }

  lemma NoSlideStep(h: seq<nat>, i: nat, s: Status, t: Status)
    requires Inv(s, h) && Epoch(h + [i]) && i < MAX_SEQ_NUMBER && t == Process(s, i) && !Slides(s, i)
    requires LeastMissing(s.rcvSeq, 0, h) && forall j :: 0 <= j < MAX_SEQ_NUMBER ==> (s.rcvState[j] == 1 <==> j in h)
    ensures Inv(t, h + [i]) && LeastMissing(t.rcvSeq, 0, h + [i])
    ensures forall j :: 0 <= j < MAX_SEQ_NUMBER ==> (t.rcvState[j] == 1 <==> j in h + [i])
  {
    hide Floor;
    ProcessKeeps(s, h, i);
    forall j | 0 <= j < MAX_SEQ_NUMBER ensures t.rcvState[j] == 1 <==> j in h + [i] {
      if j == i && i < s.rcvSeq {
        assert i in h;
      }
    }
    forall j | 0 <= j < t.rcvSeq ensures j in h + [i] {
      if j >= s.rcvSeq {
        assert t.rcvState[j] == 1;
      }
    }
    assert t.rcvState[t.rcvSeq] != 1;
  }

  lemma InitialMarks()
    ensures Initial().rcvSeq == 0 && forall j :: 0 <= j < MAX_SEQ_NUMBER ==> Initial().rcvState[j] == 0
  {
  }

  ghost predicate SameNumbers(h: seq<nat>, g: seq<nat>) {
    forall j :: j in h <==> j in g
  }

  /** Whatever the order and the repeats: histories of the same numbers that never slide leave the same window. */
  lemma OrderFree(h: seq<nat>, g: seq<nat>)
    requires Epoch(h) && Epoch(g) && SameNumbers(h, g) && NeverSlides(h) && NeverSlides(g)
    ensures Run(h) == Run(g)
  {
    hide Floor, Run, Inv, LeastMissing;
    NoSlideLeastMissing(h);
    NoSlideLeastMissing(g);
    SameLargest(h, g);
    var s, t := Run(h), Run(g);
    LeastUnique(s.rcvSeq, t.rcvSeq, 0, h, g);
    RunShape(h);
    RunShape(g);
    assert s.rcvState == t.rcvState;
  }

  lemma SameLargest(h: seq<nat>, g: seq<nat>)
    requires Epoch(h) && Epoch(g) && SameNumbers(h, g)
    ensures Run(h).lastRcvSeq == Run(g).lastRcvSeq
  {
    var a, b := Run(h).lastRcvSeq, Run(g).lastRcvSeq;
    assert IsLargest(a, h) && IsLargest(b, g);
    if a > 0 {
      assert a in g;
    }
    if b > 0 {
      assert b in h;
    }
  }

  lemma LeastUnique(a: nat, b: nat, k: nat, h: seq<nat>, g: seq<nat>)
    requires SameNumbers(h, g) && LeastMissing(a, k, h) && LeastMissing(b, k, g)
    ensures a == b
  {
  }

  lemma RunShape(h: seq<nat>)
    requires Epoch(h)
    ensures var s := Run(h);
      && |s.rcvState| == MAX_SEQ_NUMBER && s.rcvSeq < MAX_SEQ_NUMBER
      && (forall j :: 0 <= j < MAX_SEQ_NUMBER ==> s.rcvState[j] <= 1)
      && (forall j :: s.rcvSeq <= j < MAX_SEQ_NUMBER ==> (s.rcvState[j] == 1 <==> j in h))
  {
    hide Run, Floor;
  }

  /** With slides too, the acknowledgement number, the largest number and every mark from the acknowledgement number on depend
      only on which numbers arrived, once each window's number points at a missing cell. */
  lemma SettledOrderFree(h: seq<nat>, g: seq<nat>)
    requires Epoch(h) && Epoch(g) && SameNumbers(h, g)
    requires Run(h).rcvState[Run(h).rcvSeq] != 1 && Run(g).rcvState[Run(g).rcvSeq] != 1
    ensures Run(h).rcvSeq == Run(g).rcvSeq && Run(h).lastRcvSeq == Run(g).lastRcvSeq
    ensures Run(h).rcvState[Run(h).rcvSeq..] == Run(g).rcvState[Run(g).rcvSeq..]
  {
    hide Floor, Run, Inv, LeastMissing;
    SameLargest(h, g);
    AckNumber(h);
    AckNumber(g);
    var s, t := Run(h), Run(g);
    LeastUnique(s.rcvSeq, t.rcvSeq, Floor(s.lastRcvSeq), h, g);
    RunShape(h);
    RunShape(g);
  }

  /** The last arrival did not slide the window. */
  ghost predicate EndsUnslid(h: seq<nat>)
    requires Epoch(h)
  {
    |h| > 0 ==>
      var front, i := h[..|h| - 1], h[|h| - 1];
      assert h == front + [i];
      EpochFront(front, [i]);
      !Slides(Run(front), i)
  }

  lemma UnslidSettled(h: seq<nat>)
    requires Epoch(h) && EndsUnslid(h)
    ensures Run(h).rcvState[Run(h).rcvSeq] != 1
  {
    hide Run, Slides;
    if |h| == 0 {
      RunEmpty(h);
      InitialMarks();
    } else {
      var front, i := h[..|h| - 1], h[|h| - 1];
      assert h == front + [i];
      RunStep(front, i);
      var gap := SlideSkips(Run(front), front, i);
    }
  }

  /** So everything a report shows depends only on which numbers arrived, whatever slid before, as long as the last arrivals did not slide. */
  lemma UnslidOrderFree(h: seq<nat>, g: seq<nat>)
    requires Epoch(h) && Epoch(g) && SameNumbers(h, g) && EndsUnslid(h) && EndsUnslid(g)
    ensures Run(h).rcvSeq == Run(g).rcvSeq && Run(h).lastRcvSeq == Run(g).lastRcvSeq
    ensures Run(h).rcvState[Run(h).rcvSeq..] == Run(g).rcvState[Run(g).rcvSeq..]
  {
    hide Run, EndsUnslid;
    UnslidSettled(h);
    UnslidSettled(g);
    SettledOrderFree(h, g);
  }

  /** Numbers that fit one window never slide it. */
  lemma {:induction false} NarrowNeverSlides(h: seq<nat>)
    requires forall k :: 0 <= k < |h| ==> h[k] < MAX_PATTERN
    ensures Epoch(h) && NeverSlides(h)
    decreases |h|
  {
    hide Initial, Run, Inv, Process;
    assert MAX_SEQ_NUMBER - 1 !in h;
    assert RoomLeft(h);
    if |h| > 0 {
      var front, i := h[..|h| - 1], h[|h| - 1];
      assert h == front + [i];
      NarrowNeverSlides(front);
      NarrowStep(front, i);
    }
  }

  lemma NarrowStep(h: seq<nat>, i: nat)
    requires Epoch(h) && i < MAX_PATTERN && forall k :: 0 <= k < |h| ==> h[k] < MAX_PATTERN
    ensures !Slides(Run(h), i)
  {
    hide Run;
    var s := Run(h);
    assert s.lastRcvSeq == 0 || s.lastRcvSeq in h;
  }

  // ---------- the program ----------

  class NodeStatus {
    var rcvSeq: nat
    const rcvState: array<nat>
    var lastRcvSeq: nat

    function Value(): Status
      reads this, rcvState
    {
      Status(rcvSeq, rcvState[..], lastRcvSeq)
    }

    constructor (maxSequence: nat)
      ensures fresh(rcvState) && Value() == Status(0, seq(maxSequence, _ => 0), 0)
    {
      rcvSeq := 0;
      var state := new nat[maxSequence];
      var i := 0;
      while i < maxSequence
        invariant i <= maxSequence && forall j :: 0 <= j < i ==> state[j] == 0
      {
        state[i] := 0;
        i := i + 1;
      }
      assert state[..] == seq(maxSequence, _ => 0);
      rcvState := state;
      lastRcvSeq := 0;
    }

    /** One packet taken off the processing queue; the inner loop stops inside the array. */
    method ProcessData(i: nat, ghost h: seq<nat>)
      requires Epoch(h + [i]) && Epoch(h) && i < MAX_SEQ_NUMBER && Value() == Run(h)
      modifies this, rcvState
      ensures Value() == Process(old(Value()), i) == Run(h + [i])
    {
      hide Floor, Run, Inv, RoomLeft;
      ghost var s := Value();
      RunStep(h, i);
      RunShape(h);
      GapBelowLast(s, h, i);
      if i >= rcvSeq {
        rcvState[i] := 1;
      }
      assert rcvState[..] == Marked(s, i);
      if i > lastRcvSeq {
        lastRcvSeq := i;
      }
      ghost var state, last := rcvState[..], lastRcvSeq;
      while rcvState[rcvSeq] == 1
        invariant rcvState[..] == state && lastRcvSeq == last && rcvSeq < rcvState.Length
        invariant FirstGap(state, rcvSeq) == FirstGap(state, s.rcvSeq) < rcvState.Length
        decreases rcvState.Length - rcvSeq
      {
        rcvSeq := rcvSeq + 1;
      }
      assert rcvSeq == FirstGap(Marked(s, i), s.rcvSeq);
      if lastRcvSeq - rcvSeq + 1 > MAX_PATTERN {
        rcvSeq := lastRcvSeq - MAX_PATTERN + 1;
      }
      assert rcvState[..] == state;
    }
  }
}
