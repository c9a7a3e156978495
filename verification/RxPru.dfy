/** The receiver PRU: a bit-level state machine that finds the preamble, checks the
    delimiter and the length, and writes the frame into the shared-memory ring. */
module RxPru {
  import opened BitXor
  import opened LinkCoding

  datatype Mode = Hunting | FirstBit | SecondBit
  datatype Phase = Delimiter | Length | Body

  /** The registers that survive from one bit to the next.
      mode r4, symbols r8, preambles r9, prev r10, first r12, phase r14, cnt r15, val r16,
      off r20, ch r21, got r23; full: the program sits in the FINAL loop. */
  datatype Rx = Rx(mode: Mode, symbols: nat, preambles: nat, prev: nat, first: nat, phase: Phase,
                   cnt: nat, val: nat, off: nat, ch: nat, got: nat, full: bool)

  /** Registers and the PRU data memory, byte by byte. */
  datatype Machine = Machine(rx: Rx, mem: seq<nat>)

  function StoreHalf(mem: seq<nat>, i: nat, v: nat): (r: seq<nat>)
    requires i + 1 < |mem|
    ensures |r| == |mem|
  {
    mem[i := v % 256][i + 1 := v / 256 % 256]
  }

  function WriteIdx(mem: seq<nat>): nat
    requires |mem| >= BUFFER_LIMIT
  {
    Le16(mem, 0)
  }

  function ReadIdx(mem: seq<nat>): nat
    requires |mem| >= BUFFER_LIMIT
  {
    Le16(mem, 2)
  }

  /** The buffer pointer wraps at BUFFER_LIMIT. */
  function Wrap(off: nat): nat {
    if off < BUFFER_LIMIT then off else BUFFER_START
  }

  predicate SafeWrite(m: Machine) {
    && |m.mem| >= BUFFER_LIMIT
    && m.rx.off < BUFFER_LIMIT
    && WriteIdx(m.mem) + 1 < BUFFER_LIMIT
  }

  /** Back to preamble detection; prev is the last raw bit, or 0. */
  function Hunt(rx: Rx, prev: nat): Rx {
    rx.(mode := Hunting, symbols := 1, preambles := 0, prev := prev)
  }

  function PreambleStep(rx: Rx, bit: nat): Rx {
    var good := if rx.symbols % 2 == 0 then bit > rx.prev else rx.prev > bit;
    var s := if good then rx.symbols + 1 else 1;
    var p := if good then rx.preambles else 0;
    if s < 8 then rx.(symbols := s, preambles := p, prev := bit)
    else if p + 1 < PREAMBLE_LEN then rx.(symbols := 0, preambles := p + 1, prev := bit)
    else rx.(symbols := 0, preambles := p + 1, prev := bit, cnt := 7, val := 0, mode := FirstBit, phase := Delimiter)
  }

  /** A decoded bit d in the start-of-frame delimiter; bit is the raw bit just read. */
  function DelimiterStep(rx: Rx, d: nat, bit: nat): Rx {
    if (Shr(SFD, rx.cnt) + d) % 2 == 1 then Hunt(rx, bit)
    else if rx.cnt == 0 then rx.(mode := FirstBit, phase := Length, cnt := 15, val := 0)
    else rx.(mode := FirstBit, cnt := rx.cnt - 1)
  }

  function LengthStep(m: Machine, d: nat): Machine
    requires SafeWrite(m)
  {
    var v := m.rx.val + d * Pow2(m.rx.cnt);
    if m.rx.cnt > 0 then m.(rx := m.rx.(mode := FirstBit, cnt := m.rx.cnt - 1, val := v))
    else if v != PAYLOAD_LEN then m.(rx := Hunt(m.rx.(val := v), 0))
    else
      var at := WriteIdx(m.mem);
      Machine(m.rx.(mode := FirstBit, phase := Body, cnt := 7, val := v + OTHER_PACKET_CONTENT_BYTE,
                    off := Wrap(at + 2), ch := 0, got := 0),
              StoreHalf(m.mem, at, v))
  }

  function BodyStep(m: Machine, d: nat): Machine
    requires SafeWrite(m)
  {
    var c := m.rx.ch + d * Pow2(m.rx.cnt);
    if m.rx.cnt > 0 then m.(rx := m.rx.(mode := FirstBit, cnt := m.rx.cnt - 1, ch := c))
    else
      var rx := m.rx.(off := Wrap(m.rx.off + 1), got := m.rx.got + 1);
      var mem := m.mem[m.rx.off := c % 256];
      if rx.val <= rx.got then Machine(rx.(ch := c, full := true), mem)
      else Machine(rx.(mode := FirstBit, cnt := 7, ch := 0), mem)
  }

  /** One raw bit. A pair of equal bits aborts the frame before the body and counts by its
      first bit inside it. */
  function RxBit(m: Machine, bit: nat): Machine
    requires !m.rx.full && SafeWrite(m)
  {
    match m.rx.mode
    case Hunting => m.(rx := PreambleStep(m.rx, bit))
    case FirstBit => m.(rx := m.rx.(first := bit, mode := SecondBit))
    case SecondBit =>
      if bit == m.rx.first && m.rx.phase != Body then m.(rx := Hunt(m.rx, bit))
      else
        var d := if bit > m.rx.first then 1 else if m.rx.first > bit then 0 else if m.rx.first > 0 then 0 else 1;
        match m.rx.phase
        case Delimiter => m.(rx := DelimiterStep(m.rx, d, bit))
        case Length => LengthStep(m, d)
        case Body => BodyStep(m, d)
  }

  /** The end of FINAL: the write index moves past the frame, and the detector starts again. */
  function Published(m: Machine): Machine
    requires |m.mem| >= BUFFER_LIMIT
  {
    Machine(Hunt(m.rx.(full := false), 0), StoreHalf(m.mem, 0, m.rx.off))
  }

  /** One pass of the FINAL loop: publish the frame unless the ring would become full. */
  function RxFinal(m: Machine): Machine
    requires m.rx.full && |m.mem| >= BUFFER_LIMIT
  {
    if ReadIdx(m.mem) == m.rx.off then m else Published(m)
  }

  // ---------- runs over raw bits within one frame ----------

  /** Feeding bits until they run out or the frame is complete. */
  ghost predicate Feeds(m: Machine, bits: seq<nat>, m': Machine)
    decreases |bits|
  {
    if |bits| == 0 then m' == m
    else !m.rx.full && SafeWrite(m) && Feeds(RxBit(m, bits[0]), bits[1..], m')
  }

  lemma {:induction false} FeedsConcat(m: Machine, a: seq<nat>, b: seq<nat>, k: Machine, m': Machine)
    requires Feeds(m, a, k) && Feeds(k, b, m')
    ensures Feeds(m, a + b, m')
    decreases |a|
  {
    hide RxBit;
    if |a| == 0 {
      assert a + b == b;
    } else {
      FeedsConcat(RxBit(m, a[0]), a[1..], b, k, m');
      assert (a + b)[1..] == a[1..] + b;
    }
  }

  lemma FeedsOne(m: Machine, bit: nat, m': Machine)
    requires !m.rx.full && SafeWrite(m) && m' == RxBit(m, bit)
    ensures Feeds(m, [bit], m')
  {
    hide RxBit;
    assert [bit][1..] == [];
    assert Feeds(m', [], m');
  }

  lemma FeedsTwo(m: Machine, a: nat, b: nat, m': Machine)
    requires !m.rx.full && SafeWrite(m) && !RxBit(m, a).rx.full && SafeWrite(RxBit(m, a))
    requires m' == RxBit(RxBit(m, a), b)
    ensures Feeds(m, [a, b], m')
  {
    hide RxBit;
    FeedsOne(m, a, RxBit(m, a));
    FeedsOne(RxBit(m, a), b, m');
    FeedsConcat(m, [a], [b], RxBit(m, a), m');
    assert [a] + [b] == [a, b];
  }

  /** The detector has just been reset, or has seen only highs since. */
  ghost predicate Synced(rx: Rx) {
    !rx.full && rx.mode == Hunting && rx.symbols == 1 && rx.preambles == 0 && rx.prev <= 1
  }

  /** Registers as the program leaves them: raw bits are bits, a preamble symbol count is below eight, and a length is even
      until its last bit. */
  ghost predicate Plausible(rx: Rx) {
    rx.prev <= 1 && (rx.mode == SecondBit ==> rx.first <= 1) && rx.symbols < 8 && (rx.mode != Hunting && rx.phase == Length ==> rx.val % 2 == 0)
  }

  lemma PlausibleKept(m: Machine, bit: nat)
    requires !m.rx.full && SafeWrite(m) && Plausible(m.rx) && bit <= 1
    ensures Plausible(RxBit(m, bit).rx)
  {
    hide StoreHalf, Le16;
    var p := Pow2(m.rx.cnt);
    assert m.rx.cnt > 0 ==> p == 2 * Pow2(m.rx.cnt - 1);
  }

  /** A high bit before the body: whether it completes a pair, and what the pair then does. */
  lemma HighBit(m: Machine)
    requires !m.rx.full && SafeWrite(m) && Plausible(m.rx) && (m.rx.mode == Hunting || m.rx.phase != Body)
    ensures var k := RxBit(m, 1);
      && k.mem == m.mem && !k.rx.full && SafeWrite(k) && Plausible(k.rx) && (k.rx.mode == Hunting || k.rx.phase != Body)
      && (m.rx.mode == Hunting ==> k.rx.mode == Hunting && k.rx.prev == 1 && (m.rx.prev == 1 || m.rx.symbols == 1 ==> Synced(k.rx)))
      && (m.rx.mode == SecondBit ==> if m.rx.first == 1 then Synced(k.rx) else Synced(k.rx) || k.rx.mode == FirstBit)
      && (m.rx.mode == FirstBit ==> k.rx.mode == SecondBit && k.rx.first == 1)
  {
    hide StoreHalf, Le16, Shr;
    PlausibleKept(m, 1);
  }

  /** Four high bits bring the receiver from any state before the body to the synchronised one; memory stays. */
  lemma FourHighs(m: Machine) returns (m': Machine)
    requires !m.rx.full && SafeWrite(m) && Plausible(m.rx) && (m.rx.mode == Hunting || m.rx.phase != Body)
    ensures Feeds(m, [1, 1, 1, 1], m') && Synced(m'.rx) && m'.mem == m.mem && SafeWrite(m')
  {
    hide RxBit, Feeds, SafeWrite, Plausible;
    HighBit(m);
    var a := RxBit(m, 1);
    HighBit(a);
    var b := RxBit(a, 1);
    HighBit(b);
    var c := RxBit(b, 1);
    HighBit(c);
    m' := RxBit(c, 1);
    FeedsTwo(m, 1, 1, b);
    FeedsTwo(b, 1, 1, m');
    FeedsConcat(m, [1, 1], [1, 1], b, m');
    assert [1, 1] + [1, 1] == [1, 1, 1, 1];
  }

  /** Highs between frames leave a synchronised detector synchronised. */
  lemma {:induction false} IdleHighs(m: Machine, n: nat) returns (m': Machine)
    requires SafeWrite(m) && Synced(m.rx)
    ensures Feeds(m, seq(n, _ => 1), m') && Synced(m'.rx) && m'.mem == m.mem && SafeWrite(m')
    decreases n
  {
    if n == 0 {
      m' := m;
    } else {
      var k := m.(rx := m.rx.(prev := 1));
      assert RxBit(m, 1) == k;
      FeedsOne(m, 1, k);
      m' := IdleHighs(k, n - 1);
      FeedsConcat(m, [1], seq(n - 1, _ => 1), k, m');
      assert seq(n, _ => 1) == [1] + seq(n - 1, _ => 1);
    }
  }

  // ---------- what the detector takes for a preamble ----------

  /** The last n raw bits alternate, beginning with a high. */
  ghost predicate EndsAlternating(h: seq<nat>, n: nat) {
    n <= |h| && forall j :: |h| - n <= j < |h| ==> h[j] == (j - (|h| - n) + 1) % 2
  }

  lemma LastOfRun(h: seq<nat>, n: nat)
    requires EndsAlternating(h, n) && n > 0
    ensures h[|h| - 1] == n % 2
  {
  }

  lemma EndsAlternatingNext(h: seq<nat>, b: nat, n: nat)
    requires n > 0
    ensures EndsAlternating(h + [b], n) <==> EndsAlternating(h, n - 1) && b == n % 2
  {
    var g := h + [b];
    assert |g| - n == |h| - (n - 1);
    if EndsAlternating(g, n) {
      LastOfRun(g, n);
      forall j | |h| - (n - 1) <= j < |h| ensures h[j] == (j - (|h| - (n - 1)) + 1) % 2 {
        assert g[j] == h[j];
      }
    }
  }

  /** Good symbols counted so far; a low after a reset counts for nothing. */
  ghost function Counted(rx: Rx): nat {
    if rx.preambles == 0 && rx.symbols == 1 && rx.prev == 0 then 0 else 8 * rx.preambles + rx.symbols
  }

  /** After the raw bits h the hunting detector has counted the longest run at their end, and it is not yet a preamble. */
  ghost predicate Hunts(rx: Rx, h: seq<nat>) {
    && rx.mode == Hunting && !rx.full && rx.symbols < 8 && |h| > 0 && rx.prev == h[|h| - 1] <= 1
    && (rx.symbols == 0 ==> rx.preambles > 0)
    && Counted(rx) < 24 && EndsAlternating(h, Counted(rx))
    && forall n: nat :: n > Counted(rx) ==> !EndsAlternating(h, n)
  }

  lemma NewRun(h: seq<nat>, b: nat, c: nat)
    requires b <= 1 && b != (c + 1) % 2 && EndsAlternating(h, c) && (forall n: nat :: n > c ==> !EndsAlternating(h, n))
    ensures EndsAlternating(h + [b], b) && forall n: nat :: n > b ==> !EndsAlternating(h + [b], n)
  {
    forall n: nat | n > b ensures !EndsAlternating(h + [b], n) {
      EndsAlternatingNext(h, b, n);
      if EndsAlternating(h, n - 1) && b == n % 2 && n > 1 && c > 0 {
        LastOfRun(h, n - 1);
        LastOfRun(h, c);
      }
    }
  }

  /** The next bit completes a preamble if and only if the last 24 raw bits are three alternating bytes. */
  lemma HuntStep(rx: Rx, h: seq<nat>, b: nat)
    requires Hunts(rx, h) && b <= 1
    ensures var k := PreambleStep(rx, b);
      if EndsAlternating(h + [b], 24) then k.mode == FirstBit && k.phase == Delimiter && k.cnt == 7 && k.val == 0
      else Hunts(k, h + [b])
  {
    hide EndsAlternating, PreambleStep, Counted;
    var c, k := Counted(rx), PreambleStep(rx, b);
    if c > 0 {
      LastOfRun(h, c);
    }
    if b == (c + 1) % 2 {
      GoodSymbol(rx, b);
      EndsAlternatingNext(h, b, c + 1);
      forall n: nat | n > c + 1 ensures !EndsAlternating(h + [b], n) {
        EndsAlternatingNext(h, b, n);
      }
    } else {
      BadSymbol(rx, b);
      NewRun(h, b, c);
    }
    assert (h + [b])[|h|] == b;
  }

  lemma GoodSymbol(rx: Rx, b: nat)
    requires rx.mode == Hunting && rx.symbols < 8 && rx.prev <= 1 && Counted(rx) < 24 && (rx.symbols == 0 ==> rx.preambles > 0)
    requires b == (Counted(rx) + 1) % 2 && (Counted(rx) > 0 ==> rx.prev == Counted(rx) % 2)
    ensures var k := PreambleStep(rx, b);
      && k.prev == b && k.full == rx.full
      && (Counted(rx) == 23 ==> k.mode == FirstBit && k.phase == Delimiter && k.cnt == 7 && k.val == 0)
      && (Counted(rx) < 23 ==> k.mode == Hunting && Counted(k) == Counted(rx) + 1 && k.symbols < 8 && (k.symbols == 0 ==> k.preambles > 0))
  {
  }

  /** From a synchronised detector, over any raw bits: it goes on hunting as long as no 24 bits in a row, its last raw bit before them included, are a
      preamble, and leaves at the bit that completes one. */
  lemma {:induction false} PreambleExact(m: Machine, bits: seq<nat>) returns (m': Machine)
    requires SafeWrite(m) && Synced(m.rx) && (forall i :: 0 <= i < |bits| ==> bits[i] <= 1)
    requires forall n: nat :: n < |bits| ==> !EndsAlternating([m.rx.prev] + bits[..n], 24)
    ensures Feeds(m, bits, m') && m'.mem == m.mem && m'.rx.off == m.rx.off && SafeWrite(m')
    ensures if EndsAlternating([m.rx.prev] + bits, 24) then m'.rx.mode == FirstBit && m'.rx.phase == Delimiter && m'.rx.cnt == 7 && m'.rx.val == 0 && !m'.rx.full
            else Hunts(m'.rx, [m.rx.prev] + bits)
    decreases |bits|
  {
    hide EndsAlternating, PreambleStep, Counted, Feeds, SafeWrite;
    var n := |bits|;
    if n == 0 {
      m' := m;
      FirstHunt(m);
      assert [m.rx.prev] + bits == [m.rx.prev];
      NothingFed(m, bits);
    } else {
      var front, b := bits[..n - 1], bits[n - 1];
      forall k: nat | k < |front| ensures !EndsAlternating([m.rx.prev] + front[..k], 24) {
        assert front[..k] == bits[..k];
      }
      var x := PreambleExact(m, front);
      var h := [m.rx.prev] + front;
      assert h + [b] == [m.rx.prev] + bits;
      HuntStep(x.rx, h, b);
      m' := x.(rx := PreambleStep(x.rx, b));
      HuntBit(x, b);
      FeedsOne(x, b, m');
      FeedsConcat(m, front, [b], x, m');
      assert front + [b] == bits;
    }
  }

  lemma NothingFed(m: Machine, bits: seq<nat>)
    requires bits == []
    ensures Feeds(m, bits, m)
  {
  }

  lemma FirstHunt(m: Machine)
    requires Synced(m.rx)
    ensures Hunts(m.rx, [m.rx.prev]) && !EndsAlternating([m.rx.prev], 24)
  {
  }

  lemma HuntBit(x: Machine, b: nat)
    requires SafeWrite(x) && x.rx.mode == Hunting && !x.rx.full
    ensures var k := x.(rx := PreambleStep(x.rx, b)); RxBit(x, b) == k && SafeWrite(k) && k.rx.off == x.rx.off && !k.rx.full
  {
  }

  lemma BadSymbol(rx: Rx, b: nat)
    requires rx.mode == Hunting && rx.symbols < 8 && rx.prev <= 1 && b <= 1 && Counted(rx) < 24 && (rx.symbols == 0 ==> rx.preambles > 0)
    requires b != (Counted(rx) + 1) % 2 && (Counted(rx) > 0 ==> rx.prev == Counted(rx) % 2)
    ensures var k := PreambleStep(rx, b); k.mode == Hunting && k.prev == b && k.full == rx.full && k.symbols == 1 && k.preambles == 0 && Counted(k) == b
  {
  }

  /** From k good symbols the rest of the alternating byte completes it. */
  lemma {:induction false} RestOfPreamble(m: Machine, k: nat) returns (m': Machine)
    requires SafeWrite(m) && !m.rx.full && m.rx.mode == Hunting && m.rx.symbols == k < 8 && m.rx.prev == k % 2
    requires m.rx.preambles < PREAMBLE_LEN
    ensures Feeds(m, Alternating(k), m') && m'.mem == m.mem && m'.rx.off == m.rx.off && !m'.rx.full
    ensures m'.rx.preambles == m.rx.preambles + 1 && m'.rx.symbols == 0 && m'.rx.prev == 0
    ensures m.rx.preambles + 1 < PREAMBLE_LEN ==> m'.rx.mode == Hunting
    ensures m.rx.preambles + 1 == PREAMBLE_LEN ==>
              m'.rx.mode == FirstBit && m'.rx.phase == Delimiter && m'.rx.cnt == 7 && m'.rx.val == 0
    decreases 8 - k
  {
    var b := (k + 1) % 2;
    var n := m.(rx := PreambleStep(m.rx, b));
    FeedsOne(m, b, n);
    if k == 7 {
      m' := n;
      assert Alternating(8) == [];
      assert Alternating(7) == [b] + Alternating(8) == [b];
    } else {
      m' := RestOfPreamble(n, k + 1);
      FeedsConcat(m, [b], Alternating(k + 1), n, m');
    }
  }

  /** The whole preamble from a synchronised detector. */
  lemma Preamble(m: Machine) returns (m': Machine)
    requires SafeWrite(m) && Synced(m.rx)
    ensures Feeds(m, Alternating(0) + Alternating(0) + Alternating(0), m') && m'.mem == m.mem && !m'.rx.full
    ensures m'.rx.off == m.rx.off
    ensures m'.rx.mode == FirstBit && m'.rx.phase == Delimiter && m'.rx.cnt == 7
  {
    hide RxBit, Feeds, SafeWrite, Alternating;
    var a := FirstHigh(m);
    var b := RestOfPreamble(a, 1);
    FeedsConcat(m, [1], Alternating(1), a, b);
    assert [1] + Alternating(1) == Alternating(0) by { AlternatingStart(); }
    SameMemorySafe(m, b);
    var c := RestOfPreamble(b, 0);
    FeedsConcat(m, Alternating(0), Alternating(0), b, c);
    SameMemorySafe(m, c);
    m' := RestOfPreamble(c, 0);
    FeedsConcat(m, Alternating(0) + Alternating(0), Alternating(0), c, m');
  }

  lemma AlternatingStart()
    ensures Alternating(0) == [1] + Alternating(1)
  {
  }

  lemma SameMemorySafe(m: Machine, n: Machine)
    requires SafeWrite(m) && n.mem == m.mem && n.rx.off == m.rx.off
    ensures SafeWrite(n)
  {
  }

  lemma FirstHigh(m: Machine) returns (a: Machine)
    requires SafeWrite(m) && Synced(m.rx)
    ensures Feeds(m, [1], a) && SafeWrite(a) && a.mem == m.mem && !a.rx.full
    ensures a.rx.mode == Hunting && a.rx.symbols == 1 && a.rx.prev == 1 && a.rx.preambles == 0 && a.rx.off == m.rx.off
  {
    a := m.(rx := PreambleStep(m.rx, 1));
    FeedsOne(m, 1, a);
  }

  // ---------- coded bits ----------

  /** A well-formed pair delivers its bit to the current phase. */
  lemma GoodPair(m: Machine, d: nat) returns (m': Machine)
    requires SafeWrite(m) && !m.rx.full && m.rx.mode == FirstBit && d <= 1
    ensures Feeds(m, Pair(d), m')
    ensures var k := m.(rx := m.rx.(first := Pair(d)[0], mode := SecondBit));
      SafeWrite(k) && m' == match m.rx.phase
        case Delimiter => k.(rx := DelimiterStep(k.rx, d, Pair(d)[1]))
        case Length => LengthStep(k, d)
        case Body => BodyStep(k, d)
  {
    var a, b := Pair(d)[0], Pair(d)[1];
    m' := RxBit(RxBit(m, a), b);
    FeedsTwo(m, a, b, m');
  }

  /** The delimiter is recognised bit by bit. */
  lemma {:induction false} DelimiterRun(m: Machine, n: nat) returns (m': Machine)
    requires SafeWrite(m) && !m.rx.full && m.rx.mode == FirstBit && m.rx.phase == Delimiter && m.rx.cnt + 1 == n
    ensures Feeds(m, CodeBits(SFD, n), m') && m'.mem == m.mem && !m'.rx.full && m'.rx.off == m.rx.off
    ensures m'.rx.mode == FirstBit && m'.rx.phase == Length && m'.rx.cnt == 15 && m'.rx.val == 0
    decreases n
  {
    hide RxBit, Feeds, Shr, LengthStep, BodyStep;
    var d := Shr(SFD, n - 1) % 2;
    var k := GoodPair(m, d);
    if n == 1 {
      m' := k;
      assert CodeBits(SFD, 0) == [];
      assert CodeBits(SFD, 1) == Pair(d) + [] == Pair(d);
    } else {
      m' := DelimiterRun(k, n - 1);
      FeedsConcat(m, Pair(d), CodeBits(SFD, n - 1), k, m');
    }
  }

  /** The length accumulates from the top bit down. */
  lemma {:induction false} LengthRun(m: Machine, v: nat, n: nat) returns (m': Machine)
    requires SafeWrite(m) && !m.rx.full && m.rx.mode == FirstBit && m.rx.phase == Length && m.rx.cnt + 1 == n
    requires m.rx.val + Low(v, n) == PAYLOAD_LEN
    ensures Feeds(m, CodeBits(v, n), m') && !m'.rx.full
    ensures m'.mem == StoreHalf(m.mem, WriteIdx(m.mem), PAYLOAD_LEN)
    ensures m'.rx.mode == FirstBit && m'.rx.phase == Body && m'.rx.cnt == 7 && m'.rx.ch == 0 && m'.rx.got == 0
    ensures m'.rx.val == BODY_LEN && m'.rx.off == Wrap(WriteIdx(m.mem) + 2)
    decreases n
  {
    hide RxBit, Feeds, Shr, Low, DelimiterStep, BodyStep, Pow2, StoreHalf;
    var d := Shr(v, n - 1) % 2;
    var k := GoodPair(m, d);
    LowTop(v, n);
    if n == 1 {
      LowNone(v);
      m' := k;
      assert CodeBits(v, 0) == [];
      assert CodeBits(v, 1) == Pair(d) + [] == Pair(d);
    } else {
      SameMemorySafe(m, k);
      m' := LengthRun(k, v, n - 1);
      FeedsConcat(m, Pair(d), CodeBits(v, n - 1), k, m');
    }
  }

  lemma LowNone(v: nat)
    ensures Low(v, 0) == 0
  {
  }

  // ---------- what is refused before the body ----------

  /** A well-coded length other than 74 sends the receiver back to hunting; nothing is written. */
  lemma {:induction false} LengthRefused(m: Machine, v: nat, n: nat) returns (m': Machine)
    requires SafeWrite(m) && !m.rx.full && m.rx.mode == FirstBit && m.rx.phase == Length && m.rx.cnt + 1 == n
    requires m.rx.val + Low(v, n) != PAYLOAD_LEN
    ensures Feeds(m, CodeBits(v, n), m') && m'.mem == m.mem && Synced(m'.rx) && m'.rx.prev == 0
    decreases n
  {
    hide RxBit, Feeds, Shr, Low, DelimiterStep, BodyStep, Pow2, StoreHalf;
    var d := Shr(v, n - 1) % 2;
    var k := GoodPair(m, d);
    LowTop(v, n);
    if n == 1 {
      LowNone(v);
      m' := k;
      assert CodeBits(v, 0) == [];
      assert CodeBits(v, 1) == Pair(d) + [] == Pair(d);
    } else {
      SameMemorySafe(m, k);
      m' := LengthRefused(k, v, n - 1);
      FeedsConcat(m, Pair(d), CodeBits(v, n - 1), k, m');
    }
  }

  /** A byte that agrees with the delimiter above bit k and differs there is refused at that bit. */
  lemma {:induction false} DelimiterRefused(m: Machine, v: nat, n: nat, k: nat) returns (m': Machine)
    requires SafeWrite(m) && !m.rx.full && m.rx.mode == FirstBit && m.rx.phase == Delimiter && m.rx.cnt + 1 == n && k < n
    requires forall j :: k < j < n ==> Shr(v, j) % 2 == Shr(SFD, j) % 2
    requires Shr(v, k) % 2 != Shr(SFD, k) % 2
    ensures Feeds(m, CodeBits(v, n)[..2 * (n - k)], m') && m'.mem == m.mem && Synced(m'.rx) && m'.rx.prev == Shr(v, k) % 2
    decreases n
  {
    hide RxBit, Feeds, Shr, LengthStep, BodyStep;
    var d := Shr(v, n - 1) % 2;
    var next := GoodPair(m, d);
    var rest := CodeBits(v, n - 1);
    assert CodeBits(v, n) == Pair(d) + rest;
    if n == k + 1 {
      m' := next;
      assert CodeBits(v, n)[..2] == Pair(d);
    } else {
      m' := DelimiterRefused(next, v, n - 1, k);
      var part := rest[..2 * (n - 1 - k)];
      assert CodeBits(v, n)[..2 * (n - k)] == Pair(d) + part;
      FeedsConcat(m, Pair(d), part, next, m');
    }
  }

  /** Two equal raw bits before the body are refused as well. */
  lemma EqualPairRefused(m: Machine, a: nat) returns (m': Machine)
    requires SafeWrite(m) && !m.rx.full && m.rx.mode == FirstBit && m.rx.phase != Body && a <= 1
    ensures Feeds(m, [a, a], m') && m'.mem == m.mem && Synced(m'.rx) && m'.rx.prev == a
  {
    m' := RxBit(RxBit(m, a), a);
    FeedsTwo(m, a, a, m');
  }

  // ---------- the body, whatever the raw bits ----------

  /** Any two raw bits in the body deliver one bit, decided by the first. */
  lemma AnyPair(m: Machine, a: nat, b: nat) returns (m': Machine)
    requires SafeWrite(m) && !m.rx.full && m.rx.mode == FirstBit && m.rx.phase == Body && a <= 1 && b <= 1
    ensures Feeds(m, [a, b], m')
    ensures var k := m.(rx := m.rx.(first := a, mode := SecondBit)); SafeWrite(k) && m' == BodyStep(k, 1 - a)
  {
    m' := RxBit(RxBit(m, a), b);
    FeedsTwo(m, a, b, m');
  }

  /** In step: expecting the first bit of a fresh body byte. */
  ghost predicate AtByte(rx: Rx) {
    !rx.full && rx.mode == FirstBit && rx.phase == Body && rx.cnt == 7 && rx.ch == 0 && rx.val == BODY_LEN
  }

  lemma {:induction false} RawByte(m: Machine, raw: seq<nat>, n: nat) returns (m': Machine)
    requires SafeWrite(m) && !m.rx.full && m.rx.mode == FirstBit && m.rx.phase == Body && m.rx.cnt + 1 == n
    requires |raw| == 2 * n && IsBits(raw) && m.rx.val == BODY_LEN && m.rx.got < BODY_LEN
    ensures Feeds(m, raw, m')
    ensures m'.mem == m.mem[m.rx.off := (m.rx.ch + RawBits(raw, n)) % 256]
    ensures m'.rx.off == Wrap(m.rx.off + 1) && m'.rx.got == m.rx.got + 1 && m'.rx.val == BODY_LEN
    ensures m'.rx.got == BODY_LEN ==> m'.rx.full
    ensures m'.rx.got < BODY_LEN ==> AtByte(m'.rx)
    decreases n
  {
    hide RxBit, Feeds, DelimiterStep, LengthStep, Pow2;
    var k := AnyPair(m, raw[0], raw[1]);
    assert raw == [raw[0], raw[1]] + raw[2..];
    if n == 1 {
      assert raw[2..] == [];
      assert raw == [raw[0], raw[1]];
      m' := k;
    } else {
      SameMemorySafe(m, k);
      m' := RawByte(k, raw[2..], n - 1);
      FeedsConcat(m, [raw[0], raw[1]], raw[2..], k, m');
    }
  }

  /** bytes laid over mem from index at. */
  ghost function Overwrite(mem: seq<nat>, at: nat, bytes: seq<nat>): (r: seq<nat>)
    requires at + |bytes| <= |mem|
    ensures |r| == |mem|
  {
    mem[..at] + bytes + mem[at + |bytes|..]
  }

  lemma OverwriteStep(mem: seq<nat>, at: nat, b: nat, rest: seq<nat>)
    requires at + 1 + |rest| <= |mem|
    ensures Overwrite(mem[at := b], at + 1, rest) == Overwrite(mem, at, [b] + rest)
  {
  }

  lemma StoreAboveIndices(m: Machine, at: nat, b: nat)
    requires SafeWrite(m) && 4 <= at < BUFFER_LIMIT
    ensures WriteIdx(m.mem[at := b]) == WriteIdx(m.mem) && ReadIdx(m.mem[at := b]) == ReadIdx(m.mem)
  {
  }

  /** The rest of a body, whatever its raw bits: every stretch of 16 becomes one byte. */
  lemma {:induction false} RawBody(m: Machine, raw: seq<nat>, n: nat) returns (m': Machine)
    requires SafeWrite(m) && AtByte(m.rx) && n > 0 && m.rx.got + n == BODY_LEN
    requires |raw| == 16 * n && IsBits(raw) && 4 <= m.rx.off && m.rx.off + n <= BUFFER_LIMIT
    ensures Feeds(m, raw, m') && m'.rx.full && m'.rx.got == BODY_LEN
    ensures m'.mem == Overwrite(m.mem, m.rx.off, RawBytes(raw, n))
    ensures m'.rx.off == Wrap(m.rx.off + n)
    decreases n
  {
    hide Feeds, RawBits, RawBytes, Overwrite;
    var byte := raw[..16];
    var k := RawByte(m, byte, 8);
    RawBitsRange(byte, 8) by { ByteSize(); }
    RawBytesFirst(raw, n);
    assert raw == byte + raw[16..];
    if n == 1 {
      assert raw[16..] == [];
      assert raw == byte;
      m' := k;
      RawBytesNone(raw[16..]);
      OverwriteOne(m.mem, m.rx.off, RawBits(byte, 8));
    } else {
      StoreSafe(m, k, RawBits(byte, 8));
      m' := RawBody(k, raw[16..], n - 1);
      FeedsConcat(m, byte, raw[16..], k, m');
      OverwriteStep(m.mem, m.rx.off, RawBits(byte, 8), RawBytes(raw[16..], n - 1));
    }
  }

  lemma RawBytesFirst(raw: seq<nat>, n: nat)
    requires n > 0 && |raw| == 16 * n && IsBits(raw)
    ensures RawBytes(raw, n) == [RawBits(raw[..16], 8)] + RawBytes(raw[16..], n - 1)
    ensures RawBits(raw[..16], 8) < 256
  {
    hide RawBits, Pow2;
    RawBitsRange(raw[..16], 8);
    ByteSize();
  }

  lemma RawBytesNone(raw: seq<nat>)
    requires |raw| == 0
    ensures RawBytes(raw, 0) == []
  {
  }

  lemma OverwriteOne(mem: seq<nat>, at: nat, b: nat)
    requires at < |mem|
    ensures Overwrite(mem, at, [b]) == mem[at := b]
    ensures Overwrite(mem, at, [b] + []) == mem[at := b]
  {
    assert [b] + [] == [b];
  }

  lemma StoreSafe(m: Machine, k: Machine, b: nat)
    requires SafeWrite(m) && 4 <= m.rx.off && m.rx.off + 1 < BUFFER_LIMIT
    requires k.mem == m.mem[m.rx.off := b] && k.rx.off == Wrap(m.rx.off + 1)
    ensures SafeWrite(k)
  {
    StoreAboveIndices(m, m.rx.off, b);
  }

  // ---------- a whole frame ----------

  /** A slot of the ring starts here. */
  predicate SlotStart(base: nat) {
    BUFFER_START <= base && base + SLOT <= BUFFER_LIMIT
  }

  /** An opening takes a synchronised receiver into the body of a frame at the write index. */
  lemma OpeningReceived(m: Machine) returns (c: Machine)
    requires SafeWrite(m) && Synced(m.rx)
    ensures Feeds(m, Opening(), c) && AtByte(c.rx) && c.rx.got == 0
    ensures c.mem == StoreHalf(m.mem, WriteIdx(m.mem), PAYLOAD_LEN) && c.rx.off == Wrap(WriteIdx(m.mem) + 2)
  {
    hide Feeds, Alternating, CodeBits, Low, StoreHalf;
    var pre := Alternating(0) + Alternating(0) + Alternating(0);
    var a := Preamble(m);
    SameMemorySafe(m, a);
    var b := DelimiterRun(a, 8);
    SameMemorySafe(a, b);
    FeedsConcat(m, pre, CodeBits(SFD, 8), a, b);
    LowSmall(PAYLOAD_LEN, 16) by { WideEnough(); }
    c := LengthRun(b, PAYLOAD_LEN, 16);
    FeedsConcat(m, pre + CodeBits(SFD, 8), CodeBits(PAYLOAD_LEN, 16), b, c);
  }

  /** Preamble, delimiter and length as sent, then any raw bits: the body's bytes land behind the
      length field at the write index, and the receiver stands ready to publish. */
  lemma FrameReceived(m: Machine, raw: seq<nat>) returns (m': Machine)
    requires SafeWrite(m) && Synced(m.rx) && SlotStart(WriteIdx(m.mem))
    requires |raw| == 16 * BODY_LEN && IsBits(raw)
    ensures Feeds(m, Opening() + raw, m')
    ensures m'.mem == Overwrite(m.mem, WriteIdx(m.mem), [PAYLOAD_LEN, 0] + RawBytes(raw, BODY_LEN))
    ensures m'.rx.full && m'.rx.off == Wrap(WriteIdx(m.mem) + SLOT)
  {
    hide Feeds, Opening, RawBytes, Overwrite, StoreHalf;
    var base := WriteIdx(m.mem);
    var c := OpeningReceived(m);
    LengthStored(m, c);
    m' := RawBody(c, raw, BODY_LEN);
    FeedsConcat(m, Opening(), raw, c, m');
    OverwriteTwo(m.mem, base, RawBytes(raw, BODY_LEN));
  }

  lemma WideEnough()
    ensures PAYLOAD_LEN < Pow2(16)
  {
    assert Pow2(8) == 256 by { ByteSize(); }
    assert Pow2(10) == 1024 && Pow2(12) == 4096;
    assert Pow2(14) == 16384 && Pow2(16) == 65536;
  }

  lemma LengthStored(m: Machine, c: Machine)
    requires SafeWrite(m) && SlotStart(WriteIdx(m.mem))
    requires c.mem == StoreHalf(m.mem, WriteIdx(m.mem), PAYLOAD_LEN) && c.rx.off == Wrap(WriteIdx(m.mem) + 2)
    ensures SafeWrite(c) && c.rx.off == WriteIdx(m.mem) + 2 && WriteIdx(c.mem) == WriteIdx(m.mem)
  {
  }

  lemma OverwriteTwo(mem: seq<nat>, at: nat, bytes: seq<nat>)
    requires at + 2 + |bytes| <= |mem|
    ensures Overwrite(StoreHalf(mem, at, PAYLOAD_LEN), at + 2, bytes) == Overwrite(mem, at, [PAYLOAD_LEN, 0] + bytes)
  {
    var r := StoreHalf(mem, at, PAYLOAD_LEN);
    assert r[at] == PAYLOAD_LEN && r[at + 1] == 0;
  }

  /** A correctly sent frame is stored byte for byte. */
  lemma FrameRoundTrip(m: Machine, body: seq<nat>) returns (m': Machine)
    requires SafeWrite(m) && Synced(m.rx) && SlotStart(WriteIdx(m.mem))
    requires |body| == BODY_LEN && IsBytes(body)
    ensures Feeds(m, FrameBits(PAYLOAD_LEN, body), m')
    ensures m'.mem == Overwrite(m.mem, WriteIdx(m.mem), [PAYLOAD_LEN, 0] + body)
    ensures m'.rx.full && m'.rx.off == Wrap(WriteIdx(m.mem) + SLOT)
  {
    hide Feeds, Alternating, CodeBits, RawBytes, Overwrite, CodeBytes;
    RawOfCodeBytes(body);
    m' := FrameReceived(m, CodeBytes(body));
  }
}
