/** The transmitter PRU's bit emitter: what GETVALUE puts on the line, sixteen bits a call. */
module TxPru {
  import opened BitXor
  import opened LinkCoding

  datatype Stage = Preamble | Sfd | DataLength | Data | PacketEnd

  /** stage r2, cnt r7, preambles r18, idx r9, len r10, total r12, sent r15, byte r16, finished r26. */
  datatype Tx = Tx(stage: Stage, cnt: nat, preambles: nat, idx: nat, len: nat, total: nat, sent: nat, byte: nat, finished: bool)

  /** Emitter and PRU memory; extra is the number of bytes sent beyond the payload length. */
  datatype Emitter = Emitter(tx: Tx, mem: seq<nat>, extra: nat)

  function Byte(mem: seq<nat>, i: nat): nat {
    if i < |mem| then mem[i] else 0
  }

  function StoreRead(mem: seq<nat>, v: nat): (r: seq<nat>)
    ensures |r| == |mem|
  {
    if |mem| >= 4 then mem[2 := v % 256][3 := v / 256 % 256] else mem
  }

  /** One pass through CHECK_STATE: the next emitter and the bits it adds, in line order. */
  function Pass(e: Emitter): (r: (Emitter, seq<nat>))
    ensures |r.1| == if e.tx.stage in {Preamble, PacketEnd} then 1 else 2
    ensures r.0.extra == e.extra && |r.0.mem| == |e.mem|
  {
    var t := e.tx;
    match t.stage
    case Preamble =>
      var bit := Shr(0xAA, t.cnt) % 2;
      var next :=
        if t.cnt > 0 then t.(cnt := t.cnt - 1)
        else if t.preambles + 1 == PREAMBLE_LEN then t.(stage := Sfd, cnt := 7, preambles := t.preambles + 1)
        else t.(cnt := 7, preambles := t.preambles + 1);
      (e.(tx := next), [bit])
    case Sfd =>
      var next :=
        if t.cnt > 0 then t.(cnt := t.cnt - 1)
        else t.(stage := DataLength, cnt := 15, len := Byte(e.mem, t.idx) + 256 * Byte(e.mem, t.idx + 1), idx := t.idx + 2);
      (e.(tx := next), Pair(Shr(SFD, t.cnt) % 2))
    case DataLength =>
      var next :=
        if t.cnt > 0 then t.(cnt := t.cnt - 1)
        else t.(stage := Data, cnt := 7, sent := 0, total := t.len + e.extra, byte := Byte(e.mem, t.idx), idx := t.idx + 1);
      (e.(tx := next), Pair(Shr(t.len, t.cnt) % 2))
    case Data =>
      var bits := Pair(Shr(t.byte, t.cnt) % 2);
      if t.cnt > 0 then (e.(tx := t.(cnt := t.cnt - 1)), bits)
      else if t.sent + 1 == t.total then
        var idx := if t.idx < BUFFER_LIMIT then t.idx else BUFFER_START;
        (e.(tx := t.(stage := PacketEnd, cnt := 3, preambles := 0, sent := t.sent + 1, idx := idx, finished := true),
            mem := StoreRead(e.mem, idx)), bits)
      else (e.(tx := t.(cnt := 7, sent := t.sent + 1, byte := Byte(e.mem, t.idx), idx := t.idx + 1)), bits)
    case PacketEnd =>
      var next := if t.cnt > 0 then t.(cnt := t.cnt - 1) else t.(stage := Preamble, cnt := 7, preambles := 0);
      (e.(tx := next), [1])
  }

  // ---------- sixteen bits, no pair split ----------

  /** Single-bit stages are entered an even number of bits before a pair begins. */
  predicate Aligned(t: Tx) {
    t.stage in {Preamble, PacketEnd} ==> t.cnt % 2 == 1
  }

  /** The emitter stops after exactly sixteen bits from here. */
  predicate Stops(t: Tx) {
    t.stage != Preamble || t.cnt % 2 == 1 || t.preambles == 0
  }

  predicate InRange(t: Tx) {
    && (t.stage == Preamble ==> t.cnt <= 7 && t.preambles < PREAMBLE_LEN)
    && (t.stage == PacketEnd ==> t.cnt <= 3)
    && (t.stage in {Sfd, Data} ==> t.cnt <= 7)
    && (t.stage == DataLength ==> t.cnt <= 15)
  }

  /** Bits left before the first pair: the rest of the preamble, or of the gap and a whole preamble. */
  function SinglesLeft(t: Tx): nat
    requires InRange(t)
  {
    match t.stage
    case Preamble => t.cnt + 1 + 8 * (2 - t.preambles)
    case PacketEnd => t.cnt + 1 + 24
    case _ => 0
  }

  lemma PassRange(e: Emitter)
    requires InRange(e.tx)
    ensures InRange(Pass(e).0.tx)
    ensures e.tx.stage in {Preamble, PacketEnd} ==> SinglesLeft(Pass(e).0.tx) == SinglesLeft(e.tx) - 1
  {
    hide Shr;
  }

  /** Whole passes from e emit exactly bits and end in next. */
  ghost predicate Emits(e: Emitter, bits: seq<nat>, next: Emitter)
    decreases |bits|
  {
    if |bits| == 0 then next == e
    else
      var r := Pass(e);
      r.1 <= bits && Emits(r.0, bits[|r.1|..], next)
  }

  lemma {:induction false} EmitsConcat(e: Emitter, a: seq<nat>, k: Emitter, b: seq<nat>, next: Emitter)
    requires Emits(e, a, k) && Emits(k, b, next)
    ensures Emits(e, a + b, next)
    decreases |a|
  {
    hide Pass;
    if |a| == 0 {
      assert a + b == b;
    } else {
      var r := Pass(e);
      EmitsConcat(r.0, a[|r.1|..], k, b, next);
      assert (a + b)[|r.1|..] == a[|r.1|..] + b;
    }
  }

  lemma EmitsOne(e: Emitter)
    ensures Emits(e, Pass(e).1, Pass(e).0)
  {
    hide Pass;
    var r := Pass(e);
    assert r.1[|r.1|..] == [];
    assert Emits(r.0, [], r.0);
  }

  /** With n bits gathered, sixteen will be hit exactly. */
  predicate OnCourse(t: Tx, n: nat)
    requires InRange(t)
  {
    && n <= 16
    && (t.stage in {Sfd, DataLength, Data} ==> n % 2 == 0)
    && (t.stage in {Preamble, PacketEnd} ==> (n + t.cnt) % 2 == 1 || n + SinglesLeft(t) >= 16)
  }

  lemma StaysOnCourse(e: Emitter, n: nat)
    requires InRange(e.tx) && OnCourse(e.tx, n) && n < 16
    ensures InRange(Pass(e).0.tx) && OnCourse(Pass(e).0.tx, n + |Pass(e).1|)
  {
    PassRange(e);
    hide Shr;
  }

  /** Parity of bits gathered and bits to go in a single-bit stage. */
  predicate Even(t: Tx, n: nat) {
    if t.stage in {Preamble, PacketEnd} then (n + t.cnt) % 2 == 1 else n % 2 == 0
  }

  lemma StaysEven(e: Emitter, n: nat)
    requires Even(e.tx, n)
    ensures Even(Pass(e).0.tx, n + |Pass(e).1|)
  {
    hide Shr;
  }

  /** GETVALUE: gathers bits until the counter reads sixteen. */
  method GetValue(e: Emitter) returns (next: Emitter, bits: seq<nat>)
    requires InRange(e.tx) && Stops(e.tx)
    ensures |bits| == 16 && Emits(e, bits, next) && InRange(next.tx)
    ensures Aligned(e.tx) ==> Aligned(next.tx)
  {
    hide Pass;
    next, bits := e, [];
    while |bits| != 16
      invariant InRange(next.tx) && OnCourse(next.tx, |bits|) && Emits(e, bits, next)
      invariant Aligned(e.tx) ==> Even(next.tx, |bits|)
      decreases 16 - |bits|
    {
      StaysOnCourse(next, |bits|);
      if Aligned(e.tx) {
        StaysEven(next, |bits|);
      }
      EmitsOne(next);
      EmitsConcat(e, bits, next, Pass(next).1, Pass(next).0);
      var r := Pass(next);
      next, bits := r.0, bits + r.1;
    }
  }

  // ---------- and otherwise it never does ----------

  /** The emitter after n passes, and the number of bits gathered by then. */
  function After(e: Emitter, n: nat): (r: (Emitter, nat)) {
    if n == 0 then (e, 0) else var r := After(e, n - 1); (Pass(r.0).0, r.1 + |Pass(r.0).1|)
  }

  /** An odd number of single bits, too few to fill the word, precedes the pairs. */
  predicate OffCourse(t: Tx, n: nat) {
    || n > 16
    || (t.stage == Preamble && t.cnt <= 7 && 1 <= t.preambles < PREAMBLE_LEN && (n + t.cnt) % 2 == 0 && n + t.cnt + 1 + 8 * (2 - t.preambles) < 16)
    || (t.stage == Sfd && t.cnt <= 7 && n % 2 == 1 && n + 2 * (t.cnt + 1) > 16)
  }

  lemma {:induction false} MissesSixteen(e: Emitter, n: nat)
    requires InRange(e.tx) && !Stops(e.tx)
    ensures OffCourse(After(e, n).0.tx, After(e, n).1)
    ensures After(e, n).1 != 16
  {
    hide Shr;
    if n > 0 {
      MissesSixteen(e, n - 1);
      StaysOffCourse(After(e, n - 1).0, After(e, n - 1).1);
    }
  }

  /** For instance one bit before the delimiter: one single bit, then pairs, so that the count passes from 15 to 17. */
  lemma OneBitBeforeDelimiter(mem: seq<nat>, extra: nat, n: nat)
    ensures After(Emitter(Tx(Preamble, 0, 2, BUFFER_START, 0, 0, 0, 0, false), mem, extra), n).1 != 16
  {
    MissesSixteen(Emitter(Tx(Preamble, 0, 2, BUFFER_START, 0, 0, 0, 0, false), mem, extra), n);
  }

  lemma StaysOffCourse(e: Emitter, n: nat)
    requires OffCourse(e.tx, n)
    ensures OffCourse(Pass(e).0.tx, n + |Pass(e).1|)
  {
    hide Shr;
  }

  // ---------- the program never gets there ----------

  /** What the program does between bits: a call of GETVALUE, a return to the start of the preamble, the index check, which loads
      the read index from memory, or a write to memory from the other side. */
  datatype Step = Call | Reset | Reload | Write(mem: seq<nat>)

  ghost predicate Steps(e: Emitter, a: Step, next: Emitter) {
    match a
    case Call => exists n: nat :: After(e, n).1 == 16 && next == After(e, n).0
    case Reset => next == e.(tx := e.tx.(stage := Preamble, cnt := 7, preambles := 0))
    case Reload => next == e.(tx := e.tx.(idx := Byte(e.mem, 2) + 256 * Byte(e.mem, 3), finished := false))
    case Write(mem) => next == e.(mem := mem)
  }

  /** From START, any sequence of steps. */
  ghost predicate Run(es: seq<Emitter>, steps: seq<Step>) {
    && |es| == |steps| + 1
    && es[0].tx.stage == Preamble && es[0].tx.cnt == 7 && es[0].tx.preambles == 0
    && forall i :: 0 <= i < |steps| ==> Steps(es[i], steps[i], es[i + 1])
  }

  lemma {:induction false} AfterEven(e: Emitter, n: nat)
    requires InRange(e.tx) && Aligned(e.tx)
    ensures InRange(After(e, n).0.tx) && Even(After(e, n).0.tx, After(e, n).1)
  {
    hide Pass;
    if n > 0 {
      AfterEven(e, n - 1);
      PassRange(After(e, n - 1).0);
      StaysEven(After(e, n - 1).0, After(e, n - 1).1);
    }
  }

  /** The passes of one call: from k passes and the bits they gave to the sixteenth bit. */
  lemma {:induction false} Gathers(e: Emitter, k: nat, bits: seq<nat>) returns (n: nat, word: seq<nat>)
    requires After(e, k).1 == |bits| && Emits(e, bits, After(e, k).0)
    requires InRange(After(e, k).0.tx) && OnCourse(After(e, k).0.tx, |bits|)
    ensures After(e, n).1 == |word| == 16 && Emits(e, word, After(e, n).0)
    decreases 16 - |bits|
  {
    hide Pass, Emits;
    if |bits| == 16 {
      n, word := k, bits;
    } else {
      var cur := After(e, k).0;
      StaysOnCourse(cur, |bits|);
      EmitsOne(cur);
      EmitsConcat(e, bits, cur, Pass(cur).1, Pass(cur).0);
      n, word := Gathers(e, k + 1, bits + Pass(cur).1);
    }
  }

  /** A call ends if and only if the state is one of those. */
  lemma CallEnds(e: Emitter)
    requires InRange(e.tx)
    ensures (exists n: nat :: After(e, n).1 == 16) <==> Stops(e.tx)
  {
    hide Pass;
    if Stops(e.tx) {
      var n, word := Gathers(e, 0, []);
    } else {
      forall n: nat ensures After(e, n).1 != 16 {
        MissesSixteen(e, n);
      }
    }
  }

  lemma {:induction false} RunAligned(es: seq<Emitter>, steps: seq<Step>, i: nat)
    requires Run(es, steps) && i < |es|
    ensures InRange(es[i].tx) && Aligned(es[i].tx)
  {
    hide Pass, After;
    if i > 0 {
      RunAligned(es, steps, i - 1);
      var e := es[i - 1];
      assert Steps(e, steps[i - 1], es[i - 1 + 1]);
      if steps[i - 1] == Call {
        var n: nat :| After(e, n).1 == 16 && es[i] == After(e, n).0;
        AfterEven(e, n);
      }
    }
  }

  /** Whatever the program has done since START, a call of GETVALUE ends after exactly sixteen bits, in whole passes. */
  lemma EveryCallSixteen(es: seq<Emitter>, steps: seq<Step>, i: nat) returns (n: nat, word: seq<nat>)
    requires Run(es, steps) && i < |es|
    ensures |word| == 16 && After(es[i], n).1 == 16 && Emits(es[i], word, After(es[i], n).0)
  {
    hide Pass;
    RunAligned(es, steps, i);
    n, word := Gathers(es[i], 0, []);
  }

  // ---------- what a packet looks like on the line ----------

  lemma PreambleBit(k: nat)
    requires k < 8
    ensures Shr(0xAA, 7 - k) % 2 == (k + 1) % 2
  {
    assert Shr(0xAA, 2) == 0x2A && Shr(0xAA, 1) == 0x55 && Shr(0xAA, 0) == 0xAA;
    assert Shr(0x2A, 2) == 10 && Shr(0x2A, 1) == 21;
    assert Shr(10, 2) == 2 && Shr(10, 1) == 5;
    assert Shr(2, 1) == 1;
    ShrAdd(0xAA, 2, 1);
    ShrAdd(0xAA, 2, 2);
    ShrAdd(0xAA, 4, 1);
    ShrAdd(0xAA, 4, 2);
    ShrAdd(0xAA, 6, 1);
  }

  lemma {:induction false} PreambleByte(e: Emitter, k: nat) returns (next: Emitter)
    requires e.tx.stage == Preamble && k < 8 && e.tx.cnt == 7 - k && e.tx.preambles < PREAMBLE_LEN
    ensures Emits(e, Alternating(k), next)
    ensures next == e.(tx := e.tx.(stage := if e.tx.preambles + 1 == PREAMBLE_LEN then Sfd else Preamble,
                                   cnt := 7, preambles := e.tx.preambles + 1))
    decreases 8 - k
  {
    hide Shr, Emits;
    PreambleBit(k);
    EmitsOne(e);
    var n := Pass(e).0;
    if k == 7 {
      next := n;
      assert Alternating(8) == [];
      assert Alternating(7) == [0] + Alternating(8) == [0];
    } else {
      next := PreambleByte(n, k + 1);
      EmitsConcat(e, [(k + 1) % 2], n, Alternating(k + 1), next);
    }
  }

  lemma {:induction false} SfdRun(e: Emitter, n: nat) returns (next: Emitter)
    requires e.tx.stage == Sfd && e.tx.cnt + 1 == n
    ensures Emits(e, CodeBits(SFD, n), next)
    ensures next == e.(tx := e.tx.(stage := DataLength, cnt := 15, idx := e.tx.idx + 2,
                                   len := Byte(e.mem, e.tx.idx) + 256 * Byte(e.mem, e.tx.idx + 1)))
    decreases n
  {
    hide Shr, Emits;
    EmitsOne(e);
    var k := Pass(e).0;
    if n == 1 {
      next := k;
      CodeBitsOne(SFD);
    } else {
      next := SfdRun(k, n - 1);
      EmitsConcat(e, Pass(e).1, k, CodeBits(SFD, n - 1), next);
    }
  }

  lemma CodeBitsOne(v: nat)
    ensures CodeBits(v, 1) == Pair(Shr(v, 0) % 2)
  {
    assert CodeBits(v, 0) == [];
  }

  lemma {:induction false} LengthRun(e: Emitter, n: nat) returns (next: Emitter)
    requires e.tx.stage == DataLength && e.tx.cnt + 1 == n
    ensures Emits(e, CodeBits(e.tx.len, n), next)
    ensures next == e.(tx := e.tx.(stage := Data, cnt := 7, sent := 0, total := e.tx.len + e.extra,
                                   byte := Byte(e.mem, e.tx.idx), idx := e.tx.idx + 1))
    decreases n
  {
    hide Shr, Emits;
    EmitsOne(e);
    var k := Pass(e).0;
    if n == 1 {
      next := k;
      CodeBitsOne(e.tx.len);
    } else {
      next := LengthRun(k, n - 1);
      EmitsConcat(e, Pass(e).1, k, CodeBits(e.tx.len, n - 1), next);
    }
  }

  /** The bits of one body byte; the last pass moves on to the next byte or ends the packet. */
  lemma {:induction false} DataByte(e: Emitter, n: nat) returns (next: Emitter)
    requires e.tx.stage == Data && e.tx.cnt + 1 == n && e.tx.sent < e.tx.total
    ensures Emits(e, CodeBits(e.tx.byte, n), next)
    ensures e.tx.sent + 1 < e.tx.total ==>
              next == e.(tx := e.tx.(cnt := 7, sent := e.tx.sent + 1, byte := Byte(e.mem, e.tx.idx), idx := e.tx.idx + 1))
    ensures e.tx.sent + 1 == e.tx.total ==>
              && next.tx.stage == PacketEnd && next.tx.cnt == 3 && next.tx.finished
              && next.tx.idx == (if e.tx.idx < BUFFER_LIMIT then e.tx.idx else BUFFER_START)
              && next.mem == StoreRead(e.mem, next.tx.idx) && next.extra == e.extra
    decreases n
  {
    hide Shr, Emits, StoreRead;
    EmitsOne(e);
    var k := Pass(e).0;
    if n == 1 {
      next := k;
      CodeBitsOne(e.tx.byte);
    } else {
      next := DataByte(k, n - 1);
      EmitsConcat(e, Pass(e).1, k, CodeBits(e.tx.byte, n - 1), next);
    }
  }

  /** The bytes still to send: the one in the register, then memory. */
  ghost function Remaining(e: Emitter): (r: seq<nat>)
    requires e.tx.sent < e.tx.total
    ensures |r| == e.tx.total - e.tx.sent
  {
    [e.tx.byte] + seq<nat>(e.tx.total - e.tx.sent - 1, i requires i >= 0 => Byte(e.mem, e.tx.idx + i))
  }

  lemma {:induction false} DataRun(e: Emitter) returns (next: Emitter)
    requires e.tx.stage == Data && e.tx.cnt == 7 && e.tx.sent < e.tx.total
    ensures Emits(e, CodeBytes(Remaining(e)), next)
    ensures next.tx.stage == PacketEnd && next.tx.cnt == 3 && next.tx.finished && next.extra == e.extra
    ensures var idx := e.tx.idx + (e.tx.total - e.tx.sent - 1);
      && next.tx.idx == (if idx < BUFFER_LIMIT then idx else BUFFER_START)
      && next.mem == StoreRead(e.mem, next.tx.idx)
    decreases e.tx.total - e.tx.sent
  {
    hide Shr, Emits, StoreRead, CodeBits, Pass;
    var k := DataByte(e, 8);
    var rem := Remaining(e);
    if e.tx.sent + 1 == e.tx.total {
      next := k;
      assert rem == [e.tx.byte];
      CodeBytesOne(e.tx.byte);
    } else {
      next := DataRun(k);
      assert rem[1..] == Remaining(k);
      EmitsConcat(e, CodeBits(e.tx.byte, 8), k, CodeBytes(Remaining(k)), next);
    }
  }

  lemma CodeBytesOne(b: nat)
    ensures CodeBytes([b]) == CodeBits(b, 8)
  {
    hide CodeBits;
    assert [b][1..] == [];
    assert CodeBytes([]) == [];
    assert CodeBits(b, 8) + [] == CodeBits(b, 8);
  }

  lemma {:induction false} GapRun(e: Emitter, n: nat) returns (next: Emitter)
    requires e.tx.stage == PacketEnd && e.tx.cnt + 1 == n
    ensures Emits(e, seq(n, _ => 1), next)
    ensures next == e.(tx := e.tx.(stage := Preamble, cnt := 7, preambles := 0))
    decreases n
  {
    hide Shr, Emits;
    EmitsOne(e);
    var k := Pass(e).0;
    if n == 1 {
      next := k;
      assert seq(1, _ => 1) == [1];
    } else {
      next := GapRun(k, n - 1);
      EmitsConcat(e, [1], k, seq(n - 1, _ => 1), next);
      assert seq(n, _ => 1) == [1] + seq(n - 1, _ => 1);
    }
  }

  /** The packet in memory at idx: its length field and the bytes behind it. */
  ghost function PacketLen(e: Emitter): nat {
    Byte(e.mem, e.tx.idx) + 256 * Byte(e.mem, e.tx.idx + 1)
  }

  ghost function PacketBody(e: Emitter): (r: seq<nat>)
    ensures |r| == PacketLen(e) + e.extra
  {
    seq<nat>(PacketLen(e) + e.extra, i requires i >= 0 => Byte(e.mem, e.tx.idx + 2 + i))
  }

  /** The read index in shared memory is now v, and no other byte has changed. */
  ghost predicate ReadStored(was: seq<nat>, now: seq<nat>, v: nat) {
    && |now| == |was|
    && (|was| >= 4 ==> Le16(now, 2) == v && now[2] < 256)
    && forall i :: 0 <= i < |was| && i != 2 && i != 3 ==> now[i] == was[i]
  }

  lemma StoredRead(mem: seq<nat>, v: nat)
    requires v < 65536
    ensures ReadStored(mem, StoreRead(mem, v), v)
  {
  }

  lemma PacketEmitted(e: Emitter) returns (next: Emitter)
    requires e.tx.stage == Preamble && e.tx.cnt == 7 && e.tx.preambles == 0 && e.extra > 0
    ensures Emits(e, FrameBits(PacketLen(e), PacketBody(e)) + [1, 1, 1, 1], next)
    ensures next.tx.stage == Preamble && next.tx.cnt == 7 && next.tx.preambles == 0 && next.tx.finished
    ensures var idx := e.tx.idx + 2 + PacketLen(e) + e.extra;
      && next.tx.idx == (if idx < BUFFER_LIMIT then idx else BUFFER_START)
      && next.mem == StoreRead(e.mem, next.tx.idx) && next.extra == e.extra
  {
    hide Emits, CodeBits, CodeBytes, Alternating, StoreRead, Pass, Byte;
    var a := PreambleByte(e, 0);
    var b := PreambleByte(a, 0);
    EmitsConcat(e, Alternating(0), a, Alternating(0), b);
    var c := PreambleByte(b, 0);
    EmitsConcat(e, Alternating(0) + Alternating(0), b, Alternating(0), c);
    var pre := Alternating(0) + Alternating(0) + Alternating(0);
    var d := SfdRun(c, 8);
    EmitsConcat(e, pre, c, CodeBits(SFD, 8), d);
    var f := LengthRun(d, 16);
    EmitsConcat(e, pre + CodeBits(SFD, 8), d, CodeBits(PacketLen(e), 16), f);
    var h := DataRun(f);
    assert Remaining(f) == PacketBody(e);
    EmitsConcat(e, pre + CodeBits(SFD, 8) + CodeBits(PacketLen(e), 16), f, CodeBytes(PacketBody(e)), h);
    next := GapRun(h, 4);
    assert seq(4, _ => 1) == [1, 1, 1, 1];
    EmitsConcat(e, FrameBits(PacketLen(e), PacketBody(e)), h, [1, 1, 1, 1], next);
  }

  /** From the start of a packet: the frame of the packet in memory and four highs; the read index behind the packet is stored, and the
      emitter is ready for the next. */
  lemma PacketSent(e: Emitter) returns (next: Emitter)
    requires e.tx.stage == Preamble && e.tx.cnt == 7 && e.tx.preambles == 0 && e.extra > 0
    ensures Emits(e, Sent(e), next) && Sent(e) == FrameBits(PacketLen(e), PacketBody(e)) + [1, 1, 1, 1]
    ensures next.tx.stage == Preamble && next.tx.cnt == 7 && next.tx.preambles == 0 && next.tx.finished && next.extra == e.extra
    ensures next.tx.idx == NextIndex(e) && ReadStored(e.mem, next.mem, next.tx.idx)
  {
    hide Emits, FrameBits, PacketBody, PacketLen;
    next := PacketEmitted(e);
    StoredRead(e.mem, next.tx.idx);
  }

  /** What goes on the line for one packet. */
  ghost function Sent(e: Emitter): seq<nat> {
    FrameBits(PacketLen(e), PacketBody(e)) + [1, 1, 1, 1]
  }

  /** Behind the packet, or the start of the ring. */
  ghost function NextIndex(e: Emitter): nat {
    var idx := e.tx.idx + 2 + PacketLen(e) + e.extra;
    if idx < BUFFER_LIMIT then idx else BUFFER_START
  }

  // ---------- packets in turn ----------

  ghost predicate AtPacket(e: Emitter) {
    e.tx.stage == Preamble && e.tx.cnt == 7 && e.tx.preambles == 0 && e.extra > 0 && |e.mem| >= 4
  }

  /** e sends its packet, and the index check makes f of what is left. */
  ghost predicate Follows(e: Emitter, f: Emitter) {
    && (exists next :: Emits(e, Sent(e), next) && Steps(next, Reload, f))
    && ReadStored(e.mem, f.mem, f.tx.idx) && f.tx.idx == NextIndex(e)
  }

  lemma OnePacket(e: Emitter) returns (f: Emitter)
    requires AtPacket(e)
    ensures AtPacket(f) && Follows(e, f)
  {
    hide Emits, Sent, NextIndex;
    var next := PacketSent(e);
    f := next.(tx := next.tx.(idx := Byte(next.mem, 2) + 256 * Byte(next.mem, 3), finished := false));
    assert Steps(next, Reload, f);
  }

  /** Any number of packets go out in turn: each is read where the one before it stored the read index, from memory that differs from the
      first only in that index. */
  lemma {:induction false} PacketsInTurn(e: Emitter, n: nat) returns (es: seq<Emitter>)
    requires AtPacket(e)
    ensures |es| == n + 1 && es[0] == e && forall k :: 0 <= k < n ==> Follows(es[k], es[k + 1])
    ensures forall k :: 0 <= k <= n ==> |es[k].mem| == |e.mem| && forall i :: 0 <= i < |e.mem| && i != 2 && i != 3 ==> es[k].mem[i] == e.mem[i]
    decreases n
  {
    hide AtPacket;
    if n == 0 {
      es := [e];
    } else {
      var f := OnePacket(e);
      assert ReadStored(e.mem, f.mem, f.tx.idx);
      hide Follows;
      var rest := PacketsInTurn(f, n - 1);
      es := [e] + rest;
      forall k | 0 <= k < n ensures Follows(es[k], es[k + 1]) {
        if k > 0 {
          assert Follows(rest[k - 1], rest[k - 1 + 1]);
        }
      }
      forall k | 0 <= k <= n
        ensures |es[k].mem| == |e.mem| && forall i :: 0 <= i < |e.mem| && i != 2 && i != 3 ==> es[k].mem[i] == e.mem[i]
      {
        if k > 0 {
          assert es[k] == rest[k - 1];
        }
      }
    }
  }
}
