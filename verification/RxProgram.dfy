/** The receiver program on its registers and memory, refining the bit function of RxPru. */
module RxProgram {
  import opened BitXor
  import opened LinkCoding
  import opened RxPru

  class Receiver {
    var mode: Mode
    var symbols: nat
    var preambles: nat
    var prev: nat
    var first: nat
    var phase: Phase
    var cnt: nat
    var val: nat
    var off: nat
    var ch: nat
    var got: nat
    var full: bool
    const mem: array<nat>

    ghost function Registers(): Rx
      reads this
    {
      Rx(mode, symbols, preambles, prev, first, phase, cnt, val, off, ch, got, full)
    }

    ghost function State(): Machine
      reads this, mem
    {
      Machine(Registers(), mem[..])
    }

    /** START: both indices at the first slot, the detector reset. */
    constructor (memory: array<nat>)
      requires memory.Length >= BUFFER_LIMIT
      modifies memory
      ensures mem == memory && SafeWrite(State()) && Synced(Registers())
      ensures WriteIdx(mem[..]) == ReadIdx(mem[..]) == BUFFER_START
      ensures forall i :: 4 <= i < memory.Length ==> memory[i] == old(memory[i])
    {
      mode, symbols, preambles, prev, first := Hunting, 1, 0, 0, 0;
      phase, cnt, val, off, ch, got, full := Delimiter, 7, 0, 0, 0, 0, false;
      mem := memory;
      new;
      memory[0], memory[1], memory[2], memory[3] := 4, 0, 4, 0;
    }

    /** PREAMBLE_DETECTION */
    method DetectPreamble(bit: nat)
      modifies this
      ensures Registers() == PreambleStep(old(Registers()), bit)
    {
      var good: bool;
      if symbols % 2 == 0 {
        good := bit > prev;
      } else {
        good := prev > bit;
      }
      if good {
        symbols := symbols + 1;
      } else {
        symbols, preambles := 1, 0;
      }
      prev := bit;
      if symbols >= 8 {
        symbols := 0;
        preambles := preambles + 1;
        if preambles >= PREAMBLE_LEN {
          cnt, val, mode, phase := 7, 0, FirstBit, Delimiter;
        }
      }
    }

    method StartHunting(last: nat)
      modifies this
      ensures Registers() == Hunt(old(Registers()), last)
    {
      symbols, preambles, prev, mode := 1, 0, last, Hunting;
    }

    /** SFD */
    method CheckDelimiter(d: nat, bit: nat)
      modifies this
      ensures Registers() == DelimiterStep(old(Registers()), d, bit)
    {
      if (Shr(SFD, cnt) + d) % 2 == 1 {
        StartHunting(bit);
      } else if cnt == 0 {
        cnt, val, mode, phase := 15, 0, FirstBit, Length;
      } else {
        cnt, mode := cnt - 1, FirstBit;
      }
    }

    /** The length field goes to the start of the slot being written. */
    method StoreLength()
      requires SafeWrite(State())
      modifies this`off, mem
      ensures off == WriteIdx(old(mem[..])) && mem[..] == StoreHalf(old(mem[..]), off, val)
    {
      ghost var was := mem[..];
      off := mem[0] + 256 * mem[1];
      mem[off], mem[off + 1] := val % 256, val / 256 % 256;
      assert mem[..] == StoreHalf(was, WriteIdx(was), val);
    }

    /** LENGTH, PROCESS_LENGTH */
    method TakeLength(d: nat)
      requires SafeWrite(State())
      modifies this, mem
      ensures State() == LengthStep(old(State()), d)
    {
      hide Pow2, StoreHalf, Le16, WriteIdx;
      val := val + d * Pow2(cnt);
      if cnt != 0 {
        cnt, mode := cnt - 1, FirstBit;
        return;
      }
      if val != PAYLOAD_LEN {
        StartHunting(0);
        return;
      }
      StoreLength();
      off := off + 2;
      if off >= BUFFER_LIMIT {
        off := BUFFER_START;
      }
      cnt, ch, got, val, phase, mode := 7, 0, 0, val + OTHER_PACKET_CONTENT_BYTE, Body, FirstBit;
    }

    /** BODY, PROCESS_PACKET_BYTE */
    method TakeBody(d: nat)
      requires SafeWrite(State())
      modifies this, mem
      ensures State() == BodyStep(old(State()), d)
    {
      ghost var was := mem[..];
      ch := ch + d * Pow2(cnt);
      if cnt != 0 {
        cnt, mode := cnt - 1, FirstBit;
        return;
      }
      got := got + 1;
      var low: nat := ch % 256;
      mem[off] := low;
      assert mem[..] == was[off := low];
      off := off + 1;
      if off >= BUFFER_LIMIT {
        off := BUFFER_START;
      }
      if val <= got {
        full := true;
      } else {
        cnt, ch, mode := 7, 0, FirstBit;
      }
    }

    /** CHECK_STATE for one raw bit. */
    method OnBit(bit: nat)
      requires !full && SafeWrite(State())
      modifies this, mem
      ensures State() == RxBit(old(State()), bit)
    {
      hide PreambleStep, DelimiterStep, LengthStep, BodyStep;
      match mode
      case Hunting =>
        DetectPreamble(bit);
      case FirstBit =>
        first, mode := bit, SecondBit;
      case SecondBit =>
        var d := 0;
        if bit > first {
          d := 1;
        } else if first > bit {
          d := 0;
        } else if phase != Body {
          StartHunting(bit);
          return;
        } else if first > 0 {
          d := 0;
        } else {
          d := 1;
        }
        match phase
        case Delimiter => CheckDelimiter(d, bit);
        case Length => TakeLength(d);
        case Body => TakeBody(d);
    }

    /** Raw bits one after the other: the program goes where the bit function goes. */
    method Feed(bits: seq<nat>, ghost end: Machine)
      requires Feeds(State(), bits, end)
      modifies this, mem
      ensures State() == end
    {
      hide RxBit;
      var i := 0;
      while i < |bits|
        invariant i <= |bits| && Feeds(State(), bits[i..], end)
      {
        assert bits[i..][1..] == bits[i + 1..];
        OnBit(bits[i]);
        i := i + 1;
      }
    }

    /** FINAL, once around. */
    method TryPublish() returns (done: bool)
      requires full && mem.Length >= BUFFER_LIMIT
      modifies this, mem
      ensures State() == RxFinal(old(State()))
      ensures done == !full
      ensures done ==> mode == Hunting && symbols == 1 && preambles == 0 && prev == 0
      ensures done ==> mem[0] == old(off) % 256 && mem[1] == old(off) / 256 % 256
      ensures forall i :: 2 <= i < mem.Length ==> mem[i] == old(mem[i])
    {
      ghost var was := mem[..];
      if mem[2] + 256 * mem[3] == off {
        return false;
      }
      mem[0], mem[1] := off % 256, off / 256 % 256;
      assert mem[..] == StoreHalf(was, 0, off);
      full := false;
      StartHunting(0);
      return true;
    }
  }
}
