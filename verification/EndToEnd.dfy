/** From the sender's packet buffer over a damaged line to the receiver's parse. */
module EndToEnd {
  import opened RsCode
  import opened RsControl
  import opened Codec
  import opened LinkCoding
  import opened RxPru
  import opened PhyDriver
  import opened Link
  import Ring = RxRing
  import Tx = TxPru

  /** The emitter about to send the packet at idx; extra is the number of bytes it sends behind the payload. */
  ghost function AboutToSend(mem: seq<nat>, idx: nat, extra: nat): Tx.Emitter {
    Tx.Emitter(Tx.Tx(Tx.Preamble, 7, 0, idx, 0, 0, 0, 0, false), mem, extra)
  }

  /** What the emitter reads begins with the frame that was written. */
  lemma PacketInMemory(mem: seq<nat>, idx: nat, extra: nat, enc: seq<nat>)
    requires idx + SLOT <= |mem| && |enc| == SLOT && mem[idx..idx + SLOT] == enc && enc[0] == PAYLOAD_LEN && enc[1] == 0
    requires extra >= OTHER_PACKET_CONTENT_BYTE
    ensures Tx.PacketLen(AboutToSend(mem, idx, extra)) == PAYLOAD_LEN
    ensures Front(AboutToSend(mem, idx, extra)) == enc[2..]
  {
    assert mem[idx] == enc[0] && mem[idx + 1] == enc[1];
    var e := AboutToSend(mem, idx, extra);
    var b := Tx.PacketBody(e);
    assert |b| >= BODY_LEN;
    forall i | 0 <= i < BODY_LEN ensures b[i] == enc[2..][i] {
      assert b[i] == Tx.Byte(mem, idx + 2 + i) == mem[idx + 2 + i];
      assert mem[idx..idx + SLOT][2 + i] == mem[idx + 2 + i];
    }
  }

  /** The emitter, from the packet in its memory at idx, puts a frame on the line whose first 98 body bytes are the encoded packet's. */
  ghost predicate SentAs(mem: seq<nat>, idx: nat, extra: nat, enc: seq<nat>, sent: Tx.Emitter) {
    var e := AboutToSend(mem, idx, extra);
    |enc| == SLOT && Front(e) == enc[2..] && Tx.Emits(e, FrameBits(PAYLOAD_LEN, Tx.PacketBody(e)) + [1, 1, 1, 1], sent)
  }

  /** The receiver, from m, is fed an intact preamble, delimiter and length, then raw, and completes a frame. */
  ghost predicate ReceivedAs(m: Machine, raw: seq<nat>, stored: Machine) {
    && (forall i :: 0 <= i < |raw| ==> raw[i] <= 1)
    && Feeds(m, Opening() + raw, stored)
    && stored.rx.full
  }

  /** The ring slot that the frame was stored in. */
  ghost function StoredSlot(m: Machine, stored: Machine): seq<nat>
    requires SafeWrite(m) && SlotStart(WriteIdx(m.mem))
  {
    if |stored.mem| == |m.mem| then stored.mem[WriteIdx(m.mem)..WriteIdx(m.mem) + SLOT] else []
  }

  /** A synchronised receiver at a slot. */
  ghost predicate Standing(m: Machine) {
    SafeWrite(m) && Synced(m.rx) && SlotStart(WriteIdx(m.mem))
  }

  /** It is fed the frame and stores slot. */
  ghost predicate ReceivedInto(m: Machine, raw: seq<nat>, slot: seq<nat>, stored: Machine) {
    Standing(m) && ReceivedAs(m, raw, stored) && StoredSlot(m, stored) == slot
  }

  lemma Receive(m: Machine, raw: seq<nat>, slot: seq<nat>) returns (stored: Machine)
    requires Standing(m) && |raw| == 16 * BODY_LEN && IsBits(raw) && slot == StoredFrame(raw)
    ensures ReceivedInto(m, raw, slot, stored)
  {
    hide Feeds, RawBytes, Opening;
    stored := FrameReceived(m, raw);
    var at := WriteIdx(m.mem);
    assert at + SLOT <= |m.mem|;
    var frame := StoredFrame(raw);
    assert frame == [PAYLOAD_LEN, 0] + RawBytes(raw, BODY_LEN);
    assert stored.mem[at..at + SLOT] == frame;
  }

  /** A 74-byte packet is laid out, encoded, put on the line, and received with raw damage inside at most eight of the 98 bytes after the
      length field: the node parses the packet that was sent, with the mark of the bytes corrected. */
  method SendAndReceive(rs: Control, sent: NodePacket, pkt: array<nat>, txMem: array<nat>, idx: nat, ghost extra: nat,
                        ghost packet: seq<nat>, ghost enc: seq<nat>, ghost m: Machine, ghost raw: seq<nat>, slot: seq<nat>)
    returns (p: NodePacket, ghost after: Tx.Emitter, ghost stored: Machine)
    requires pkt != txMem && pkt.Length >= SLOT && IsBytes(pkt[..])
    requires idx + SLOT <= txMem.Length && extra >= OTHER_PACKET_CONTENT_BYTE
    requires Standing(m) && DriverCodec(rs) && Transfer(rs, sent, packet, enc, raw, slot)
    modifies pkt, txMem
    ensures SentAs(txMem[..], idx, extra, enc, after)
    ensures ReceivedInto(m, raw, slot, stored)
    ensures ParsedFrom(sent, p, enc, slot)
  {
    hide Valid, DriverCodec, Encoding, Damaged, Feeds, Tx.Emits, FrameBits, Opening, RawBytes, ParsedFrom, Front,
         GenerateFromBytes, Distance, Tx.PacketBody, Overwrite, ReceivedInto, StoredFrame, Standing;
    CodecRoots(rs);
    Layout(sent, pkt, packet);
    var end := WritePacket(rs, pkt, txMem, idx);
    assert end == idx + SLOT && txMem[idx..end] == enc;
    EncodingFront(CodeOf(rs), packet);
    FrontSymbols(packet, enc);
    PacketInMemory(txMem[..], idx, extra, enc);
    after := Tx.PacketSent(AboutToSend(txMem[..], idx, extra));
    stored := Receive(m, raw, slot);
    p := DamagedPacketParsed(rs, sent, packet, enc, raw, slot);
  }

  /** The transmit buffer holds the packet's bytes. */
  method Layout(sent: NodePacket, pkt: array<nat>, ghost packet: seq<nat>)
    requires Fits(sent) && IsPacket(packet, sent) && |packet| == SLOT - ECC_LEN && packet[0] == PAYLOAD_LEN && packet[1] == 0
    requires pkt.Length >= SLOT && IsBytes(pkt[..])
    modifies pkt
    ensures pkt[..SLOT - ECC_LEN] == packet && IsBytes(pkt[..]) && pkt[0] == PAYLOAD_LEN && pkt[1] == 0
  {
    ghost var was := pkt[..];
    ParsesBack(packet, sent);
    var len := TransmitToVlc(sent, pkt);
    ghost var b := pkt[..len];
    OnePacket(b, packet, sent);
    assert pkt[0] == b[0] && pkt[1] == b[1];
    assert forall i :: 0 <= i < len ==> pkt[i] == b[i];
    assert forall i :: len <= i < pkt.Length ==> pkt[i] == was[i];
  }

  /** The layout of a packet is unique. */
  lemma OnePacket(a: seq<nat>, b: seq<nat>, p: NodePacket)
    requires IsPacket(a, p) && IsPacket(b, p)
    ensures a == b
  {
    assert a == a[..10] + a[10..] && b == b[..10] + b[10..];
    assert a[..10] == b[..10];
  }

  /** Over whole runs: whatever the interleaving of receiver and kernel thread, every frame the thread has got whose raw bits were damaged
      in at most eight bytes parses to the packet that was sent. */
  method DeliveredPacketParsed(rs: Control, ghost t: Traffic, ghost ss: seq<Ring.Sys>, ghost acts: seq<Ring.Action>, ghost k: nat,
                               ghost sent: NodePacket, ghost packet: seq<nat>, ghost enc: seq<nat>, frame: seq<nat>) returns (p: NodePacket)
    requires DriverCodec(rs) && Arrives(t, ss, acts, k, frame)
    requires k < |t.raws| && Fits(sent) && IsPacket(packet, sent) && OnTheLine(rs, packet, enc, t.raws[k])
    ensures ParsedFrom(sent, p, enc, frame)
  {
    hide Arrives, WellFormed, DriverCodec, ParsedFrom, GenerateFromBytes, RawBytes, Distance;
    ArrivesAs(t, ss, acts, k, frame);
    p := DamagedPacketParsed(rs, sent, packet, enc, t.raws[k], frame);
  }

  lemma FrontSymbols(packet: seq<nat>, enc: seq<nat>)
    requires |packet| >= 2 && |enc| >= 2 && enc[..2] == packet[..2]
    ensures enc[0] == packet[0] && enc[1] == packet[1]
  {
    assert enc[0] == enc[..2][0] && enc[1] == enc[..2][1];
  }
}
