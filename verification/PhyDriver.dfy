/** The kernel drivers around the link: the transmitter appends parity and hands the packet
    to its PRU, the receiver corrects a frame, rewrites its header and passes it up. */
module PhyDriver {
  import opened BitXor
  import opened GaloisField
  import opened ModularArithmetic
  import opened Polynomials
  import opened RsCode
  import opened Generator
  import opened RsControl
  import opened Encoder
  import opened Syndromes
  import opened Decoder
  import opened Codec
  import opened DriverField
  import opened LinkCoding
  import opened RxPru

  const BLOCK_SIZE := 200
  const RX_DATA_LEN := 2000
  const DUMMY_PACKET_NODE_ID: nat := 99
  const ERROR_NODE_ID: nat := 98

  /** The codec both drivers construct: eight-bit symbols, polynomial 0x11d, first root 0, sixteen roots. */
  ghost predicate DriverCodec(rs: Control) {
    && Valid(rs)
    && CodeOf(rs) == Code(BYTE_FIELD, 0, 1, ECC_LEN)
    && rs.nn == 255
  }

  method InitCodec() returns (r: Option<Control>)
    ensures r.Some? && DriverCodec(r.value)
    ensures r.value.mm == 8 && r.value.nn == 255 && r.value.gfpoly == 0x11d
    ensures r.value.fcr == 0 && r.value.prim == 1 && r.value.nroots == 16
  {
    hide Valid, Exp, Primitive;
    ByteFieldPrimitive();
    ByteSize();
    PrimitiveEnd(BYTE_FIELD);
    OneIsCoprime(255);
    r := InitRs(8, 0x11d, 0, 1, ECC_LEN);
    ValidParts(r.value);
  }

  lemma PrimitiveEnd(g: GF)
    requires Primitive(g)
    ensures Exp(g, Top(g)) == 1
  {
  }

  lemma OneIsCoprime(n: nat)
    ensures Coprime(1, n)
  {
    forall d: nat | d > 1 ensures !Divides(d, 1) {
      ModUnique(1, d, 0, 1);
    }
  }

  function Le32(s: seq<nat>, i: nat): nat
    requires i + 3 < |s|
  {
    s[i] + 256 * s[i + 1] + 65536 * s[i + 2] + 16777216 * s[i + 3]
  }

  // ---------- transmitter ----------

  /** write_packet_to_pru_memory for a single block: parity behind the packet, then a copy to PRU memory. */
  method WritePacket(rs: Control, pkt: array<nat>, pru: array<nat>, writeIdx: nat) returns (idx: nat)
    requires DriverCodec(rs) && pkt != pru && pkt.Length >= 2 && IsBytes(pkt[..])
    requires Le16(pkt[..], 0) + HEADER < BLOCK_SIZE && Le16(pkt[..], 0) + HEADER + ECC_LEN <= pkt.Length
    requires writeIdx + Le16(pkt[..], 0) + HEADER + ECC_LEN <= pru.Length
    modifies pkt, pru
    ensures var n := old(Le16(pkt[..], 0)) + HEADER;
      && idx == writeIdx + n + ECC_LEN
      && pkt[..n] == old(pkt[..n])
      && pru[writeIdx..idx] == Encoding(CodeOf(rs), old(pkt[..n]))
      && IsBytes(pru[writeIdx..idx])
      && (forall i :: 0 <= i < pru.Length && !(writeIdx <= i < idx) ==> pru[i] == old(pru[i]))
  {
    hide Valid, Exp, Primitive, Symbols, Codeword, Lfsr, In;
    ghost var c, was := CodeOf(rs), pkt[..];
    var n := pkt[0] + 256 * pkt[1] + HEADER;
    var par := new nat[ECC_LEN];
    forall i | 0 <= i < ECC_LEN {
      par[i] := 0;
    }
    assert par[..] == Zeros(ECC_LEN);
    InZero(c.g, ECC_LEN);
    ghost var front := pkt[..n];
    BytesIn(front);
    SymbolsIdempotent(c.g, front);
    var ret := EncodeRs(rs, pkt, n, par, 0);
    ghost var parity := par[..];
    assert pkt[..n] == front;
    assert parity == Lfsr(c, Zeros(c.nroots), front);
    CodewordIn(c, front + parity);
    assert (front + parity)[n..] == parity;
    InBytes(parity);
    forall i | 0 <= i < ECC_LEN {
      pkt[n + i] := par[i];
    }
    assert pkt[..n] == front && pkt[n..n + ECC_LEN] == parity;
    assert pkt[..n + ECC_LEN] == front + parity;
    forall i | 0 <= i < n + ECC_LEN {
      pru[writeIdx + i] := pkt[i];
    }
    idx := writeIdx + n + ECC_LEN;
    assert pru[writeIdx..idx] == front + parity == Encoding(c, front);
    assert front == old(pkt[..n]);
  }

  lemma BytesIn(s: seq<nat>)
    requires IsBytes(s)
    ensures AllIn(BYTE_FIELD, s)
  {
    ByteSize();
  }

  lemma InBytes(s: seq<nat>)
    requires AllIn(BYTE_FIELD, s)
    ensures IsBytes(s)
  {
    ByteSize();
  }

  // ---------- receiver ----------

  /** The marking of a corrected frame: error node id unless it is a dummy packet, and the error count
      over the first four payload bytes. */
  function Mark(d: seq<nat>, total: nat): (r: seq<nat>)
    requires |d| >= 4
    ensures |r| == |d|
  {
    var m := if Le16(d, 2) != DUMMY_PACKET_NODE_ID then d[2 := ERROR_NODE_ID][3 := 0] else d;
    Put(Put(Put(Put(m, 10, total % 256), 11, total / 256 % 256), 12, total / 65536 % 256), 13, total / 16777216 % 256)
  }

  function Put(d: seq<nat>, i: nat, v: nat): (r: seq<nat>)
    ensures |r| == |d|
  {
    if i < |d| then d[i := v] else d
  }

  /** The count as the driver keeps it: an unsigned 32-bit number, so a decoding failure is a large one. */
  function Unsigned(ret: int): nat {
    if ret < 0 then (if ret + 0x1_0000_0000 >= 0 then ret + 0x1_0000_0000 else 0) else ret
  }

  /** What correction makes of a frame that started as the encoding of a packet. */
  ghost predicate Recovers(rs: Control, frame: seq<nat>, n: nat, now: seq<nat>, ret: int)
    requires |frame| == n + ECC_LEN && n <= |now| && CodeOf(rs).nroots == ECC_LEN
  {
    forall sent: seq<nat> :: |sent| == n && IsBytes(sent) && Distance(Encoding(CodeOf(rs), sent), frame) <= ECC_LEN / 2 ==>
      ret == Distance(Encoding(CodeOf(rs), sent), frame) && now[..n] == sent
  }

  /** The decoder on the receive buffer: data in front, parity split off. */
  method CorrectFrame(rs: Control, rxData: array<nat>, n: nat, ghost frame: seq<nat>) returns (ret: int)
    requires DriverCodec(rs) && IsBytes(frame) && |frame| == n + ECC_LEN <= 255 && 1 <= n
    requires |frame| <= rxData.Length && rxData[..|frame|] == frame
    modifies rxData
    ensures ret == -EBADMSG || 0 <= ret <= ECC_LEN
    ensures ret <= 0 ==> rxData[..] == old(rxData[..])
    ensures ret >= 0 ==> Distance(old(rxData[..]), rxData[..]) <= ret
    ensures Decides(CodeOf(rs).g, SyndromesOf(CodeOf(rs), frame), ret)
    ensures Recovers(rs, frame, n, rxData[..], ret)
  {
    hide Valid, Symbols, Restored, Distance, Encoding, Within, Decides, SyndromesOf, Corrects, Codeword;
    var par := new nat[ECC_LEN];
    forall i | 0 <= i < ECC_LEN {
      par[i] := rxData[n + i];
    }
    ghost var was := rxData[..];
    assert rxData[..n] == frame[..n] by {
      assert rxData[..n] == rxData[..|frame|][..n];
    }
    assert par[..] == frame[n..] by {
      assert par[..] == rxData[..|frame|][n..];
    }
    ReceivedFrame(frame, n);
    assert rxData[..] == was == old(rxData[..]);
    ret := DecodeRs(rs, rxData, par, n, 0);
    ghost var now := rxData[..];
    assert was[..n] == frame[..n];
    forall sent: seq<nat> | |sent| == n && IsBytes(sent) && Distance(Encoding(CodeOf(rs), sent), frame) <= ECC_LEN / 2
      ensures ret == Distance(Encoding(CodeOf(rs), sent), frame) && now[..n] == sent
    {
      DecodedFrame(rs, sent, frame, was, now, n, ret);
    }
  }

  /** Node id and error count written into the buffer. */
  method MarkBuffer(rxData: array<nat>, total: nat)
    requires rxData.Length >= 14
    modifies rxData
    ensures rxData[..] == Mark(old(rxData[..]), total)
  {
    ghost var was := rxData[..];
    if rxData[2] + 256 * rxData[3] != DUMMY_PACKET_NODE_ID {
      rxData[2], rxData[3] := ERROR_NODE_ID, 0;
      assert rxData[..] == was[2 := ERROR_NODE_ID][3 := 0];
    }
    ghost var m := rxData[..];
    rxData[10], rxData[11] := total % 256, total / 256 % 256;
    rxData[12], rxData[13] := total / 65536 % 256, total / 16777216 % 256;
    assert rxData[..] == Put(Put(Put(Put(m, 10, total % 256), 11, total / 256 % 256), 12, total / 65536 % 256), 13, total / 16777216 % 256);
  }

  /** Marking a longer buffer and cutting it marks the cut. */
  lemma MarkCut(d: seq<nat>, total: nat, n: nat)
    requires 4 <= n <= |d|
    ensures Mark(d, total)[..n] == Mark(d[..n], total)
  {
    var a, b := Mark(d, total)[..n], Mark(d[..n], total);
    forall i | 0 <= i < n ensures a[i] == b[i] {
    }
  }

  /** What is passed up for a corrected packet. */
  function PassedUp(sent: seq<nat>, errors: nat): seq<nat>
    requires |sent| >= 4
  {
    if errors > 0 then Mark(sent, errors) else sent
  }

  /** d is what is passed up for every packet whose encoding is within eight bytes of the frame. */
  ghost predicate CorrectlyPassed(rs: Control, frame: seq<nat>, d: seq<nat>) {
    && CodeOf(rs).nroots == ECC_LEN
    && |frame| == |d| + ECC_LEN && |d| >= 4
    && forall sent: seq<nat> ::
         |sent| == |d| && IsBytes(sent) && Distance(Encoding(CodeOf(rs), sent), frame) <= ECC_LEN / 2 ==>
         d == PassedUp(sent, Distance(Encoding(CodeOf(rs), sent), frame))
  }

  lemma PassedFor(rs: Control, frame: seq<nat>, d: seq<nat>, sent: seq<nat>)
    requires CodeOf(rs).nroots == ECC_LEN && |frame| == |d| + ECC_LEN && |d| >= 4
    requires CorrectlyPassed(rs, frame, d) && |sent| == |d| && IsBytes(sent)
    requires Distance(Encoding(CodeOf(rs), sent), frame) <= ECC_LEN / 2
    ensures d == PassedUp(sent, Distance(Encoding(CodeOf(rs), sent), frame))
  {
    hide Distance, Encoding, IsBytes, PassedUp;
  }

  /** d is what is passed up when decoding the frame returned ret: the frame marked with the failure's count, the frame as it came, or a
      correction of at most ret bytes marked with ret. */
  ghost predicate PassedAs(frame: seq<nat>, d: seq<nat>, ret: int) {
    && 4 <= |d| <= |frame| && (ret == -EBADMSG || 0 <= ret <= ECC_LEN)
    && (ret == -EBADMSG ==> d == Mark(frame[..|d|], 0x1_0000_0000 - EBADMSG))
    && (ret == 0 ==> d == frame[..|d|])
    && (ret > 0 ==> exists corrected: seq<nat> :: |corrected| == |d| && Distance(frame[..|d|], corrected) <= ret && d == Mark(corrected, ret))
  }

  lemma IsPassedAs(frame: seq<nat>, n: nat, was: seq<nat>, now: seq<nat>, ret: int, d: seq<nat>)
    requires 4 <= n <= |frame| <= |was| == |now| && was[..|frame|] == frame && (ret == -EBADMSG || 0 <= ret <= ECC_LEN)
    requires (ret <= 0 ==> now == was) && (ret >= 0 ==> Distance(was, now) <= ret)
    requires d == if Unsigned(ret) > 0 then Mark(now[..n], Unsigned(ret)) else now[..n]
    ensures PassedAs(frame, d, ret)
  {
    hide Mark, Distance;
    assert was[..n] == was[..|frame|][..n] == frame[..n];
    if ret > 0 {
      var corrected := now[..n];
      DistanceCut(was, now, n);
      assert |corrected| == |d| && Distance(frame[..|d|], corrected) <= ret && d == Mark(corrected, ret);
    }
  }

  lemma DistanceCut(a: seq<nat>, b: seq<nat>, n: nat)
    requires n <= |a| == |b|
    ensures Distance(a[..n], b[..n]) <= Distance(a, b)
  {
    SubsetCard(Differ(a[..n], b[..n]), Differ(a, b));
  }

  /** The zeroed receive buffer with the frame copied to its front. */
  method LoadBuffer(frame: seq<nat>) returns (rxData: array<nat>)
    requires |frame| <= RX_DATA_LEN
    ensures fresh(rxData) && rxData.Length == RX_DATA_LEN && rxData[..|frame|] == frame
  {
    rxData := new nat[RX_DATA_LEN];
    forall i | 0 <= i < RX_DATA_LEN {
      rxData[i] := 0;
    }
    forall i | 0 <= i < |frame| {
      rxData[i] := frame[i];
    }
  }

  /** One frame through pru_phy_decoding: corrected in place, marked if anything was wrong, passed up.
      A length field outside 1..MTU_VALUE leaves the frame where it is. */
  method ProcessFrame(rs: Control, frame: seq<nat>) returns (up: Option<seq<nat>>, ghost ret: int)
    requires DriverCodec(rs) && |frame| >= 2 && IsBytes(frame)
    requires 0 < Le16(frame, 0) <= MTU_VALUE ==> |frame| == Le16(frame, 0) + HEADER + ECC_LEN
    ensures up.None? <==> !(0 < Le16(frame, 0) <= MTU_VALUE)
    ensures up.Some? ==> |up.value| == Le16(frame, 0) + HEADER
    ensures up.Some? ==> CorrectlyPassed(rs, frame, up.value) && PassedAs(frame, up.value, ret)
    ensures up.Some? ==> Decides(CodeOf(rs).g, SyndromesOf(CodeOf(rs), frame), ret)
  {
    hide Valid, Symbols, Distance, Mark, Encoding, Recovers, DriverCodec, IsBytes, PassedUp, CorrectlyPassed, PassedAs, Decides, SyndromesOf;
    assert CodeOf(rs).nroots == ECC_LEN by { CodecRoots(rs); }
    var datalen := frame[0] + 256 * frame[1];
    if !(0 < datalen <= MTU_VALUE) {
      return None, 0;
    }
    datalen := datalen + HEADER;
    var rxData := LoadBuffer(frame);
    ghost var was := rxData[..];
    var numErr := CorrectFrame(rs, rxData, datalen, frame);
    ghost var now := rxData[..];
    var total := Unsigned(numErr);
    if total > 0 {
      MarkBuffer(rxData, total);
      MarkCut(now, total, datalen);
    }
    var d := rxData[..datalen];
    assert d == rxData[..][..datalen];
    UpIsPassedUp(rs, frame, datalen, now, numErr, d);
    IsPassedAs(frame, datalen, was, now, numErr, d);
    up, ret := Some(d), numErr;
  }

  lemma CodecRoots(rs: Control)
    requires DriverCodec(rs)
    ensures CodeOf(rs).nroots == ECC_LEN
  {
    hide Valid;
  }

  lemma UpIsPassedUp(rs: Control, frame: seq<nat>, n: nat, now: seq<nat>, ret: int, d: seq<nat>)
    requires |frame| == n + ECC_LEN && 4 <= n <= |now| && CodeOf(rs).nroots == ECC_LEN && -EBADMSG <= ret
    requires Recovers(rs, frame, n, now, ret)
    requires d == if Unsigned(ret) > 0 then Mark(now[..n], Unsigned(ret)) else now[..n]
    ensures CorrectlyPassed(rs, frame, d)
  {
    hide Distance, Mark, Encoding, IsBytes;
  }

  lemma ReceivedFrame(frame: seq<nat>, n: nat)
    requires IsBytes(frame) && n <= |frame|
    ensures Received(BYTE_FIELD, frame[..n], frame[n..], 0) == frame
  {
    hide Symbols;
    BytesIn(frame[..n]);
    BytesIn(frame[n..]);
    SymbolsIdempotent(BYTE_FIELD, frame[..n]);
    SymbolsIdempotent(BYTE_FIELD, frame[n..]);
  }

  lemma DecodedFrame(rs: Control, sent: seq<nat>, frame: seq<nat>, was: seq<nat>, now: seq<nat>, n: nat, ret: int)
    requires DriverCodec(rs) && IsBytes(frame) && IsBytes(sent) && |sent| == n && |frame| == n + ECC_LEN <= 255
    requires n <= |was| == |now| && was[..n] == frame[..n]
    requires Distance(Encoding(CodeOf(rs), sent), frame) <= ECC_LEN / 2
    requires forall cw :: Within(rs, cw, frame) ==> Restored(rs, cw, frame, was, now, n, ret)
    ensures ret == Distance(Encoding(CodeOf(rs), sent), frame) && now[..n] == sent
  {
    hide Valid, Exp, Primitive, Symbols, Codeword, Lfsr, In, Distance, Xor;
    var c := CodeOf(rs);
    var cw := Encoding(c, sent);
    ValidParts(rs);
    BytesIn(sent);
    EncodingIsCodeword(c, sent);
    assert Within(rs, cw, frame);
    forall p | 0 <= p < n ensures now[p] == sent[p] {
      assert was[p] == was[..n][p] == frame[..n][p] == frame[p];
      XorComm(cw[p], frame[p]);
      XorCancel(frame[p], cw[p]);
    }
  }

  // ---------- from the sender's packet to the receiver's parse ----------

  /** A packet as the transmitter sends it and the node parses it. */
  datatype NodePacket = NodePacket(payloadLen: nat, nodeId: nat, vlcId: nat, seqNumber: nat, data: seq<nat>)

  /** Values that fit their fields. */
  ghost predicate Fits(p: NodePacket) {
    && p.payloadLen < 65536 && p.nodeId < 65536 && p.vlcId < 65536 && p.seqNumber < 0x1_0000_0000
    && |p.data| == p.payloadLen && IsBytes(p.data)
  }

  /** The sender's layout: three 16-bit numbers and a 32-bit one, low bytes first, and the data. */
  ghost predicate IsPacket(b: seq<nat>, p: NodePacket) {
    && |b| == 10 + |p.data|
    && b[0] == p.payloadLen % 256 && b[1] == p.payloadLen / 256
    && b[2] == p.nodeId % 256 && b[3] == p.nodeId / 256
    && b[4] == p.vlcId % 256 && b[5] == p.vlcId / 256
    && b[6] == p.seqNumber % 256 && b[7] == p.seqNumber / 256 % 256 && b[8] == p.seqNumber / 65536 % 256 && b[9] == p.seqNumber / 16777216
    && b[10..] == p.data
  }

  /** transmit_to_vlc: the packet laid out in the transmit buffer. */
  method TransmitToVlc(p: NodePacket, buff: array<nat>) returns (len: nat)
    requires Fits(p) && 10 + p.payloadLen <= buff.Length
    modifies buff
    ensures len == 10 + p.payloadLen && IsPacket(buff[..len], p) && IsBytes(buff[..len])
    ensures forall i :: len <= i < buff.Length ==> buff[i] == old(buff[i])
  {
    buff[0], buff[1] := p.payloadLen % 256, p.payloadLen / 256;
    buff[2], buff[3] := p.nodeId % 256, p.nodeId / 256;
    buff[4], buff[5] := p.vlcId % 256, p.vlcId / 256;
    buff[6], buff[7] := p.seqNumber % 256, p.seqNumber / 256 % 256;
    buff[8], buff[9] := p.seqNumber / 65536 % 256, p.seqNumber / 16777216;
    ghost var header := buff[..10];
    len := 10;
    var i := 0;
    while i < p.payloadLen
      invariant i <= p.payloadLen && len == 10 + i && buff[..10] == header
      invariant forall k :: 0 <= k < i ==> buff[10 + k] == p.data[k]
      invariant forall k :: 10 + i <= k < buff.Length ==> buff[k] == old(buff[k])
    {
      buff[len] := p.data[i];
      len, i := len + 1, i + 1;
    }
    LaidOut(buff[..len], header, p);
  }

  lemma LaidOut(b: seq<nat>, header: seq<nat>, p: NodePacket)
    requires Fits(p) && |b| == 10 + p.payloadLen && |header| == 10 && b[..10] == header
    requires IsPacket(header, p.(data := []))
    requires forall k :: 0 <= k < p.payloadLen ==> b[10 + k] == p.data[k]
    ensures IsPacket(b, p) && IsBytes(b)
  {
    assert forall k :: 0 <= k < 10 ==> b[k] == header[k];
    assert b[10..] == p.data;
    forall k | 0 <= k < |b| ensures b[k] < 256 {
      if k >= 10 {
        assert b[k] == p.data[k - 10];
      }
    }
  }

  /** generate_from_bytes: length, node id, transmitter id, sequence number and data. */
  function GenerateFromBytes(b: seq<nat>): NodePacket
    requires |b| >= 10 && 10 + Le16(b, 0) <= |b|
  {
    NodePacket(Le16(b, 0), Le16(b, 2), Le16(b, 4), Le32(b, 6), b[10..10 + Le16(b, 0)])
  }

  /** The node's parse of the sender's bytes is the packet. */
  lemma ParsesBack(b: seq<nat>, p: NodePacket)
    requires Fits(p) && IsPacket(b, p)
    ensures 10 + Le16(b, 0) == |b| && GenerateFromBytes(b) == p
  {
    Low16(p.payloadLen);
    Low16(p.nodeId);
    Low16(p.vlcId);
    Low32(p.seqNumber);
    assert b[10..10 + Le16(b, 0)] == b[10..];
  }

  lemma Low16(v: nat)
    ensures v % 256 + 256 * (v / 256) == v
  {
  }

  lemma Low32(v: nat)
    requires v < 0x1_0000_0000
    ensures v % 256 + 256 * (v / 256 % 256) + 65536 * (v / 65536 % 256) + 16777216 * (v / 16777216) == v
  {
    var q := v / 256;
    var p := q / 256;
    assert v / 65536 == p && v / 16777216 == p / 256;
  }

  /** Marking changes the node id, unless it is the dummy packets', and the first four payload bytes, which become the count; nothing else. */
  lemma MarkKeeps(d: seq<nat>, total: nat)
    requires |d| >= 10 && 10 + Le16(d, 0) <= |d|
    ensures var p, q := GenerateFromBytes(d), GenerateFromBytes(Mark(d, total));
      && q.payloadLen == p.payloadLen && q.vlcId == p.vlcId && q.seqNumber == p.seqNumber
      && q.nodeId == (if p.nodeId == DUMMY_PACKET_NODE_ID then p.nodeId else ERROR_NODE_ID)
      && (forall i :: 4 <= i < |p.data| ==> q.data[i] == p.data[i])
      && (|p.data| >= 4 && total < 0x1_0000_0000 ==> Le32(q.data, 0) == total && IsBytes(q.data[..4]))
  {
    if total < 0x1_0000_0000 {
      Low32(total);
    }
  }

  /** The frame the receiver stores for these raw body bits. */
  ghost function StoredFrame(raw: seq<nat>): (r: seq<nat>)
    requires |raw| % 16 == 0 && IsBits(raw)
    ensures |r| == |raw| / 16 + 2
  {
    [PAYLOAD_LEN, 0] + RawBytes(raw, |raw| / 16)
  }

  /** The body bytes whose raw stretch on the line was disturbed. */
  ghost function Damaged(raw: seq<nat>, body: seq<nat>): set<int>
    requires |raw| == 16 * |body|
  {
    set j | 0 <= j < |body| && raw[16 * j..16 * j + 16] != CodeBytes(body)[16 * j..16 * j + 16]
  }

  lemma UndamagedByte(raw: seq<nat>, body: seq<nat>, j: nat)
    requires |raw| == 16 * |body| && IsBits(raw) && IsBytes(body) && j < |body| && j !in Damaged(raw, body)
    ensures RawBytes(raw, |body|)[j] == body[j]
  {
    hide RawBytes, CodeBytes;
    RawOfCodeBytes(body);
    RawBytesLocal(raw, CodeBytes(body), |body|, j);
  }

  /** The stored frame differs from the one sent in at most the damaged bytes. */
  lemma DamageDistance(raw: seq<nat>, enc: seq<nat>)
    requires |enc| == SLOT && IsBytes(enc) && enc[..2] == [PAYLOAD_LEN, 0] && |raw| == 16 * BODY_LEN && IsBits(raw)
    ensures Distance(enc, StoredFrame(raw)) <= |Damaged(raw, enc[2..])|
  {
    hide RawBytes, CodeBytes, Damaged;
    var got := StoredFrame(raw);
    var dmg := Damaged(raw, enc[2..]);
    assert enc[0] == enc[..2][0] && enc[1] == enc[..2][1];
    forall j | j in Differ(enc, got) ensures j - 2 in dmg {
      if j >= 2 && j - 2 !in dmg {
        UndamagedByte(raw, enc[2..], j - 2);
      }
    }
    ShiftedSubset(Differ(enc, got), dmg, 2);
  }

  lemma Member<T>(s: set<T>) returns (x: T)
    requires s != {}
    ensures x in s
  {
    x :| x in s;
  }

  lemma {:induction false} ShiftedSubset(a: set<int>, b: set<int>, k: int)
    requires forall j :: j in a ==> j - k in b
    ensures |a| <= |b|
  {
    if a != {} {
      var j := Member(a);
      ShiftedSubset(a - {j}, b - {j - k}, k);
      assert |b - {j - k}| == |b| - 1;
    }
  }

  lemma EncodedBytes(rs: Control, pkt: seq<nat>)
    requires DriverCodec(rs) && IsBytes(pkt)
    ensures IsBytes(Encoding(CodeOf(rs), pkt))
  {
    hide Valid, Exp, Primitive, Codeword, Lfsr, In;
    ValidParts(rs);
    BytesIn(pkt);
    EncodingIsCodeword(CodeOf(rs), pkt);
    CodewordIn(CodeOf(rs), Encoding(CodeOf(rs), pkt));
    InBytes(Encoding(CodeOf(rs), pkt));
  }

  /** enc is the packet with its parity, and raw is what the line makes of its last 98 bytes: damage in at most eight of them. */
  ghost predicate OnTheLine(rs: Control, packet: seq<nat>, enc: seq<nat>, raw: seq<nat>) {
    && IsBytes(packet) && |packet| == SLOT - ECC_LEN && packet[0] == PAYLOAD_LEN && packet[1] == 0
    && |enc| == SLOT && enc == Encoding(CodeOf(rs), packet)
    && |raw| == 16 * BODY_LEN && IsBits(raw)
    && |Damaged(raw, enc[2..])| <= ECC_LEN / 2
  }

  /** The packet, its bytes, the frame sent, the raw bits of its body as they arrive, and the frame stored. */
  ghost predicate Transfer(rs: Control, sent: NodePacket, pkt: seq<nat>, enc: seq<nat>, raw: seq<nat>, frame: seq<nat>) {
    OnTheLine(rs, pkt, enc, raw) && frame == StoredFrame(raw) && Fits(sent) && IsPacket(pkt, sent)
  }

  /** A 74-byte packet whose frame was stored with raw damage in at most eight of the 98 bytes after the
      length field: what the node parses from the packet passed up is the packet sent, with the mark of the bytes corrected. */
  method DamagedPacketParsed(rs: Control, ghost sent: NodePacket, ghost pkt: seq<nat>, ghost enc: seq<nat>, ghost raw: seq<nat>, frame: seq<nat>)
    returns (p: NodePacket)
    requires DriverCodec(rs) && Transfer(rs, sent, pkt, enc, raw, frame)
    ensures ParsedFrom(sent, p, enc, frame)
  {
    hide Valid, RawBytes, Encoding, Damaged, Distance, PassedUp, GenerateFromBytes, Mark, DriverCodec, IsBytes, IsBits,
         CorrectlyPassed, ParsedAs, IsPacket, Fits, Decides, SyndromesOf;
    assert CodeOf(rs).nroots == ECC_LEN by { CodecRoots(rs); }
    EncodedBytes(rs, pkt);
    EncodingFront(CodeOf(rs), pkt);
    assert pkt[..2] == [PAYLOAD_LEN, 0];
    DamageDistance(raw, enc);
    StoredBytes(raw);
    assert frame[0] == PAYLOAD_LEN && frame[1] == 0;
    var up, ret := ProcessFrame(rs, frame);
    ghost var n := Distance(enc, frame);
    PassedFor(rs, frame, up.value, pkt);
    PassedUpParses(pkt, sent, n);
    p := GenerateFromBytes(up.value);
  }

  /** The packet sent; with n bytes corrected, the error node id in place of its own unless it is a dummy packet, and n in place of
      its first four payload bytes. */
  ghost predicate ParsedAs(sent: NodePacket, p: NodePacket, n: nat) {
    && p.seqNumber == sent.seqNumber && p.vlcId == sent.vlcId && p.payloadLen == sent.payloadLen && |p.data| == |sent.data|
    && (n == 0 ==> p == sent)
    && (n > 0 ==>
          && p.nodeId == (if sent.nodeId == DUMMY_PACKET_NODE_ID then sent.nodeId else ERROR_NODE_ID)
          && (forall i :: 4 <= i < |sent.data| ==> p.data[i] == sent.data[i])
          && (|p.data| >= 4 ==> Le32(p.data, 0) == n && IsBytes(p.data[..4])))
  }

  /** The same with n the number of bytes in which the frame received differs from the one sent. */
  ghost predicate ParsedFrom(sent: NodePacket, p: NodePacket, enc: seq<nat>, frame: seq<nat>) {
    |enc| == |frame| && ParsedAs(sent, p, Distance(enc, frame))
  }

  lemma PassedUpParses(pkt: seq<nat>, sent: NodePacket, n: nat)
    requires Fits(sent) && IsPacket(pkt, sent) && n < 0x1_0000_0000
    ensures |PassedUp(pkt, n)| == |pkt| && |pkt| >= 10 && Le16(PassedUp(pkt, n), 0) == sent.payloadLen == |pkt| - 10
    ensures ParsedAs(sent, GenerateFromBytes(PassedUp(pkt, n)), n)
  {
    ParsesBack(pkt, sent);
    MarkKeeps(pkt, n);
    MarkLength(pkt, n);
    hide Mark, IsPacket;
  }

  lemma MarkLength(d: seq<nat>, total: nat)
    requires |d| >= 4
    ensures Le16(Mark(d, total), 0) == Le16(d, 0)
  {
  }

  lemma EncodingFront(c: Code, pkt: seq<nat>)
    requires |pkt| >= 2
    ensures Encoding(c, pkt)[..2] == pkt[..2]
  {
    hide Lfsr;
  }

  lemma StoredBytes(raw: seq<nat>)
    requires |raw| == 16 * BODY_LEN && IsBits(raw)
    ensures IsBytes(StoredFrame(raw))
  {
    hide RawBytes;
    RawBytesAreBytes(raw, |raw| / 16);
  }

  lemma {:induction false} RawBytesAreBytes(raw: seq<nat>, n: nat)
    requires |raw| == 16 * n && IsBits(raw)
    ensures IsBytes(RawBytes(raw, n))
  {
    hide RawBits;
    if n > 0 {
      RawBytesFirst(raw, n);
      RawBytesAreBytes(raw[16..], n - 1);
    }
  }
}
