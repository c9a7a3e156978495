/** The status report: the node packs its window into bits and bytes, the gateway unpacks them. */
module StatusReport {
  import BitXor
  import opened ReceiveWindow

  const ETHER_HEADER: nat := 14
  const INT_LIMIT: int := 0x8000_0000

  datatype VlcInfo = VlcInfo(txId: int, linkQuality: int)

  datatype Report = Report(nodeId: int, ackNumber: int, patternLength: int, pattern: seq<nat>, vlc: seq<VlcInfo>)

  // ---------- bits of a byte ----------

  function ShiftLeft(x: nat, j: nat): nat
    decreases j
  {
    if j == 0 then x else ShiftLeft(2 * x, j - 1)
  }

  function Or(x: nat, y: nat): nat {
    if x == 0 then y else if y == 0 then x
    else (if x % 2 == 1 || y % 2 == 1 then 1 else 0) + 2 * Or(x / 2, y / 2)
  }

  /** x >> j & 1 */
  function Bit(x: nat, j: nat): (r: nat)
    ensures r <= 1
  {
    BitXor.Shr(x, j) % 2
  }

  lemma {:induction false} ZeroBit(j: nat)
    ensures Bit(0, j) == 0
    decreases j
  {
    if j > 0 {
      ZeroBit(j - 1);
      assert BitXor.Shr(0, j) == BitXor.Shr(0, j - 1);
    }
  }

  lemma {:induction false} OrBit(x: nat, y: nat, j: nat)
    ensures Bit(Or(x, y), j) == if Bit(x, j) == 1 || Bit(y, j) == 1 then 1 else 0
    decreases j
  {
    ZeroBit(j);
    if x != 0 && y != 0 {
      var r := Or(x, y);
      assert r / 2 == Or(x / 2, y / 2);
      if j > 0 {
        OrBit(x / 2, y / 2, j - 1);
        assert Bit(r, j) == Bit(r / 2, j - 1) && Bit(x, j) == Bit(x / 2, j - 1) && Bit(y, j) == Bit(y / 2, j - 1);
      }
    }
  }

  lemma {:induction false} ShiftLeftDouble(x: nat, n: nat)
    ensures ShiftLeft(2 * x, n) == 2 * ShiftLeft(x, n)
    decreases n
  {
    if n > 0 {
      ShiftLeftDouble(2 * x, n - 1);
    }
  }

  lemma {:induction false} ShiftedBit(b: nat, n: nat, j: nat)
    requires b <= 1
    ensures Bit(ShiftLeft(b, n), j) == if j == n then b else 0
    decreases n, j
  {
    if n == 0 {
      if j > 0 {
        assert BitXor.Shr(b, j) == BitXor.Shr(0, j - 1);
        ZeroBit(j - 1);
      }
    } else {
      ShiftLeftDouble(b, n - 1);
      var s := ShiftLeft(b, n);
      assert s == 2 * ShiftLeft(b, n - 1);
      if j > 0 {
        ShiftedBit(b, n - 1, j - 1);
        assert Bit(s, j) == Bit(s / 2, j - 1);
      }
    }
  }

  lemma {:induction false} OrBound(x: nat, y: nat, k: nat)
    requires x < ShiftLeft(1, k) && y < ShiftLeft(1, k)
    ensures Or(x, y) < ShiftLeft(1, k)
    decreases k
  {
    if k > 0 && x != 0 && y != 0 {
      ShiftLeftDouble(1, k - 1);
      OrBound(x / 2, y / 2, k - 1);
    }
  }

  lemma {:induction false} ShiftLeftGrows(b: nat, n: nat, k: nat)
    requires b <= 1 && n < k
    ensures ShiftLeft(b, n) < ShiftLeft(1, k)
    decreases n
  {
    ShiftLeftDouble(1, k - 1);
    if n > 0 {
      ShiftLeftGrows(b, n - 1, k - 1);
      ShiftLeftDouble(b, n - 1);
    } else {
      PowPositive(k - 1);
    }
  }

  lemma {:induction false} PowPositive(k: nat)
    ensures ShiftLeft(1, k) >= 1
  {
    if k > 0 {
      ShiftLeftDouble(1, k - 1);
      PowPositive(k - 1);
    }
  }

  // ---------- the pattern ----------

  /** Bytes needed for n bits, with C's truncating division. */
  function PatternBytes(n: int): int {
    if n >= 0 then n / 8 + (if n % 8 == 0 then 0 else 1)
    else -((-n) / 8) + (if (-n) % 8 == 0 then 0 else 1)
  }

  function BitAt(src: seq<nat>, j: nat): nat {
    if j < |src| then src[j] % 2 else 0
  }

  /** The byte holds the first m of the eight pattern bits from base on, the first in the top bit, and zeros. */
  ghost predicate HoldsBits(byte: nat, src: seq<nat>, base: nat, m: nat) {
    byte < 256 && forall j :: 0 <= j < 8 ==> Bit(byte, j) == if 7 - j < m then BitAt(src, base + 7 - j) else 0
  }

  lemma ByteBound(byte: nat, b: nat, n: nat)
    requires byte < 256 && b <= 1 && n < 8
    ensures Or(byte, ShiftLeft(b, n)) < 256
  {
    hide Or;
    assert ShiftLeft(1, 8) == 256;
    var k := 8;
    ShiftLeftGrows(b, n, k);
    OrBound(byte, ShiftLeft(b, n), k);
  }

  lemma AddBit(byte: nat, src: seq<nat>, base: nat, m: nat)
    requires m < 8 && HoldsBits(byte, src, base, m)
    ensures HoldsBits(Or(byte, ShiftLeft(BitAt(src, base + m), 7 - m)), src, base, m + 1)
  {
    hide Bit, ShiftLeft, Or, BitAt;
    var b := BitAt(src, base + m);
    var added := ShiftLeft(b, 7 - m);
    forall j | 0 <= j < 8 ensures Bit(Or(byte, added), j) == if 7 - j < m + 1 then BitAt(src, base + 7 - j) else 0 {
      OrBit(byte, added, j);
      BitAtSmall(src, base + m);
      ShiftedBit(b, 7 - m, j);
      BitAtSmall(src, base + 7 - j);
    }
    BitAtSmall(src, base + m);
    ByteBound(byte, b, 7 - m);
  }

  lemma BitAtSmall(src: seq<nat>, j: nat)
    ensures BitAt(src, j) <= 1
  {
  }

  /** Bytes from at on are the packed pattern. */
  ghost predicate Packed(b: seq<nat>, at: nat, src: seq<nat>, count: nat)
    requires at + count <= |b|
  {
    forall i :: 0 <= i < count ==> HoldsBits(b[at + i], src, 8 * i, 8)
  }

  /** One byte of the pattern; bits past the end of src stay zero. */
  method PackByte(src: seq<nat>, base: nat, remaining: int) returns (byte: nat)
    requires remaining == |src| - base > 0
    ensures HoldsBits(byte, src, base, 8)
  {
    hide Bit, ShiftLeft, Or;
    byte := 0;
    var last := if remaining > 8 then base + 8 else base + remaining;
    var shift := 7;
    var j := base;
    forall k | 0 <= k < 8 ensures Bit(0, k) == 0 {
      ZeroBit(k);
    }
    while j < last
      invariant base <= j <= last && shift == 7 - (j - base)
      invariant HoldsBits(byte, src, base, j - base)
    {
      AddBit(byte, src, base, j - base);
      assert BitAt(src, j) == src[j] % 2;
      byte := Or(byte, ShiftLeft(src[j] % 2, shift));
      shift, j := shift - 1, j + 1;
    }
  }

  /** The packing loop shared by the node's two report writers. */
  method PackPattern(buf: array<nat>, at: nat, src: seq<nat>) returns (next: nat)
    requires at + PatternBytes(|src|) <= buf.Length
    modifies buf
    ensures next == at + PatternBytes(|src|) && Packed(buf[..], at, src, PatternBytes(|src|))
    ensures forall k :: 0 <= k < buf.Length && !(at <= k < next) ==> buf[k] == old(buf[k])
  {
    hide HoldsBits;
    var count: nat := PatternBytes(|src|);
    next := at;
    var remaining: int := |src|;
    var i := 0;
    while i < count
      invariant i <= count && next == at + i && remaining == |src| - 8 * i
      invariant forall k :: 0 <= k < i ==> HoldsBits(buf[at + k], src, 8 * k, 8)
      invariant forall k :: 0 <= k < buf.Length && !(at <= k < next) ==> buf[k] == old(buf[k])
    {
      var byte := PackByte(src, 8 * i, remaining);
      buf[next] := byte;
      next, remaining, i := next + 1, remaining - 8, i + 1;
    }
  }

  // ---------- integers ----------

  function IntByte(v: nat, k: nat): nat {
    if k == 0 then v % 256 else IntByte(v / 256, k - 1)
  }

  /** The four bytes at i as the C int they are copied into. */
  function ReadInt(b: seq<nat>, i: nat): int
    requires i + 4 <= |b|
  {
    var u := b[i] + 256 * b[i + 1] + 65536 * b[i + 2] + 16777216 * b[i + 3];
    if u >= INT_LIMIT then u - 2 * INT_LIMIT else u
  }

  /** An int as the four bytes hold it. */
  function Unsigned(v: int): nat {
    v % (2 * INT_LIMIT)
  }

  ghost predicate HoldsInt(b: seq<nat>, i: nat, v: int)
    requires i + 4 <= |b|
  {
    var v := Unsigned(v);
    b[i] == IntByte(v, 0) && b[i + 1] == IntByte(v, 1) && b[i + 2] == IntByte(v, 2) && b[i + 3] == IntByte(v, 3)
  }

  lemma IntRoundTrip(b: seq<nat>, i: nat, v: int)
    requires i + 4 <= |b| && HoldsInt(b, i, v) && -INT_LIMIT <= v < INT_LIMIT
    ensures ReadInt(b, i) == v
  {
    hide IntByte, Unsigned;
    var u := Unsigned(v);
    UnsignedBack(v);
    Radix(u);
  }

  /** A number below 2^32 is its four bytes. */
  lemma Radix(u: nat)
    requires u < 2 * INT_LIMIT
    ensures u == IntByte(u, 0) + 256 * IntByte(u, 1) + 65536 * IntByte(u, 2) + 16777216 * IntByte(u, 3)
  {
    var q := u / 256;
    var p := q / 256;
    var o := p / 256;
    assert IntByte(u, 3) == IntByte(q, 2) == IntByte(p, 1) == IntByte(o, 0) == o % 256;
    assert IntByte(u, 2) == IntByte(q, 1) == IntByte(p, 0) == p % 256;
    assert IntByte(u, 1) == IntByte(q, 0) == q % 256;
    hide IntByte;
    RadixSum(u, q, p, o);
  }

  lemma RadixSum(u: nat, q: nat, p: nat, o: nat)
    requires u < 2 * INT_LIMIT && q == u / 256 && p == q / 256 && o == p / 256
    ensures u == u % 256 + 256 * (q % 256) + 65536 * (p % 256) + 16777216 * (o % 256)
  {
    assert u == 256 * q + u % 256 && q == 256 * p + q % 256 && p == 256 * o + p % 256;
    assert o < 256;
  }

  lemma UnsignedBack(v: int)
    requires -INT_LIMIT <= v < INT_LIMIT
    ensures Unsigned(v) == if v >= 0 then v else v + 2 * INT_LIMIT
  {
  }

  method WriteInt(buf: array<nat>, at: nat, v: int)
    requires at + 4 <= buf.Length
    modifies buf
    ensures HoldsInt(buf[..], at, v)
    ensures forall k :: 0 <= k < buf.Length && !(at <= k < at + 4) ==> buf[k] == old(buf[k])
  {
    var u := Unsigned(v);
    buf[at], buf[at + 1] := IntByte(u, 0), IntByte(u, 1);
    buf[at + 2], buf[at + 3] := IntByte(u, 2), IntByte(u, 3);
  }

  // ---------- the report ----------

  function Length(n: int, nVlc: nat): int {
    9 + PatternBytes(n) + 1 + 2 * nVlc
  }

  ghost predicate HoldsEntries(b: seq<nat>, at: nat, vlc: seq<VlcInfo>)
    requires at + 1 + 2 * |vlc| <= |b|
  {
    && b[at] == |vlc| % 256
    && (forall i :: 0 <= i < |vlc| ==> b[at + 1 + 2 * i] == vlc[i].txId % 256 && b[at + 2 + 2 * i] == vlc[i].linkQuality % 256)
  }

  /** b starts with the report for this node, acknowledgement number, pattern and link entries. */
  ghost predicate IsReport(b: seq<nat>, nodeId: int, ack: int, src: seq<nat>, vlc: seq<VlcInfo>) {
    && |b| >= Length(|src|, |vlc|)
    && b[0] == nodeId % 256 && HoldsInt(b, 1, ack) && HoldsInt(b, 5, |src|)
    && Packed(b, 9, src, PatternBytes(|src|))
    && HoldsEntries(b, 9 + PatternBytes(|src|), vlc)
  }

  method WriteEntries(buf: array<nat>, at: nat, vlc: seq<VlcInfo>) returns (next: nat)
    requires at + 1 + 2 * |vlc| <= buf.Length
    modifies buf
    ensures next == at + 1 + 2 * |vlc| && HoldsEntries(buf[..], at, vlc)
    ensures forall k :: 0 <= k < buf.Length && !(at <= k < next) ==> buf[k] == old(buf[k])
  {
    buf[at] := |vlc| % 256;
    next := at + 1;
    var i := 0;
    while i < |vlc|
      invariant i <= |vlc| && next == at + 1 + 2 * i && buf[at] == |vlc| % 256
      invariant forall k :: 0 <= k < i ==> buf[at + 1 + 2 * k] == vlc[k].txId % 256 && buf[at + 2 + 2 * k] == vlc[k].linkQuality % 256
      invariant forall k :: 0 <= k < buf.Length && !(at <= k < next) ==> buf[k] == old(buf[k])
    {
      buf[next] := vlc[i].txId % 256;
      buf[next + 1] := vlc[i].linkQuality % 256;
      next, i := next + 2, i + 1;
    }
  }

  /** The report from at on in a buffer large enough for it; the bytes before it keep their values. */
  method WriteReport(buf: array<nat>, at: nat, nodeId: int, ack: int, src: seq<nat>, vlc: seq<VlcInfo>) returns (next: nat)
    requires at + Length(|src|, |vlc|) <= buf.Length
    modifies buf
    ensures next == at + Length(|src|, |vlc|) && IsReport(buf[at..next], nodeId, ack, src, vlc)
    ensures buf[..at] == old(buf[..at])
  {
    hide HoldsBits, HoldsInt, IntByte, HoldsEntries;
    buf[at] := nodeId % 256;
    WriteInt(buf, at + 1, ack);
    ghost var a := buf[..];
    WriteInt(buf, at + 5, |src|);
    ghost var b := buf[..];
    next := PackPattern(buf, at + 9, src);
    ghost var c := buf[..];
    ghost var middle := next;
    next := WriteEntries(buf, next, vlc);
    ghost var d := buf[..];
    Assembled(a, b, c, d, at, middle, next, nodeId, ack, src, vlc);
  }

  /** The pieces written one after the other make the report. */
  lemma Assembled(a: seq<nat>, b: seq<nat>, c: seq<nat>, d: seq<nat>, at: nat, middle: nat, next: nat,
                  nodeId: int, ack: int, src: seq<nat>, vlc: seq<VlcInfo>)
    requires at + 9 <= middle == at + 9 + PatternBytes(|src|) && next == middle + 1 + 2 * |vlc| <= |a| == |b| == |c| == |d|
    requires a[at] == nodeId % 256 && HoldsInt(a, at + 1, ack)
    requires HoldsInt(b, at + 5, |src|) && forall k :: 0 <= k < |a| && !(at + 5 <= k < at + 9) ==> b[k] == a[k]
    requires Packed(c, at + 9, src, middle - at - 9) && forall k :: 0 <= k < |a| && !(at + 9 <= k < middle) ==> c[k] == b[k]
    requires HoldsEntries(d, middle, vlc) && forall k :: 0 <= k < |a| && !(middle <= k < next) ==> d[k] == c[k]
    ensures IsReport(d[at..next], nodeId, ack, src, vlc)
  {
    hide HoldsBits, IntByte;
    var r := d[at..next];
    forall i | 0 <= i < PatternBytes(|src|) ensures HoldsBits(r[9 + i], src, 8 * i, 8) {
      assert r[9 + i] == d[at + 9 + i] == c[at + 9 + i];
    }
  }

  // ---------- the gateway's parser ----------

  /** Pattern bytes the loop reads; none for a length of -8 or less. */
  function ReadBytes(n: int): nat {
    if PatternBytes(n) > 0 then PatternBytes(n) else 0
  }

  /** The gateway has received as many bytes as the report says it has. */
  predicate Complete(b: seq<nat>) {
    |b| >= 9 && var at := 9 + ReadBytes(ReadInt(b, 5)); at < |b| && at + 1 + 2 * b[at] <= |b|
  }

  /** What the bytes mean. */
  function Meaning(b: seq<nat>): Report
    requires Complete(b)
  {
    var n := ReadInt(b, 5);
    var at := 9 + ReadBytes(n);
    Report(b[0], ReadInt(b, 1), n,
           seq(if n > 0 then n else 0, k requires 0 <= k < n => Bit(b[9 + k / 8], 7 - k % 8)),
           seq(b[at], i requires 0 <= i < b[at] => VlcInfo(b[at + 1 + 2 * i], b[at + 2 + 2 * i])))
  }

  /** The bits of one byte, from the top bit down to the last one wanted. */
  method UnpackByte(pattern: seq<nat>, byte: nat, remaining: int) returns (r: seq<nat>)
    ensures var m := if remaining >= 8 then 8 else if remaining > 0 then remaining else 0;
      |r| == |pattern| + m && r[..|pattern|] == pattern && forall k :: |pattern| <= k < |r| ==> r[k] == Bit(byte, 7 + |pattern| - k)
  {
    hide Bit;
    var until := if remaining >= 8 then 0 else 8 - remaining;
    r := pattern;
    var j := 7;
    while j >= until
      invariant -1 <= j <= 7 && (j >= until - 1 || j == 7) && |r| == |pattern| + (7 - j) && r[..|pattern|] == pattern
      invariant forall k :: |pattern| <= k < |r| ==> r[k] == Bit(byte, 7 + |pattern| - k)
    {
      r := r + [Bit(byte, j)];
      j := j - 1;
    }
  }

  method GenerateFromString(b: seq<nat>) returns (r: Report)
    requires Complete(b)
    ensures r == Meaning(b)
  {
    hide Bit;
    var n := ReadInt(b, 5);
    var count := PatternBytes(n);
    var pattern: seq<nat>, remaining, idx, i := [], n, 9, 0;
    while i < count
      invariant 0 <= i <= ReadBytes(n) && idx == 9 + i && remaining == n - 8 * i
      invariant |pattern| == if n <= 0 then 0 else if 8 * i <= n then 8 * i else n
      invariant forall k :: 0 <= k < |pattern| ==> pattern[k] == Bit(b[9 + k / 8], 7 - k % 8)
    {
      ghost var was := pattern;
      pattern := UnpackByte(pattern, b[idx], remaining);
      Appended(b, was, pattern, i);
      idx, remaining, i := idx + 1, remaining - 8, i + 1;
    }
    var nVlc := b[idx];
    idx := idx + 1;
    var vlc: seq<VlcInfo> := [];
    i := 0;
    while i < nVlc
      invariant 0 <= i <= nVlc == b[9 + ReadBytes(n)] && idx == 10 + ReadBytes(n) + 2 * i && |vlc| == i
      invariant forall k :: 0 <= k < i ==> vlc[k] == VlcInfo(b[10 + ReadBytes(n) + 2 * k], b[11 + ReadBytes(n) + 2 * k])
    {
      vlc := vlc + [VlcInfo(b[idx], b[idx + 1])];
      idx, i := idx + 2, i + 1;
    }
    r := Report(b[0], ReadInt(b, 1), n, pattern, vlc);
    assert r.pattern == Meaning(b).pattern;
    assert r.vlc == Meaning(b).vlc;
  }

  lemma EighthPart(k: nat, i: nat)
    requires 8 * i <= k < 8 * i + 8
    ensures k / 8 == i && k % 8 == k - 8 * i
  {
  }

  lemma Appended(b: seq<nat>, was: seq<nat>, now: seq<nat>, i: nat)
    requires |was| <= |now| <= |was| + 8 && now[..|was|] == was && 9 + i < |b|
    requires |was| < |now| ==> |was| == 8 * i
    requires |was| <= 8 * i
    requires forall k :: 0 <= k < |was| ==> was[k] == Bit(b[9 + k / 8], 7 - k % 8)
    requires forall k :: |was| <= k < |now| ==> now[k] == Bit(b[9 + i], 7 + |was| - k)
    ensures forall k :: 0 <= k < |now| ==> k / 8 <= i && now[k] == Bit(b[9 + k / 8], 7 - k % 8)
  {
    hide Bit;
    forall k | 0 <= k < |now| ensures k / 8 <= i && now[k] == Bit(b[9 + k / 8], 7 - k % 8) {
      if k < |was| {
        assert now[..|was|][k] == was[k];
      } else {
        EighthPart(k, i);
      }
    }
  }

  // ---------- exactness ----------

  /** Parsing gives back everything that was written, modulo the byte masks of the writer. */
  lemma RoundTrip(b: seq<nat>, nodeId: int, ack: int, src: seq<nat>, vlc: seq<VlcInfo>)
    requires IsReport(b, nodeId, ack, src, vlc) && -INT_LIMIT <= ack < INT_LIMIT && |src| < INT_LIMIT && |vlc| < 256
    ensures Complete(b)
    ensures Meaning(b).nodeId == nodeId % 256 && Meaning(b).ackNumber == ack && Meaning(b).patternLength == |src|
    ensures |Meaning(b).pattern| == |src| && forall k :: 0 <= k < |src| ==> Meaning(b).pattern[k] == src[k] % 2
    ensures |Meaning(b).vlc| == |vlc|
    ensures forall i :: 0 <= i < |vlc| ==> Meaning(b).vlc[i] == VlcInfo(vlc[i].txId % 256, vlc[i].linkQuality % 256)
  {
    hide Bit, HoldsInt, ReadInt;
    IntRoundTrip(b, 1, ack);
    IntRoundTrip(b, 5, |src|);
    forall k | 0 <= k < |src| ensures Meaning(b).pattern[k] == src[k] % 2 {
      PackedBit(b, src, k);
    }
  }

  lemma PackedBit(b: seq<nat>, src: seq<nat>, k: nat)
    requires k < |src| && |b| >= 9 + PatternBytes(|src|) && Packed(b, 9, src, PatternBytes(|src|))
    ensures Bit(b[9 + k / 8], 7 - k % 8) == src[k] % 2
  {
    hide Bit;
    var i, j := k / 8, 7 - k % 8;
    assert HoldsBits(b[9 + i], src, 8 * i, 8);
    assert Bit(b[9 + i], j) == BitAt(src, 8 * i + 7 - j);
  }

  /** The node's writer of a report packet. */
  method ConvertToString(p: Report) returns (buf: array<nat>, reportLength: nat)
    requires p.patternLength == |p.pattern|
    requires Length(|p.pattern|, |p.vlc|) <= 1000
    ensures buf.Length == 1000 && reportLength == Length(|p.pattern|, |p.vlc|)
    ensures IsReport(buf[..reportLength], p.nodeId, p.ackNumber, p.pattern, p.vlc)
  {
    hide IsReport;
    buf := new nat[1000];
    reportLength := WriteReport(buf, 0, p.nodeId, p.ackNumber, p.pattern, p.vlc);
    assert buf[0..reportLength] == buf[..reportLength];
  }

  /** The entries send_report puts in: transmitters are numbered from 1. */
  function Links(quality: seq<int>): seq<VlcInfo> {
    seq(|quality|, i requires 0 <= i < |quality| => VlcInfo(i + 1, quality[i]))
  }

  /** The link entries on the line: transmitters counted from 1, each with its quality. */
  ghost predicate LinksWritten(b: seq<nat>, at: nat, quality: seq<int>) {
    && at + 1 + 2 * |quality| <= |b| && b[at] == |quality| % 256
    && forall i :: 0 <= i < |quality| ==> b[at + 1 + 2 * i] == (i + 1) % 256 && b[at + 2 + 2 * i] == quality[i] % 256
  }

  /** The node sends its window; sendbuf keeps the Ethernet header before the report. */
  method SendReport(status: NodeStatus, sendbuf: array<nat>, nodeId: int, quality: seq<int>, ghost h: seq<nat>) returns (txLen: nat)
    requires Epoch(h) && status.Value() == Run(h) && status.rcvState != sendbuf
    requires ETHER_HEADER + Length(status.lastRcvSeq - status.rcvSeq + 1, |quality|) <= sendbuf.Length
    modifies sendbuf
    ensures ETHER_HEADER <= txLen <= sendbuf.Length && sendbuf[..ETHER_HEADER] == old(sendbuf[..ETHER_HEADER])
    ensures var s := Run(h);
      && s.rcvSeq <= s.lastRcvSeq + 1 <= |s.rcvState|
      && IsReport(sendbuf[ETHER_HEADER..txLen], nodeId, s.rcvSeq, s.rcvState[s.rcvSeq..s.lastRcvSeq + 1], Links(quality))
      && LinksWritten(sendbuf[ETHER_HEADER..txLen], 9 + PatternBytes(s.lastRcvSeq - s.rcvSeq + 1), quality)
  {
    hide IsReport, Run, Floor;
    ghost var s := Run(h);
    assert s.rcvSeq == status.rcvSeq && s.lastRcvSeq == status.lastRcvSeq;
    var window := status.rcvState[status.rcvSeq..status.lastRcvSeq + 1];
    assert window == s.rcvState[s.rcvSeq..s.lastRcvSeq + 1];
    txLen := WriteReport(sendbuf, ETHER_HEADER, nodeId, status.rcvSeq, window, Links(quality));
    EntriesOf(sendbuf[ETHER_HEADER..txLen], nodeId, status.rcvSeq, window, quality);
  }

  lemma EntriesOf(b: seq<nat>, nodeId: int, ack: int, src: seq<nat>, quality: seq<int>)
    requires IsReport(b, nodeId, ack, src, Links(quality))
    ensures LinksWritten(b, 9 + PatternBytes(|src|), quality)
  {
    hide HoldsInt, HoldsBits;
    var at, vlc := 9 + PatternBytes(|src|), Links(quality);
    assert |vlc| == |quality| && HoldsEntries(b, at, vlc);
    forall i | 0 <= i < |quality| ensures b[at + 1 + 2 * i] == (i + 1) % 256 && b[at + 2 + 2 * i] == quality[i] % 256 {
      assert vlc[i] == VlcInfo(i + 1, quality[i]);
    }
  }

  /** After any history, the report that arrives at the gateway says exactly which numbers from the acknowledgement number up to the largest
      were received, and names each transmitter with its link quality. */
  method ReportExact(status: NodeStatus, sendbuf: array<nat>, nodeId: nat, quality: seq<int>, ghost h: seq<nat>) returns (r: Report)
    requires Epoch(h) && status.Value() == Run(h) && status.rcvState != sendbuf
    requires nodeId < 256 && |quality| < 256 && forall i :: 0 <= i < |quality| ==> 0 <= quality[i] < 256
    requires ETHER_HEADER + Length(status.lastRcvSeq - status.rcvSeq + 1, |quality|) <= sendbuf.Length
    modifies sendbuf
    ensures r.nodeId == nodeId && r.ackNumber == Run(h).rcvSeq
    ensures |r.vlc| == |quality| && forall i :: 0 <= i < |quality| ==> r.vlc[i].txId == i + 1 && r.vlc[i].linkQuality == quality[i]
    ensures r.patternLength == |r.pattern| == Run(h).lastRcvSeq - Run(h).rcvSeq + 1
    ensures forall k :: 0 <= k < |r.pattern| ==> r.pattern[k] <= 1 && (r.pattern[k] == 1 <==> r.ackNumber + k in h)
  {
    hide IsReport, Run, Floor, Meaning, Links, LinksWritten, Inv, Epoch, PatternBytes;
    RunShape(h);
    LinksLength(quality);
    var txLen := SendReport(status, sendbuf, nodeId, quality, h);
    ghost var s := Run(h);
    ghost var window := s.rcvState[s.rcvSeq..s.lastRcvSeq + 1];
    ghost var b := sendbuf[ETHER_HEADER..txLen];
    RoundTrip(b, nodeId, s.rcvSeq, window, Links(quality));
    r := GenerateFromString(sendbuf[ETHER_HEADER..txLen]);
    ParsedLinks(r.vlc, quality);
    BitsAreArrivals(h, r.pattern);
  }

  lemma LinksLength(quality: seq<int>)
    ensures |Links(quality)| == |quality|
  {
  }

  lemma ParsedLinks(vlc: seq<VlcInfo>, quality: seq<int>)
    requires |quality| < 256 && forall i :: 0 <= i < |quality| ==> 0 <= quality[i] < 256
    requires |vlc| == |Links(quality)|
    requires forall i :: 0 <= i < |vlc| ==> vlc[i] == VlcInfo(Links(quality)[i].txId % 256, Links(quality)[i].linkQuality % 256)
    ensures |vlc| == |quality| && forall i :: 0 <= i < |quality| ==> vlc[i].txId == i + 1 && vlc[i].linkQuality == quality[i]
  {
  }

  /** The bits of the window are the arrivals. */
  lemma BitsAreArrivals(h: seq<nat>, pattern: seq<nat>)
    requires Epoch(h) && |pattern| == Run(h).lastRcvSeq - Run(h).rcvSeq + 1 && Run(h).lastRcvSeq < |Run(h).rcvState|
    requires forall k :: 0 <= k < |pattern| ==> pattern[k] == Run(h).rcvState[Run(h).rcvSeq..Run(h).lastRcvSeq + 1][k] % 2
    ensures forall k :: 0 <= k < |pattern| ==> pattern[k] <= 1 && (pattern[k] == 1 <==> Run(h).rcvSeq + k in h)
  {
    hide Run, Floor, Inv;
    RunShape(h);
    var s := Run(h);
    forall k | 0 <= k < |pattern| ensures pattern[k] <= 1 && (pattern[k] == 1 <==> s.rcvSeq + k in h) {
      assert s.rcvState[s.rcvSeq..s.lastRcvSeq + 1][k] == s.rcvState[s.rcvSeq + k];
    }
  }
}
