/** The line code shared by the two PRU programs: preamble, start-of-frame
    delimiter, and two raw bits for every data bit. */
module LinkCoding {
  import opened BitXor

  const PREAMBLE_LEN := 3
  const SFD := 0xA3
  const PAYLOAD_LEN := 74
  const ECC_LEN := 16
  /** Two addresses, the sequence number and the parity, as the receiver counts them. */
  const OTHER_PACKET_CONTENT_BYTE := 2 * 2 + 4 + ECC_LEN
  /** What the drivers add to the payload length: two addresses, the sequence number and the length field itself. */
  const HEADER := 2 * 2 + 4 + 2
  /** The longest payload the receiving driver accepts. */
  const MTU_VALUE := 150
  const BUFFER_START := 4
  const BUFFER_LIMIT := 6004

  /** Bytes of a frame after the length field. */
  const BODY_LEN := PAYLOAD_LEN + OTHER_PACKET_CONTENT_BYTE
  /** A frame in memory: length field and body. */
  const SLOT := BODY_LEN + 2

  ghost predicate IsBits(s: seq<nat>) {
    forall i :: 0 <= i < |s| ==> s[i] <= 1
  }

  ghost predicate IsBytes(s: seq<nat>) {
    forall i :: 0 <= i < |s| ==> s[i] < 256
  }

  /** Two bytes, the low one first. */
  function Le16(s: seq<nat>, i: nat): nat
    requires i + 1 < |s|
  {
    s[i] + 256 * s[i + 1]
  }

  /** HIGH is sent as low-high, LOW as high-low. */
  function Pair(d: nat): seq<nat> {
    if d == 1 then [0, 1] else [1, 0]
  }

  /** The low n bits of v, most significant first, in line code. */
  function CodeBits(v: nat, n: nat): (r: seq<nat>)
    ensures |r| == 2 * n
  {
    if n == 0 then [] else Pair(Shr(v, n - 1) % 2) + CodeBits(v, n - 1)
  }

  function CodeBytes(bytes: seq<nat>): (r: seq<nat>)
    ensures |r| == 16 * |bytes|
  {
    if |bytes| == 0 then [] else CodeBits(bytes[0], 8) + CodeBytes(bytes[1..])
  }

  /** The symbols k+1, ..., 8 of an alternating preamble byte. */
  function Alternating(k: nat): seq<nat>
    decreases 8 - k
  {
    if k >= 8 then [] else [(k + 1) % 2] + Alternating(k + 1)
  }

  /** Preamble, delimiter and length of a frame. */
  function Opening(): seq<nat> {
    Alternating(0) + Alternating(0) + Alternating(0) + CodeBits(SFD, 8) + CodeBits(PAYLOAD_LEN, 16)
  }

  /** A frame on the line. */
  function FrameBits(len: nat, body: seq<nat>): seq<nat> {
    Alternating(0) + Alternating(0) + Alternating(0) + CodeBits(SFD, 8) + CodeBits(len, 16) + CodeBytes(body)
  }

  /** The byte a receiver in the body makes of any n pairs: each pair counts by its first bit alone. */
  function RawBits(raw: seq<nat>, n: nat): nat
    requires |raw| == 2 * n && forall i :: 0 <= i < |raw| ==> raw[i] <= 1
  {
    if n == 0 then 0 else (1 - raw[0]) * Pow2(n - 1) + RawBits(raw[2..], n - 1)
  }

  /** The bytes behind a stretch of raw bits. */
  function RawBytes(raw: seq<nat>, n: nat): (r: seq<nat>)
    requires |raw| == 16 * n && forall i :: 0 <= i < |raw| ==> raw[i] <= 1
    ensures |r| == n
  {
    if n == 0 then [] else [RawBits(raw[..16], 8)] + RawBytes(raw[16..], n - 1)
  }

  lemma {:induction false} CodeBitsAreBits(v: nat, n: nat)
    ensures IsBits(CodeBits(v, n))
  {
    if n > 0 {
      CodeBitsAreBits(v, n - 1);
    }
  }

  lemma {:induction false} CodeBytesAreBits(bytes: seq<nat>)
    ensures IsBits(CodeBytes(bytes))
  {
    if |bytes| > 0 {
      CodeBitsAreBits(bytes[0], 8);
      CodeBytesAreBits(bytes[1..]);
    }
  }

  lemma {:induction false} CodeSplit(v: nat, n: nat, k: nat)
    ensures CodeBits(v, n + k) == CodeBits(Shr(v, k), n) + CodeBits(v, k)
    decreases n
  {
    hide Shr;
    if n == 0 {
      assert CodeBits(Shr(v, k), 0) == [];
    } else {
      CodeSplit(v, n - 1, k);
      ShrAdd(v, k, n - 1);
      assert k + (n - 1) == n + k - 1;
    }
  }

  /** Bits from place k up do not show in the low k bits. */
  lemma {:induction false} CodeLow(h: nat, l: nat, k: nat, n: nat)
    requires l < Pow2(k) && n <= k
    ensures CodeBits(h * Pow2(k) + l, n) == CodeBits(l, n)
    decreases n
  {
    hide Shr;
    if n > 0 {
      CodeLow(h, l, k, n - 1);
      ShrBelow(h, l, k, n - 1);
      EvenTop(h, Pow2(k - n), Shr(l, n - 1));
      assert k - (n - 1) == k - n + 1;
    }
  }

  /** Half bytes. */
  lemma CodeNibbles(v: nat, h: nat, l: nat, k: nat)
    requires v == h * Pow2(k) + l && l < Pow2(k)
    ensures CodeBits(v, k + k) == CodeBits(h, k) + CodeBits(l, k)
  {
    hide Shr, CodeBits;
    CodeSplit(v, k, k);
    ShrBelow(h, l, k, k);
    ShrSmallZero(l, k);
    CodeLow(h, l, k, k);
    assert Pow2(k - k) == 1;
  }

  lemma {:induction false} CodeBytesConcat(a: seq<nat>, b: seq<nat>)
    ensures CodeBytes(a + b) == CodeBytes(a) + CodeBytes(b)
    decreases |a|
  {
    hide CodeBits;
    if a == [] {
      assert a + b == b;
    } else {
      CodeBytesConcat(a[1..], b);
      assert (a + b)[1..] == a[1..] + b;
    }
  }

  /** The top bit of the low n bits. */
  lemma {:induction false} LowTop(v: nat, n: nat)
    requires n > 0
    ensures Low(v, n) == (Shr(v, n - 1) % 2) * Pow2(n - 1) + Low(v, n - 1)
  {
    if n > 1 {
      LowTop(v / 2, n - 1);
      var b, p := Shr(v / 2, n - 2) % 2, Pow2(n - 2);
      assert Shr(v, n - 1) % 2 == b && Pow2(n - 1) == 2 * p;
      assert Low(v, n) == v % 2 + 2 * Low(v / 2, n - 1) && Low(v, n - 1) == v % 2 + 2 * Low(v / 2, n - 2);
      hide Low, Shr, Pow2;
      Twice(b, p);
    } else {
      assert Low(v, 1) == v % 2 && Low(v, 0) == 0 && Shr(v, 0) == v && Pow2(0) == 1;
    }
  }

  lemma Twice(b: nat, p: nat)
    ensures b * (2 * p) == 2 * (b * p)
  {
  }

  /** Decoding undoes coding. */
  lemma {:induction false} RawOfCode(v: nat, n: nat)
    ensures IsBits(CodeBits(v, n)) && RawBits(CodeBits(v, n), n) == Low(v, n)
  {
    CodeBitsAreBits(v, n);
    if n > 0 {
      RawOfCode(v, n - 1);
      LowTop(v, n);
      assert CodeBits(v, n)[2..] == CodeBits(v, n - 1);
    }
  }

  lemma {:induction false} RawOfCodeBytes(bytes: seq<nat>)
    requires IsBytes(bytes)
    ensures IsBits(CodeBytes(bytes)) && RawBytes(CodeBytes(bytes), |bytes|) == bytes
  {
    CodeBytesAreBits(bytes);
    if |bytes| > 0 {
      RawOfCodeBytes(bytes[1..]);
      RawOfCode(bytes[0], 8);
      LowSmall(bytes[0], 8) by { ByteSize(); }
      var c := CodeBytes(bytes);
      assert c[..16] == CodeBits(bytes[0], 8) && c[16..] == CodeBytes(bytes[1..]);
    }
  }

  /** Raw damage confined to the stretches of some bytes leaves every other byte alone. */
  lemma {:induction false} RawBytesLocal(a: seq<nat>, b: seq<nat>, n: nat, j: nat)
    requires |a| == |b| == 16 * n && IsBits(a) && IsBits(b) && j < n
    requires a[16 * j..16 * j + 16] == b[16 * j..16 * j + 16]
    ensures RawBytes(a, n)[j] == RawBytes(b, n)[j]
  {
    if j == 0 {
      assert a[..16] == a[16 * j..16 * j + 16] && b[..16] == b[16 * j..16 * j + 16];
    } else {
      assert a[16..][16 * (j - 1)..16 * (j - 1) + 16] == a[16 * j..16 * j + 16];
      assert b[16..][16 * (j - 1)..16 * (j - 1) + 16] == b[16 * j..16 * j + 16];
      RawBytesLocal(a[16..], b[16..], n - 1, j - 1);
    }
  }

  /** Bits above x, shifted right by no more than the places below them. */
  lemma {:induction false} ShrBelow(b: nat, x: nat, n: nat, j: nat)
    requires x < Pow2(n) && j <= n
    ensures Shr(b * Pow2(n) + x, j) == b * Pow2(n - j) + Shr(x, j)
    decreases j
  {
    if j > 0 {
      var v, p := b * Pow2(n) + x, Pow2(n - 1);
      assert Pow2(n) == 2 * p;
      Twice(b, p);
      assert v / 2 == b * p + x / 2;
      ShrBelow(b, x / 2, n - 1, j - 1);
    }
  }

  lemma {:induction false} ShrSmallZero(x: nat, n: nat)
    requires x < Pow2(n)
    ensures Shr(x, n) == 0
  {
    if n > 0 {
      ShrSmallZero(x / 2, n - 1);
    }
  }

  /** A bit of a number with top bit b in place n. */
  lemma BitBelow(b: nat, x: nat, n: nat, j: nat)
    requires b <= 1 && x < Pow2(n) && j <= n
    ensures Shr(b * Pow2(n) + x, j) % 2 == if j == n then b else Shr(x, j) % 2
  {
    hide Shr;
    ShrBelow(b, x, n, j);
    if j == n {
      ShrSmallZero(x, n);
      assert Pow2(n - j) == 1;
    } else {
      EvenTop(b, Pow2(n - j - 1), Shr(x, j));
      assert Pow2(n - j) == 2 * Pow2(n - j - 1);
    }
  }

  lemma RawBitsFirst(raw: seq<nat>, n: nat)
    requires |raw| == 2 * n && IsBits(raw) && n > 0
    ensures IsBits(raw[2..]) && RawBits(raw, n) == (1 - raw[0]) * Pow2(n - 1) + RawBits(raw[2..], n - 1)
  {
  }

  /** Bit j of the decoded value is decided by the first raw bit of its own pair. */
  lemma {:induction false} RawBit(raw: seq<nat>, n: nat, j: nat)
    requires |raw| == 2 * n && IsBits(raw) && j < n
    ensures Shr(RawBits(raw, n), j) % 2 == 1 - raw[2 * (n - 1 - j)]
    decreases n
  {
    hide RawBits, Shr, Pow2;
    RawBitsFirst(raw, n);
    RawBitsRange(raw[2..], n - 1);
    BitBelow(1 - raw[0], RawBits(raw[2..], n - 1), n - 1, j);
    if j < n - 1 {
      RawBit(raw[2..], n - 1, j);
    }
  }

  lemma EvenTop(b: nat, p: nat, y: nat)
    ensures (b * (2 * p) + y) % 2 == y % 2
  {
    Twice(b, p);
  }

  /** Two pair sequences that differ only in pair k decode to values that agree in every bit but the one it stands for, and in that one
      as well unless the first bits of the pair differ. */
  lemma OnePairOneBit(a: seq<nat>, b: seq<nat>, n: nat, k: nat)
    requires |a| == |b| == 2 * n && IsBits(a) && IsBits(b) && k < n
    requires forall i :: 0 <= i < 2 * n && i != 2 * k && i != 2 * k + 1 ==> a[i] == b[i]
    ensures forall j: nat :: j < n && j != n - 1 - k ==> Shr(RawBits(a, n), j) % 2 == Shr(RawBits(b, n), j) % 2
    ensures Shr(RawBits(a, n), n - 1 - k) % 2 == Shr(RawBits(b, n), n - 1 - k) % 2 <==> a[2 * k] == b[2 * k]
    ensures a[2 * k] == b[2 * k] ==> RawBits(a, n) == RawBits(b, n)
  {
    hide RawBits, Shr;
    forall j: nat | j < n && j != n - 1 - k ensures Shr(RawBits(a, n), j) % 2 == Shr(RawBits(b, n), j) % 2 {
      RawBit(a, n, j);
      RawBit(b, n, j);
      assert 2 * (n - 1 - j) != 2 * k && 2 * (n - 1 - j) != 2 * k + 1;
    }
    RawBit(a, n, n - 1 - k);
    RawBit(b, n, n - 1 - k);
    if a[2 * k] == b[2 * k] {
      FirstBitsDecide(a, b, n);
    }
  }

  /** Only the first raw bit of each pair counts. */
  lemma {:induction false} FirstBitsDecide(a: seq<nat>, b: seq<nat>, n: nat)
    requires |a| == |b| == 2 * n && IsBits(a) && IsBits(b)
    requires forall i :: 0 <= i < 2 * n && i % 2 == 0 ==> a[i] == b[i]
    ensures RawBits(a, n) == RawBits(b, n)
  {
    if n > 0 {
      FirstBitsDecide(a[2..], b[2..], n - 1);
    }
  }

  lemma {:induction false} RawBitsRange(raw: seq<nat>, n: nat)
    requires |raw| == 2 * n && IsBits(raw)
    ensures RawBits(raw, n) < Pow2(n)
  {
    if n > 0 {
      RawBitsRange(raw[2..], n - 1);
    }
  }
}
