/** Bitwise exclusive-or on natural numbers, the addition of every field of
    characteristic two, with the facts about powers of two that the table
    construction and the bit packing need. */
module BitXor {

  function Pow2(k: nat): (r: nat)
    ensures r > 0
  {
    if k == 0 then 1 else 2 * Pow2(k - 1)
  }

  lemma ByteSize()
    ensures Pow2(8) == 256
  {
    assert Pow2(4) == 16;
  }

  /** The C operator ^ on non-negative operands. */
  function Xor(a: nat, b: nat): nat
    decreases a + b
  {
    if a == 0 then b
    else if b == 0 then a
    else (a + b) % 2 + 2 * Xor(a / 2, b / 2)
  }

  lemma XorBit(a: nat, b: nat)
    ensures Xor(a, b) % 2 == (a + b) % 2
    ensures Xor(a, b) / 2 == Xor(a / 2, b / 2)
  {
    if a != 0 && b != 0 {
      var r, x := (a + b) % 2, Xor(a / 2, b / 2);
      assert Xor(a, b) == r + 2 * x;
      hide Xor;
      Halves(r, x);
    }
  }

  lemma Halves(r: nat, x: nat)
    requires r < 2
    ensures (r + 2 * x) % 2 == r && (r + 2 * x) / 2 == x
  {
  }

  lemma {:induction false} XorComm(a: nat, b: nat)
    ensures Xor(a, b) == Xor(b, a)
    decreases a + b
  {
    if a != 0 && b != 0 {
      XorComm(a / 2, b / 2);
    }
  }

  lemma {:induction false} XorAssoc(a: nat, b: nat, c: nat)
    ensures Xor(Xor(a, b), c) == Xor(a, Xor(b, c))
    decreases a + b + c
  {
    hide Xor;
    XorZero(a);
    XorZero(b);
    XorZero(c);
    if a == 0 || b == 0 || c == 0 {
      XorZero(Xor(a, b));
      XorZero(Xor(b, c));
    } else {
      XorBit(a, b);
      XorBit(b, c);
      XorBit(Xor(a, b), c);
      XorBit(a, Xor(b, c));
      ParitySum(Xor(a, b), c, a + b, c);
      ParitySum(a, Xor(b, c), a, b + c);
      XorAssoc(a / 2, b / 2, c / 2);
      SameHalves(Xor(Xor(a, b), c), Xor(a, Xor(b, c)));
    }
  }

  lemma {:induction false} XorSelf(a: nat)
    ensures Xor(a, a) == 0
  {
    if a != 0 {
      XorSelf(a / 2);
    }
  }

  lemma XorZero(a: nat)
    ensures Xor(a, 0) == a && Xor(0, a) == a
  {
  }

  lemma XorCancel(a: nat, b: nat)
    ensures Xor(a, Xor(a, b)) == b
    ensures Xor(Xor(b, a), a) == b
  {
    hide Xor;
    XorAssoc(a, a, b);
    XorAssoc(b, a, a);
    XorSelf(a);
    XorZero(b);
  }

  lemma XorEqual(a: nat, b: nat)
    ensures Xor(a, b) == 0 <==> a == b
  {
    hide Xor;
    XorSelf(a);
    XorCancel(a, b);
    XorZero(a);
  }

  /** (a + b) + (c + d) regrouped by columns. */
  lemma XorSwap(a: nat, b: nat, c: nat, d: nat)
    ensures Xor(Xor(a, b), Xor(c, d)) == Xor(Xor(a, c), Xor(b, d))
  {
    hide Xor;
    XorAssoc(a, b, Xor(c, d));
    XorAssoc(b, c, d);
    XorComm(b, c);
    XorAssoc(c, b, d);
    XorAssoc(a, c, Xor(b, d));
  }

  lemma XorDouble(a: nat, b: nat)
    ensures Xor(2 * a, 2 * b) == 2 * Xor(a, b)
  {
    if a != 0 && b != 0 {
      var x, y := 2 * a, 2 * b;
      assert x / 2 == a && y / 2 == b && (x + y) % 2 == 0;
      assert Xor(x, y) == 0 + 2 * Xor(x / 2, y / 2);
    }
  }

  lemma {:induction false} XorBound(a: nat, b: nat, k: nat)
    requires a < Pow2(k) && b < Pow2(k)
    ensures Xor(a, b) < Pow2(k)
  {
    if k > 0 {
      XorBit(a, b);
      XorBound(a / 2, b / 2, k - 1);
    }
  }

  lemma {:induction false} ModUnique(a: int, n: int, q: int, r: int)
    requires 0 <= r < n && a == q * n + r
    ensures a % n == r && a / n == q
  {
    var q', r' := a / n, a % n;
    assert a == n * q' + r';
    assert (q - q') * n == r' - r;
    assert q - q' >= 1 ==> (q - q') * n >= n;
    assert q - q' <= -1 ==> (q - q') * n <= -n;
  }

  /** The low k bits of a. */
  function Low(a: nat, k: nat): (r: nat)
    ensures r < Pow2(k)
  {
    if k == 0 then 0 else a % 2 + 2 * Low(a / 2, k - 1)
  }

  /** a >> k */
  function Shr(a: nat, k: nat): nat {
    if k == 0 then a else Shr(a / 2, k - 1)
  }

  lemma {:induction false} LowSmall(a: nat, k: nat)
    requires a < Pow2(k)
    ensures Low(a, k) == a
  {
    if k > 0 {
      LowSmall(a / 2, k - 1);
    }
  }

  /** Masking to the low k bits distributes over exclusive-or. */
  lemma {:induction false} XorLow(a: nat, b: nat, k: nat)
    ensures Low(Xor(a, b), k) == Xor(Low(a, k), Low(b, k))
  {
    hide Xor;
    if k == 0 {
      XorZero(0);
    } else {
      XorLow(a / 2, b / 2, k - 1);
      hide Low;
      XorBit(a, b);
      XorBit(Low(a, k), Low(b, k));
      LowHalf(a, k);
      LowHalf(b, k);
      LowHalf(Xor(a, b), k);
      ParitySum(a, b, Low(a, k), Low(b, k));
      SameHalves(Low(Xor(a, b), k), Xor(Low(a, k), Low(b, k)));
    }
  }

  lemma LowHalf(a: nat, k: nat)
    requires k > 0
    ensures Low(a, k) % 2 == a % 2 && Low(a, k) / 2 == Low(a / 2, k - 1)
  {
  }

  lemma SameHalves(x: nat, y: nat)
    requires x % 2 == y % 2 && x / 2 == y / 2
    ensures x == y
  {
  }

  lemma ParitySum(a: nat, b: nat, c: nat, d: nat)
    requires a % 2 == c % 2 && b % 2 == d % 2
    ensures (a + b) % 2 == (c + d) % 2
  {
  }

  lemma {:induction false} ShrAdd(v: nat, i: nat, j: nat)
    ensures Shr(v, i + j) == Shr(Shr(v, i), j)
  {
    if i > 0 {
      ShrAdd(v / 2, i - 1, j);
    }
  }

  lemma {:induction false} ShrZero(k: nat)
    ensures Shr(0, k) == 0
  {
    if k > 0 {
      ShrZero(k - 1);
    }
  }

  /** Shifting right by k bits distributes over exclusive-or. */
  lemma {:induction false} XorShift(a: nat, b: nat, k: nat)
    ensures Shr(Xor(a, b), k) == Xor(Shr(a, k), Shr(b, k))
  {
    hide Xor;
    if k > 0 {
      XorBit(a, b);
      XorShift(a / 2, b / 2, k - 1);
    }
  }
}
