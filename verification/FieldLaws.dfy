/** Multiplication through logarithms, as the codec's tables do it, and the
    field laws it satisfies when x is primitive. Both factors are masked, so
    commutativity, associativity and distributivity hold of all numbers. */
module FieldLaws {
  import opened BitXor
  import opened GaloisField

  ghost function Mul(g: GF, a: nat, b: nat): nat {
    if Mask(g, b) == 0 then 0 else StepN(g, Mask(g, a), Log(g, Mask(g, b)))
  }

  lemma MulIn(g: GF, a: nat, b: nat)
    ensures In(g, Mul(g, a, b))
  {
    hide Low, StepN, Log;
    StepNIn(g, Mask(g, a), Log(g, Mask(g, b)));
  }

  lemma MulZero(g: GF, a: nat)
    ensures Mul(g, a, 0) == 0 && Mul(g, 0, a) == 0
  {
    hide StepN, Log, Low;
    MaskIn(g, 0);
    StepNZero(g, Log(g, Mask(g, a)));
  }

  lemma MulMask(g: GF, a: nat, b: nat)
    ensures Mul(g, Mask(g, a), b) == Mul(g, a, b) == Mul(g, a, Mask(g, b))
  {
    hide StepN, Log, Low;
    MaskIn(g, Mask(g, a));
    MaskIn(g, Mask(g, b));
  }

  lemma MulXorLeft(g: GF, a: nat, b: nat, c: nat)
    ensures Mul(g, Xor(a, b), c) == Xor(Mul(g, a, c), Mul(g, b, c))
  {
    hide StepN, Log, Low, Xor, Mask;
    MaskXor(g, a, b);
    StepNLinear(g, Mask(g, a), Mask(g, b), Log(g, Mask(g, c)));
    XorZero(0);
  }

  /** x^i x^j == x^(i+j) */
  lemma MulExp(g: GF, i: nat, j: nat)
    requires Primitive(g)
    ensures Mul(g, Exp(g, i), Exp(g, j)) == Exp(g, i + j)
  {
    hide Primitive, Log, Low, StepN, Top;
    ExpIn(g, i);
    ExpIn(g, j);
    MaskIn(g, Exp(g, i));
    MaskIn(g, Exp(g, j));
    ExpNonzero(g, j);
    ExpLog(g, j);
    var k := j % Top(g);
    StepNAdd(g, 1, i, k);
    ExpMultiple(g, i + k, j / Top(g));
    assert i + j == i + k + (j / Top(g)) * Top(g);
  }

  /** Every number masks to zero or to a power of x. */
  lemma ZeroOrExp(g: GF, a: nat) returns (i: nat)
    requires Primitive(g)
    ensures Mask(g, a) == 0 || Mask(g, a) == Exp(g, i)
  {
    hide *;
    i := 0;
    if Mask(g, a) != 0 {
      LogExp(g, Mask(g, a));
      i := Log(g, Mask(g, a));
    }
  }

  lemma MulComm(g: GF, a: nat, b: nat)
    requires Primitive(g)
    ensures Mul(g, a, b) == Mul(g, b, a)
  {
    hide *;
    var i := ZeroOrExp(g, a);
    var j := ZeroOrExp(g, b);
    MulMask(g, a, b);
    MulMask(g, Mask(g, a), b);
    MulMask(g, b, a);
    MulMask(g, Mask(g, b), a);
    MulZero(g, a);
    MulZero(g, b);
    MulZero(g, Mask(g, a));
    MulZero(g, Mask(g, b));
    MulExp(g, i, j);
    MulExp(g, j, i);
  }

  lemma MulXorRight(g: GF, a: nat, b: nat, c: nat)
    requires Primitive(g)
    ensures Mul(g, a, Xor(b, c)) == Xor(Mul(g, a, b), Mul(g, a, c))
  {
    hide *;
    MulComm(g, a, Xor(b, c));
    MulComm(g, a, b);
    MulComm(g, a, c);
    MulXorLeft(g, b, c, a);
  }

  lemma MulAssocExp(g: GF, i: nat, j: nat, k: nat)
    requires Primitive(g)
    ensures Mul(g, Mul(g, Exp(g, i), Exp(g, j)), Exp(g, k)) == Mul(g, Exp(g, i), Mul(g, Exp(g, j), Exp(g, k)))
  {
    hide *;
    MulExp(g, i, j);
    MulExp(g, j, k);
    MulExp(g, i + j, k);
    MulExp(g, i, j + k);
    assert i + j + k == i + (j + k);
  }

  lemma MulAssoc(g: GF, a: nat, b: nat, c: nat)
    requires Primitive(g)
    ensures Mul(g, Mul(g, a, b), c) == Mul(g, a, Mul(g, b, c))
  {
    hide *;
    var x, y, z := Mask(g, a), Mask(g, b), Mask(g, c);
    MulMask(g, a, b);
    MulMask(g, x, b);
    MulMask(g, b, c);
    MulMask(g, y, c);
    MulMask(g, Mul(g, x, y), c);
    MulMask(g, a, Mul(g, y, z));
    var i := ZeroOrExp(g, a);
    var j := ZeroOrExp(g, b);
    var k := ZeroOrExp(g, c);
    if x != 0 && y != 0 && z != 0 {
      MulAssocExp(g, i, j, k);
    } else {
      MulZero(g, x);
      MulZero(g, y);
      MulZero(g, z);
      MulZero(g, Mul(g, x, y));
      MulZero(g, Mul(g, y, z));
    }
  }

  /** (ab)c == (ac)b */
  lemma MulSwap(g: GF, a: nat, b: nat, c: nat)
    requires Primitive(g)
    ensures Mul(g, Mul(g, a, b), c) == Mul(g, Mul(g, a, c), b)
  {
    hide *;
    MulAssoc(g, a, b, c);
    MulAssoc(g, a, c, b);
    MulComm(g, b, c);
  }

  lemma MulOne(g: GF, a: nat)
    requires Primitive(g) && In(g, a)
    ensures Mul(g, a, 1) == a && Mul(g, 1, a) == a
  {
    hide *;
    MulMask(g, a, 1);
    MulComm(g, a, 1);
    MaskIn(g, a);
    var i := ZeroOrExp(g, a);
    ExpZero(g);
    MulExp(g, i, 0);
    MulZero(g, 1);
  }

  lemma MulNonzero(g: GF, a: nat, b: nat)
    requires Primitive(g) && In(g, a) && In(g, b)
    ensures Mul(g, a, b) == 0 <==> a == 0 || b == 0
  {
    hide *;
    MulZero(g, a);
    MulZero(g, b);
    MaskIn(g, a);
    MaskIn(g, b);
    var i := ZeroOrExp(g, a);
    var j := ZeroOrExp(g, b);
    MulExp(g, i, j);
    ExpNonzero(g, i + j);
  }

  ghost function Inv(g: GF, a: nat): nat {
    Exp(g, if Log(g, a) <= Top(g) then Top(g) - Log(g, a) else 0)
  }

  lemma InvIn(g: GF, a: nat)
    requires Primitive(g)
    ensures In(g, Inv(g, a)) && Inv(g, a) != 0
  {
    hide Exp, Log, Top, Primitive, In;
    var n := if Log(g, a) <= Top(g) then Top(g) - Log(g, a) else 0;
    ExpIn(g, n);
    ExpNonzero(g, n);
  }

  lemma MulInv(g: GF, a: nat)
    requires Primitive(g) && In(g, a) && a != 0
    ensures Mul(g, a, Inv(g, a)) == 1
  {
    hide Exp, Log, Top, Primitive, In, Mul;
    LogExp(g, a);
    MulExp(g, Log(g, a), Top(g) - Log(g, a));
    ExpMultiple(g, 0, 1);
    ExpZero(g);
  }

  /** Cancelling a nonzero factor. */
  lemma MulCancel(g: GF, a: nat, b: nat, c: nat)
    requires Primitive(g) && In(g, a) && In(g, b) && In(g, c) && c != 0
    requires Mul(g, a, c) == Mul(g, b, c)
    ensures a == b
  {
    hide *;
    MulAssoc(g, a, c, Inv(g, c));
    MulAssoc(g, b, c, Inv(g, c));
    MulInv(g, c);
    MulOne(g, a);
    MulOne(g, b);
  }

  // ---------- powers ----------

  ghost function Pow(g: GF, a: nat, n: nat): nat {
    if n == 0 then 1 else Mul(g, Pow(g, a, n - 1), a)
  }

  lemma PowIn(g: GF, a: nat, n: nat)
    requires Primitive(g)
    ensures In(g, Pow(g, a, n))
  {
    hide Mul, In, Primitive;
    InOne(g) by { PrimitiveWidth(g); }
    if n > 0 {
      MulIn(g, Pow(g, a, n - 1), a);
    }
  }

  lemma PrimitiveWidth(g: GF)
    requires Primitive(g)
    ensures g.mm >= 1
  {
  }

  lemma {:induction false} PowAdd(g: GF, a: nat, i: nat, j: nat)
    requires Primitive(g)
    ensures Pow(g, a, i + j) == Mul(g, Pow(g, a, i), Pow(g, a, j))
  {
    hide Mul, In, Primitive;
    if j == 0 {
      PowIn(g, a, i);
      MulOne(g, Pow(g, a, i));
    } else {
      PowAdd(g, a, i, j - 1);
      MulAssoc(g, Pow(g, a, i), Pow(g, a, j - 1), a);
    }
  }

  lemma {:induction false} PowExp(g: GF, e: nat, n: nat)
    requires Primitive(g)
    ensures Pow(g, Exp(g, e), n) == Exp(g, e * n)
  {
    hide Mul, In, Primitive, Exp;
    if n == 0 {
      ExpZero(g);
    } else {
      PowExp(g, e, n - 1);
      MulExp(g, e * (n - 1), e);
      assert e * (n - 1) + e == e * n;
    }
  }

  lemma {:induction false} PowMul(g: GF, a: nat, b: nat, n: nat)
    requires Primitive(g)
    ensures Pow(g, Mul(g, a, b), n) == Mul(g, Pow(g, a, n), Pow(g, b, n))
  {
    hide Mul, In, Primitive;
    if n == 0 {
      PrimitiveWidth(g);
      InOne(g);
      MulOne(g, 1);
    } else {
      PowMul(g, a, b, n - 1);
      var p, q := Pow(g, a, n - 1), Pow(g, b, n - 1);
      MulAssoc(g, Mul(g, p, q), a, b);
      MulSwap(g, p, q, a);
      MulAssoc(g, Mul(g, p, a), q, b);
    }
  }

  lemma {:induction false} PowOne(g: GF, n: nat)
    requires Primitive(g)
    ensures Pow(g, 1, n) == 1
  {
    hide Mul, In, Primitive;
    if n > 0 {
      PowOne(g, n - 1);
      PrimitiveWidth(g);
      InOne(g);
      MulOne(g, 1);
    }
  }

  lemma {:induction false} PowNonzero(g: GF, a: nat, n: nat)
    requires Primitive(g) && In(g, a) && a != 0
    ensures Pow(g, a, n) != 0
  {
    hide Mul, In, Primitive;
    if n > 0 {
      PowNonzero(g, a, n - 1);
      PowIn(g, a, n - 1);
      MulNonzero(g, Pow(g, a, n - 1), a);
    }
  }

  // ---------- the same product as polynomial multiplication ----------

  /** The product of a and the n-bit polynomial b modulo the field polynomial,
      one bit of b at a time: add a where the bit is set, then multiply a by x. */
  function PolyMul(g: GF, a: nat, b: nat, n: nat): nat
    decreases n
  {
    if n == 0 then 0
    else Xor(if b % 2 == 1 then a else 0, PolyMul(g, Step(g, a), b / 2, n - 1))
  }

  lemma StepIsMul(g: GF, a: nat)
    requires Primitive(g) && In(g, a)
    ensures Step(g, a) == Mul(g, a, Exp(g, 1))
  {
    hide Step, Mul, In, Primitive, Exp;
    MaskIn(g, a);
    var i := ZeroOrExp(g, a);
    if a == 0 {
      StepZero(g);
      MulZero(g, Exp(g, 1));
    } else {
      MulExp(g, i, 1);
      ExpNext(g, i);
    }
  }

  lemma ExpNext(g: GF, i: nat)
    ensures Exp(g, i + 1) == Step(g, Exp(g, i))
  {
    hide Step;
  }

  lemma StepSmall(g: GF, b: nat)
    requires g.mm >= 1 && 2 * b < Size(g)
    ensures Step(g, b) == 2 * b
  {
    hide Xor;
    LowSmall(2 * b, g.mm);
    ShrSmall(2 * b, g.mm);
  }

  lemma {:induction false} ShrSmall(a: nat, k: nat)
    requires a < Pow2(k)
    ensures Shr(a, k) == 0
  {
    if k > 0 {
      ShrSmall(a / 2, k - 1);
    }
  }

  lemma SplitLowBit(b: nat)
    ensures b == Xor(b % 2, 2 * (b / 2))
  {
    XorBit(b % 2, 2 * (b / 2));
    XorZero(b / 2);
  }

  lemma {:induction false} PolyMulIsMul(g: GF, a: nat, b: nat, n: nat)
    requires Primitive(g) && In(g, a) && n <= g.mm && b < Pow2(n)
    ensures PolyMul(g, a, b, n) == Mul(g, a, b)
    decreases n
  {
    hide Mul, Primitive, Xor, Step;
    if n == 0 {
      MulZero(g, a);
    } else {
      var h := b / 2;
      PolyMulIsMul(g, Step(g, a), h, n - 1);
      Pow2Mono(n, g.mm);
      StepSmall(g, h);
      SplitLowBit(b);
      MulXorRight(g, a, b % 2, 2 * h);
      StepIsMul(g, h);
      StepIsMul(g, a);
      MulSwap(g, a, Exp(g, 1), h);
      MulAssoc(g, a, h, Exp(g, 1));
      MulOne(g, a);
      MulZero(g, a);
    }
  }

  lemma {:induction false} Pow2Mono(i: nat, j: nat)
    requires i <= j
    ensures Pow2(i) <= Pow2(j)
  {
    if i < j {
      Pow2Mono(i, j - 1);
    }
  }
}
