/** The field GF(2^mm) as the codec builds it: powers of x modulo the field
    polynomial, generated by one turn of a feedback shift register at a time. */
module GaloisField {
  import opened BitXor

  /** Symbol width and field generator polynomial (low-order coefficient in the low bit). */
  datatype GF = GF(mm: nat, poly: nat)

  function Size(g: GF): (r: nat)
    ensures r > 0
  {
    Pow2(g.mm)
  }

  /** nn: the number of nonzero field elements, also the mask of a symbol. */
  function Top(g: GF): nat {
    Size(g) - 1
  }

  predicate In(g: GF, a: nat) {
    a < Size(g)
  }

  /** a & nn */
  function Mask(g: GF, a: nat): (r: nat)
    ensures In(g, r)
  {
    Low(a, g.mm)
  }

  lemma MaskIn(g: GF, a: nat)
    requires In(g, a)
    ensures Mask(g, a) == a
  {
    LowSmall(a, g.mm);
  }

  /** One turn of the register: shift left, reduce by the polynomial, mask. */
  function Step(g: GF, a: nat): (r: nat)
    ensures In(g, r)
  {
    var t := 2 * a;
    Mask(g, if Shr(t, g.mm) % 2 == 1 then Xor(t, g.poly) else t)
  }

  function StepN(g: GF, a: nat, n: nat): nat {
    if n == 0 then a else Step(g, StepN(g, a, n - 1))
  }

  /** x^n modulo the field polynomial. */
  function Exp(g: GF, n: nat): nat {
    StepN(g, 1, n)
  }

  /** x has multiplicative order exactly nn. */
  ghost predicate Primitive(g: GF) {
    && g.mm >= 1
    && Exp(g, Top(g)) == 1
    && forall i :: 0 < i < Top(g) ==> Exp(g, i) != 1
  }

  // ---------- linearity of the register ----------

  lemma MaskXor(g: GF, a: nat, b: nat)
    ensures Mask(g, Xor(a, b)) == Xor(Mask(g, a), Mask(g, b))
  {
    XorLow(a, b, g.mm);
  }

  lemma InXor(g: GF, a: nat, b: nat)
    requires In(g, a) && In(g, b)
    ensures In(g, Xor(a, b))
  {
    XorBound(a, b, g.mm);
  }

  /** The reduction term of a register turn. */
  function Carry(g: GF, a: nat): nat {
    if Shr(2 * a, g.mm) % 2 == 1 then Mask(g, g.poly) else 0
  }

  lemma StepParts(g: GF, a: nat)
    ensures Step(g, a) == Xor(Mask(g, 2 * a), Carry(g, a))
  {
    hide Xor;
    MaskXor(g, 2 * a, g.poly);
    XorZero(Mask(g, 2 * a));
  }

  lemma SelectLinear(t: nat, u: nat, w: nat, p: nat)
    requires w % 2 == (t + u) % 2
    ensures (if w % 2 == 1 then p else 0)
         == Xor(if t % 2 == 1 then p else 0, if u % 2 == 1 then p else 0)
  {
    hide *;
    XorSelf(p);
    XorZero(p);
    XorZero(0);
    ParitySum(t, u, t % 2, u % 2);
  }

  lemma CarryLinear(g: GF, a: nat, b: nat)
    ensures Carry(g, Xor(a, b)) == Xor(Carry(g, a), Carry(g, b))
  {
    hide Xor, Mask, Shr, Pow2;
    XorDouble(a, b);
    XorShift(2 * a, 2 * b, g.mm);
    XorBit(Shr(2 * a, g.mm), Shr(2 * b, g.mm));
    SelectLinear(Shr(2 * a, g.mm), Shr(2 * b, g.mm), Shr(2 * Xor(a, b), g.mm), Mask(g, g.poly));
  }

  lemma StepLinear(g: GF, a: nat, b: nat)
    ensures Step(g, Xor(a, b)) == Xor(Step(g, a), Step(g, b))
  {
    hide *;
    StepParts(g, a);
    StepParts(g, b);
    StepParts(g, Xor(a, b));
    CarryLinear(g, a, b);
    XorDouble(a, b);
    MaskXor(g, 2 * a, 2 * b);
    XorSwap(Mask(g, 2 * a), Carry(g, a), Mask(g, 2 * b), Carry(g, b));
  }

  lemma {:induction false} StepNLinear(g: GF, a: nat, b: nat, n: nat)
    ensures StepN(g, Xor(a, b), n) == Xor(StepN(g, a, n), StepN(g, b, n))
  {
    hide Xor, Step;
    if n > 0 {
      StepNLinear(g, a, b, n - 1);
      StepLinear(g, StepN(g, a, n - 1), StepN(g, b, n - 1));
    }
  }

  lemma StepZero(g: GF)
    ensures Step(g, 0) == 0
  {
    ShrZero(g.mm);
    MaskIn(g, 0);
  }

  lemma {:induction false} StepNZero(g: GF, n: nat)
    ensures StepN(g, 0, n) == 0
  {
    hide Step;
    if n > 0 {
      StepNZero(g, n - 1);
      StepZero(g);
    }
  }

  lemma {:induction false} StepNAdd(g: GF, a: nat, i: nat, j: nat)
    ensures StepN(g, a, i + j) == StepN(g, StepN(g, a, i), j)
  {
    hide Step;
    if j > 0 {
      StepNAdd(g, a, i, j - 1);
    }
  }

  lemma StepNIn(g: GF, a: nat, n: nat)
    requires In(g, a)
    ensures In(g, StepN(g, a, n))
  {
    hide Step;
  }

  // ---------- powers of x ----------

  lemma InOne(g: GF)
    requires g.mm >= 1
    ensures In(g, 0) && In(g, 1) && Top(g) >= 1
  {
  }

  lemma ExpIn(g: GF, n: nat)
    requires Primitive(g)
    ensures In(g, Exp(g, n))
  {
    hide Step;
    InOne(g);
    StepNIn(g, 1, n);
  }

  lemma ExpPeriod(g: GF, n: nat)
    requires Primitive(g)
    ensures Exp(g, n + Top(g)) == Exp(g, n)
  {
    hide Step, StepN, Size;
    StepNAdd(g, 1, Top(g), n);
  }

  lemma {:induction false} ExpMultiple(g: GF, n: nat, q: nat)
    requires Primitive(g)
    ensures Exp(g, n + q * Top(g)) == Exp(g, n)
  {
    hide Exp, Primitive, Top;
    if q > 0 {
      ExpMultiple(g, n, q - 1);
      ExpPeriod(g, n + (q - 1) * Top(g));
      assert n + (q - 1) * Top(g) + Top(g) == n + q * Top(g);
    }
  }

  lemma ExpMod(g: GF, n: nat)
    requires Primitive(g)
    ensures Top(g) >= 1 && Exp(g, n) == Exp(g, n % Top(g))
  {
    hide Exp, Top;
    InOne(g);
    ExpMultiple(g, n % Top(g), n / Top(g));
  }

  lemma ExpNonzero(g: GF, n: nat)
    requires Primitive(g)
    ensures Exp(g, n) != 0
  {
    hide Top, StepN;
    InOne(g);
    if Exp(g, n) == 0 {
      var m := n * Top(g) - n;
      assert m >= 0;
      StepNAdd(g, 1, n, m);
      StepNZero(g, m);
      ExpMultiple(g, 0, n);
      assert n + m == 0 + n * Top(g);
      ExpZero(g);
      assert false;
    }
  }

  lemma ExpZero(g: GF)
    ensures Exp(g, 0) == 1
  {
  }

  lemma ExpInjective(g: GF, i: nat, j: nat)
    requires Primitive(g) && i < j < Top(g)
    ensures Exp(g, i) != Exp(g, j)
  {
    hide Top, StepN;
    var d := Top(g) - j;
    StepNAdd(g, 1, i, d);
    StepNAdd(g, 1, j, d);
    assert Exp(g, i + d) != 1;
  }

  /** The values of the first n powers. */
  ghost function Powers(g: GF, n: nat): set<nat> {
    set i | 0 <= i < n :: Exp(g, i)
  }

  lemma {:induction false} PowersCard(g: GF, n: nat)
    requires Primitive(g) && n <= Top(g)
    ensures |Powers(g, n)| == n
  {
    hide Top, Exp;
    if n > 0 {
      PowersCard(g, n - 1);
      forall i | 0 <= i < n - 1 ensures Exp(g, i) != Exp(g, n - 1) {
        ExpInjective(g, i, n - 1);
      }
      assert Powers(g, n) == Powers(g, n - 1) + {Exp(g, n - 1)};
    }
  }

  ghost function Below(n: nat): set<nat> {
    if n == 0 then {} else Below(n - 1) + {n - 1}
  }

  lemma {:induction false} BelowCard(n: nat)
    ensures |Below(n)| == n
    ensures forall i: nat :: i in Below(n) <==> i < n
  {
    if n > 0 {
      BelowCard(n - 1);
    }
  }

  lemma SubsetEqual(a: set<nat>, b: set<nat>)
    requires a <= b && |a| == |b|
    ensures a == b
  {
    if x :| x in b && x !in a {
      assert a + {x} <= b;
      SubsetCard(a + {x}, b);
    }
  }

  lemma {:induction false} SubsetCard<T>(a: set<T>, b: set<T>)
    requires a <= b
    ensures |a| <= |b|
  {
    if a != {} {
      var x :| x in a;
      SubsetCard(a - {x}, b - {x});
      assert |b - {x}| == |b| - 1;
    }
  }

  /** Every nonzero element is a power of x. */
  lemma ExpSurjective(g: GF, a: nat)
    requires Primitive(g) && In(g, a) && a != 0
    ensures exists i: nat :: i < Top(g) && Exp(g, i) == a
  {
    hide Exp, Primitive;
    var p := Powers(g, Top(g));
    var b := Below(Size(g));
    PowersCard(g, Top(g));
    BelowCard(Size(g));
    forall i | 0 <= i < Top(g) ensures Exp(g, i) in b - {0} {
      ExpIn(g, i);
      ExpNonzero(g, i);
    }
    assert 0 in b;
    SubsetEqual(p, b - {0});
    assert a in p;
  }

  /** The discrete logarithm; 0 where there is none. */
  ghost function Log(g: GF, a: nat): nat {
    if exists i: nat :: i < Top(g) && Exp(g, i) == a then
      var i: nat :| i < Top(g) && Exp(g, i) == a; i
    else 0
  }

  lemma LogExp(g: GF, a: nat)
    requires Primitive(g) && In(g, a) && a != 0
    ensures Log(g, a) < Top(g) && Exp(g, Log(g, a)) == a
  {
    hide Exp, Primitive, Top, In;
    ExpSurjective(g, a);
  }

  lemma ExpLog(g: GF, n: nat)
    requires Primitive(g)
    ensures Top(g) >= 1 && Log(g, Exp(g, n)) == n % Top(g)
  {
    hide Exp, Primitive, Top, In, Log;
    ExpMod(g, n);
    ExpIn(g, n);
    ExpNonzero(g, n);
    var i, j := Log(g, Exp(g, n)), n % Top(g);
    LogExp(g, Exp(g, n));
    if i < j {
      ExpInjective(g, i, j);
    } else if j < i {
      ExpInjective(g, j, i);
    }
  }
}
