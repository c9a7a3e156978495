/** The generator polynomial and systematic encoding by a feedback shift register. */
module Generator {
  import opened BitXor
  import opened GaloisField
  import opened FieldLaws
  import opened ModularArithmetic
  import opened Sums
  import opened Polynomials
  import opened RsCode

  /** (x + r) p(x) */
  ghost function TimesLinear(g: GF, p: seq<nat>, r: nat): (q: seq<nat>)
    ensures |q| == |p| + 1
  {
    seq(|p| + 1, j requires 0 <= j <= |p| => Xor(At(p, j - 1), Mul(g, At(p, j), r)))
  }

  /** The product of (x + root) over the first n roots. */
  ghost function GenPoly(c: Code, n: nat): (p: seq<nat>)
    ensures |p| == n + 1
  {
    if n == 0 then [1] else TimesLinear(c.g, GenPoly(c, n - 1), Root(c, n - 1))
  }

  lemma TimesLinearIn(g: GF, p: seq<nat>, r: nat)
    requires AllIn(g, p)
    ensures AllIn(g, TimesLinear(g, p, r))
  {
    hide Mul, Xor, Pow2;
    forall j | 0 <= j <= |p| ensures In(g, TimesLinear(g, p, r)[j]) {
      MulIn(g, At(p, j), r);
      InXor(g, At(p, j - 1), Mul(g, At(p, j), r));
    }
  }

  ghost function DelayTerm(g: GF, z: nat, e: Terms): Terms {
    i => Mul(g, z, if i == 0 then 0 else e(i - 1))
  }

  lemma TimesLinearTerm(g: GF, p: seq<nat>, r: nat, z: nat, i: nat)
    requires Primitive(g) && i <= |p|
    ensures EvalTerm(g, TimesLinear(g, p, r), z)(i)
         == Xor(DelayTerm(g, z, EvalTerm(g, p, z))(i), Mul(g, r, EvalTerm(g, p, z)(i)))
  {
    hide Mul, Xor, Primitive, Pow;
    var m := Pow(g, z, i);
    MulXorLeft(g, At(p, i - 1), Mul(g, At(p, i), r), m);
    MulComm(g, At(p, i), r);
    MulAssoc(g, r, At(p, i), m);
    if i == 0 {
      MulZero(g, m);
      MulZero(g, z);
    } else {
      var a, m' := At(p, i - 1), Pow(g, z, i - 1);
      PowNext(g, z, i - 1);
      MulAssoc(g, a, m', z);
      MulComm(g, Mul(g, a, m'), z);
    }
  }

  lemma DelaySum(g: GF, z: nat, e: Terms, n: nat)
    requires Primitive(g)
    ensures Sum(DelayTerm(g, z, e), n + 1) == Mul(g, z, Sum(e, n))
  {
    hide Mul, Xor, Primitive, Sum;
    var s := DelayTerm(g, z, e);
    var s': Terms := i => Mul(g, z, e(i));
    SumFirst(s, s', n);
    SumScale(g, z, e, s', n);
    MulZero(g, z);
    XorZero(Sum(s', n));
  }

  /** Evaluating the product multiplies by (z + r). */
  lemma TimesLinearEval(g: GF, p: seq<nat>, r: nat, z: nat)
    requires Primitive(g)
    ensures Eval(g, TimesLinear(g, p, r), z) == Mul(g, Xor(z, r), Eval(g, p, z))
  {
    hide Mul, Xor, Primitive, Sum, DelayTerm, TimesLinear;
    var n := |p|;
    var e, f := EvalTerm(g, p, z), EvalTerm(g, TimesLinear(g, p, r), z);
    var s := DelayTerm(g, z, e);
    var t: Terms := i => Mul(g, r, e(i));
    forall i | 0 <= i <= n ensures f(i) == Xor(s(i), t(i)) {
      TimesLinearTerm(g, p, r, z, i);
    }
    SumXor(s, t, f, n + 1);
    DelaySum(g, z, e, n);
    assert t(n) == 0 by {
      MulZero(g, Pow(g, z, n));
      MulZero(g, r);
    }
    SumTail(t, n, n + 1);
    SumScale(g, r, e, t, n);
    MulXorLeft(g, z, r, Sum(e, n));
  }

  lemma {:induction false} GenPolyIn(c: Code, n: nat)
    requires Primitive(c.g)
    ensures AllIn(c.g, GenPoly(c, n))
  {
    hide Mul, Xor, Primitive, Root, In, TimesLinear;
    if n == 0 {
      PrimitiveWidth(c.g);
      InOne(c.g);
    } else {
      GenPolyIn(c, n - 1);
      TimesLinearIn(c.g, GenPoly(c, n - 1), Root(c, n - 1));
    }
  }

  lemma {:induction false} GenPolyMonic(c: Code, n: nat)
    ensures GenPoly(c, n)[n] == 1
  {
    hide Root, TimesLinear;
    if n > 0 {
      GenPolyMonic(c, n - 1);
      TimesLinearTop(c.g, GenPoly(c, n - 1), Root(c, n - 1));
    }
  }

  lemma TimesLinearTop(g: GF, p: seq<nat>, r: nat)
    requires |p| > 0
    ensures TimesLinear(g, p, r)[|p|] == p[|p| - 1]
  {
    hide Mul, Xor;
    MulZero(g, r);
    XorZero(p[|p| - 1]);
  }

  /** Every generator root is a root of the generator polynomial. */
  lemma {:induction false} GenPolyRoots(c: Code, n: nat, i: nat)
    requires Primitive(c.g) && i < n
    ensures Eval(c.g, GenPoly(c, n), Root(c, i)) == 0
  {
    hide Mul, Xor, Primitive, Root, Eval, TimesLinear;
    var r, p := Root(c, n - 1), GenPoly(c, n - 1);
    TimesLinearEval(c.g, p, r, Root(c, i));
    if i == n - 1 {
      XorSelf(r);
      MulZero(c.g, Eval(c.g, p, r));
    } else {
      GenPolyRoots(c, n - 1, i);
      MulZero(c.g, Xor(Root(c, i), r));
    }
  }

  ghost function Reverse(p: seq<nat>): (r: seq<nat>)
    ensures |r| == |p|
  {
    seq(|p|, j requires 0 <= j < |p| => p[|p| - 1 - j])
  }

  /** A polynomial read as a word, highest coefficient first. */
  lemma {:induction false} HornerReverse(g: GF, p: seq<nat>, z: nat)
    requires Primitive(g) && AllIn(g, p)
    ensures Horner(g, Reverse(p), z) == Eval(g, p, z)
  {
    hide Mul, Xor, Primitive, Eval, In;
    if |p| == 0 {
      EvalNil(g, z);
    } else {
      HornerReverse(g, p[1..], z);
      assert Reverse(p)[..|p| - 1] == Reverse(p[1..]);
      EvalCons(g, p, z);
      MulComm(g, Eval(g, p[1..], z), z);
      XorComm(Mul(g, z, Eval(g, p[1..], z)), p[0]);
    }
  }

  lemma GenPolyCodeword(c: Code)
    requires Primitive(c.g)
    ensures Codeword(c, Reverse(GenPoly(c, c.nroots)))
  {
    hide Primitive, Root, Eval, GenPoly, In, Horner;
    var p := GenPoly(c, c.nroots);
    GenPolyIn(c, c.nroots);
    forall i | 0 <= i < c.nroots ensures Syndrome(c, Reverse(p), i) == 0 {
      HornerReverse(c.g, p, Root(c, i));
      GenPolyRoots(c, c.nroots, i);
    }
  }

  /** No coefficient of the generator polynomial vanishes when it has fewer than nn roots. */
  lemma GenPolyNonzero(c: Code, i: nat)
    requires Good(c) && c.nroots < Top(c.g) && i <= c.nroots
    ensures GenPoly(c, c.nroots)[i] != 0
  {
    hide Primitive, Coprime, Top, Root, Eval, GenPoly, In, Syndrome, Weight;
    var n := c.nroots;
    var p := GenPoly(c, n);
    var w := Reverse(p);
    if p[i] == 0 {
      GenPolyIn(c, n);
      GenPolyCodeword(c);
      WeightSupport(c, w);
      var s := Support(Weight(c, w), n + 1);
      SupportMissing(Weight(c, w), n + 1, n - i);
      GenPolyMonic(c, n);
      assert w[0] == 1;
      MinimumWeight(c, w);
      assert false;
    }
  }

  lemma SupportMissing(f: Terms, n: nat, k: nat)
    requires k < n && f(k) == 0
    ensures |Support(f, n)| < n
  {
    SupportBound(f, n, k);
  }

  lemma {:induction false} SupportBound(f: Terms, n: nat, k: nat)
    ensures |Support(f, n)| <= n
    ensures k < n && f(k) == 0 ==> |Support(f, n)| < n
  {
    if n == 0 {
      assert Support(f, n) == {};
    } else {
      SupportBound(f, n - 1, k);
      SupportNext(f, n);
      assert n - 1 !in Support(f, n - 1);
      hide Support;
    }
  }

  // ---------- the shift register ----------

  /** One turn of the encoder: feed symbol d into parity register par. */
  ghost function LfsrStep(c: Code, par: seq<nat>, d: nat): (r: seq<nat>)
    requires |par| == c.nroots
    ensures |r| == c.nroots
  {
    hide GenPoly, Xor, Mul;
    var fb, gp := Xor(d, At(par, 0)), GenPoly(c, c.nroots);
    seq(c.nroots, j requires 0 <= j < c.nroots => Xor(At(par, j + 1), Mul(c.g, fb, gp[c.nroots - 1 - j])))
  }

  ghost function Lfsr(c: Code, par: seq<nat>, data: seq<nat>): (r: seq<nat>)
    requires |par| == c.nroots
    ensures |r| == c.nroots
  {
    if |data| == 0 then par
    else LfsrStep(c, Lfsr(c, par, data[..|data| - 1]), data[|data| - 1])
  }

  lemma LfsrStepIn(c: Code, par: seq<nat>, d: nat)
    requires |par| == c.nroots && AllIn(c.g, par)
    ensures AllIn(c.g, LfsrStep(c, par, d))
  {
    hide Mul, Xor, Pow2, GenPoly;
    var fb, gp := Xor(d, At(par, 0)), GenPoly(c, c.nroots);
    forall j | 0 <= j < c.nroots ensures In(c.g, LfsrStep(c, par, d)[j]) {
      MulIn(c.g, fb, At(gp, c.nroots - 1 - j));
      InXor(c.g, At(par, j + 1), Mul(c.g, fb, At(gp, c.nroots - 1 - j)));
    }
  }

  lemma {:induction false} LfsrIn(c: Code, par: seq<nat>, data: seq<nat>)
    requires |par| == c.nroots && AllIn(c.g, par)
    ensures AllIn(c.g, Lfsr(c, par, data))
  {
    hide LfsrStep, In;
    if |data| > 0 {
      LfsrIn(c, par, data[..|data| - 1]);
      LfsrStepIn(c, Lfsr(c, par, data[..|data| - 1]), data[|data| - 1]);
    }
  }

  /** The register moved left by one symbol, a zero coming in. */
  ghost function ShiftIn(par: seq<nat>): (r: seq<nat>)
    ensures |r| == |par|
  {
    seq(|par|, j => At(par, j + 1))
  }

  ghost function ScaleSeq(g: GF, f: nat, p: seq<nat>): (r: seq<nat>)
    ensures |r| == |p|
  {
    seq(|p|, j requires 0 <= j < |p| => Mul(g, f, p[j]))
  }

  lemma {:induction false} HornerScale(g: GF, f: nat, p: seq<nat>, z: nat)
    requires Primitive(g)
    ensures Horner(g, ScaleSeq(g, f, p), z) == Mul(g, f, Horner(g, p, z))
  {
    hide Mul, Xor, Primitive;
    if |p| == 0 {
      MulZero(g, f);
    } else {
      var n := |p| - 1;
      HornerScale(g, f, p[..n], z);
      assert ScaleSeq(g, f, p)[..n] == ScaleSeq(g, f, p[..n]);
      var h := Horner(g, p[..n], z);
      MulAssoc(g, f, h, z);
      MulXorRight(g, f, Mul(g, h, z), p[n]);
    }
  }

  /** Shifting drops the front symbol's power: z H(par) == H(shifted) + par[0] z^n. */
  lemma HornerShift(g: GF, par: seq<nat>, z: nat)
    requires Primitive(g) && |par| > 0 && AllIn(g, par)
    ensures Mul(g, Horner(g, par, z), z)
         == Xor(Horner(g, ShiftIn(par), z), Mul(g, par[0], Pow(g, z, |par|)))
  {
    hide Mul, Xor, Primitive, In, Horner;
    var n := |par|;
    var rest := par[1..];
    assert par == [par[0]] + rest;
    HornerConcat(g, [par[0]], rest, z);
    HornerOne(g, par[0], z);
    assert ShiftIn(par) == rest + [0];
    HornerConcat(g, rest, [0], z);
    HornerOne(g, 0, z);
    PrimitiveWidth(g);
    InOne(g);
    var h, m := Horner(g, rest, z), Pow(g, z, n - 1);
    PowOneIs(g, z);
    XorZero(Mul(g, h, z));
    MulXorLeft(g, Mul(g, par[0], m), h, z);
    MulAssoc(g, par[0], m, z);
    PowNext(g, z, n - 1);
    XorComm(Mul(g, par[0], Pow(g, z, n)), Mul(g, h, z));
    MulMask(g, h, z);
  }

  lemma HornerOne(g: GF, a: nat, z: nat)
    ensures Horner(g, [a], z) == a
  {
    hide Mul, Xor;
    MulZero(g, z);
    XorZero(a);
  }

  lemma PowOneIs(g: GF, z: nat)
    requires Primitive(g)
    ensures Pow(g, z, 1) == Mask(g, z)
  {
    hide Mul, Primitive;
    PowNext(g, z, 0);
    MulMask(g, 1, z);
    MulOne(g, Mask(g, z));
  }

  /** The generator without its leading term, highest first, evaluates to z^n at a root. */
  lemma GenTail(c: Code, i: nat)
    requires Primitive(c.g) && i < c.nroots
    ensures Horner(c.g, Reverse(GenPoly(c, c.nroots))[1..], Root(c, i)) == Pow(c.g, Root(c, i), c.nroots)
  {
    hide Mul, Xor, Primitive, In, Horner, GenPoly, Root;
    var z := Root(c, i);
    var w := Reverse(GenPoly(c, c.nroots));
    GenPolyIn(c, c.nroots);
    GenPolyMonic(c, c.nroots);
    GenPolyCodeword(c);
    assert Horner(c.g, w, z) == 0 by { assert Syndrome(c, w, i) == 0; }
    assert w == [1] + w[1..];
    PrimitiveWidth(c.g);
    InOne(c.g);
    HornerConcat(c.g, [1], w[1..], z);
    HornerOne(c.g, 1, z);
    PowIn(c.g, z, c.nroots);
    MulOne(c.g, Pow(c.g, z, c.nroots));
    XorEqual(Pow(c.g, z, c.nroots), Horner(c.g, w[1..], z));
  }

  lemma LfsrStepSplit(c: Code, par: seq<nat>, d: nat)
    requires |par| == c.nroots
    ensures LfsrStep(c, par, d)
         == XorSeq(ShiftIn(par), ScaleSeq(c.g, Xor(d, At(par, 0)), Reverse(GenPoly(c, c.nroots))[1..]))
  {
    hide Mul, Xor, GenPoly;
    var n, p := c.nroots, GenPoly(c, c.nroots);
    var w := Reverse(p)[1..];
    forall j | 0 <= j < n ensures w[j] == At(p, n - 1 - j) {
    }
  }

  /** At a generator root, a turn maps the register's value H to H z + d z^n. */
  lemma LfsrStepEval(c: Code, par: seq<nat>, d: nat, i: nat)
    requires Primitive(c.g) && |par| == c.nroots && AllIn(c.g, par) && i < c.nroots
    ensures Horner(c.g, LfsrStep(c, par, d), Root(c, i))
         == Xor(Mul(c.g, Horner(c.g, par, Root(c, i)), Root(c, i)), Mul(c.g, d, Pow(c.g, Root(c, i), c.nroots)))
  {
    hide Mul, Xor, Primitive, In, Horner, GenPoly, Root, LfsrStep, Pow;
    var g, z, n := c.g, Root(c, i), c.nroots;
    var t := Reverse(GenPoly(c, n))[1..];
    var p0, zn := par[0], Pow(c.g, z, n);
    var fb := Xor(d, p0);
    LfsrStepSplit(c, par, d);
    var sh, sc := ShiftIn(par), ScaleSeq(g, fb, t);
    HornerXor(g, sh, sc, z);
    HornerScale(g, fb, t, z);
    GenTail(c, i);
    HornerShift(g, par, z);
    MulXorLeft(g, d, p0, zn);
    var s, a, b := Horner(g, sh, z), Mul(g, d, zn), Mul(g, p0, zn);
    XorComm(a, b);
    XorAssoc(s, b, a);
  }

  /** From register par, encoding data leaves data z^n + par' == z^len par at every root. */
  lemma {:induction false} LfsrEval(c: Code, par: seq<nat>, data: seq<nat>, i: nat)
    requires Primitive(c.g) && |par| == c.nroots && AllIn(c.g, par) && AllIn(c.g, data) && i < c.nroots
    ensures Horner(c.g, Lfsr(c, par, data), Root(c, i))
         == Xor(Mul(c.g, Horner(c.g, par, Root(c, i)), Pow(c.g, Root(c, i), |data|)),
                Mul(c.g, Horner(c.g, data, Root(c, i)), Pow(c.g, Root(c, i), c.nroots)))
  {
    hide Mul, Xor, Primitive, In, Root, LfsrStep;
    var g, z, n := c.g, Root(c, i), c.nroots;
    var zn, hp := Pow(g, z, n), Horner(g, par, z);
    if |data| == 0 {
      HornerIn(g, par, z);
      MulOne(g, hp);
      MulZero(g, zn);
      XorZero(hp);
    } else {
      var k := |data| - 1;
      var d, rest := data[k], data[..k];
      LfsrEval(c, par, rest, i);
      LfsrIn(c, par, rest);
      LfsrStepEval(c, Lfsr(c, par, rest), d, i);
      LfsrRegroup(g, hp, Pow(g, z, k), Horner(g, rest, z), zn, z, d);
    }
  }

  lemma LfsrRegroup(g: GF, hp: nat, zk: nat, hd: nat, zn: nat, z: nat, d: nat)
    requires Primitive(g)
    ensures Xor(Mul(g, Xor(Mul(g, hp, zk), Mul(g, hd, zn)), z), Mul(g, d, zn))
         == Xor(Mul(g, hp, Mul(g, zk, z)), Mul(g, Xor(Mul(g, hd, z), d), zn))
  {
    hide *;
    MulXorLeft(g, Mul(g, hp, zk), Mul(g, hd, zn), z);
    MulAssoc(g, hp, zk, z);
    MulSwap(g, hd, zn, z);
    MulXorLeft(g, Mul(g, hd, z), d, zn);
    XorAssoc(Mul(g, hp, Mul(g, zk, z)), Mul(g, Mul(g, hd, z), zn), Mul(g, d, zn));
  }

  ghost function Zeros(n: nat): (r: seq<nat>)
    ensures |r| == n && AllZero(r)
  {
    seq(n, _ => 0)
  }

  lemma {:induction false} HornerZeros(g: GF, n: nat, z: nat)
    ensures Horner(g, Zeros(n), z) == 0
  {
    hide Mul, Xor;
    if n > 0 {
      HornerZeros(g, n - 1, z);
      assert Zeros(n)[..n - 1] == Zeros(n - 1);
      MulZero(g, z);
      XorZero(0);
    }
  }

  /** Data followed by the parity computed from a zero register is a codeword. */
  lemma EncodingIsCodeword(c: Code, data: seq<nat>)
    requires Primitive(c.g) && AllIn(c.g, data)
    ensures Codeword(c, data + Lfsr(c, Zeros(c.nroots), data))
  {
    hide Mul, Xor, Primitive, Root, Lfsr, Horner, Pow;
    var g, par := c.g, Lfsr(c, Zeros(c.nroots), data);
    assert AllIn(g, Zeros(c.nroots));
    LfsrIn(c, Zeros(c.nroots), data);
    forall i | 0 <= i < c.nroots ensures Syndrome(c, data + par, i) == 0 {
      var z := Root(c, i);
      HornerConcat(g, data, par, z);
      LfsrEval(c, Zeros(c.nroots), data, i);
      HornerZeros(g, c.nroots, z);
      MulZero(g, Pow(g, z, |data|));
      var m := Mul(g, Horner(g, data, z), Pow(g, z, c.nroots));
      XorZero(m);
      XorSelf(m);
    }
  }
}
