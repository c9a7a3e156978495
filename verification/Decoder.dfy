/** The decoder as a whole, and the theorem it exists for: up to nroots/2 wrong
    symbols, anywhere in data or parity, are repaired. */
module Decoder {
  import opened BitXor
  import opened GaloisField
  import opened FieldLaws
  import opened ModularArithmetic
  import opened Sums
  import opened Polynomials
  import opened RsCode
  import opened Recurrences
  import opened ErrorLocator
  import opened Forney
  import opened RsControl
  import opened Encoder
  import opened Syndromes
  import opened BerlekampMassey
  import opened Chien
  import opened Correction

  const EBADMSG := 74

  // ---------- positions ----------

  lemma IprimUnit(rs: Control) returns (t: nat)
    requires Valid(rs)
    ensures rs.iprim * rs.prim == 1 + t * rs.nn
  {
    hide Good, Tables;
    t :| rs.iprim * rs.prim == 1 + t * rs.nn;
  }

  /** A root x^m inverse to the locator of position j points back at j. */
  lemma PositionOfRoot(rs: Control, n: nat, j: nat, m: nat)
    requires Valid(rs) && j < n <= rs.nn && 1 <= m <= rs.nn
    requires Mul(CodeOf(rs).g, Locator(CodeOf(rs), n)(j), Exp(CodeOf(rs).g, m)) == 1
    ensures Position(rs, m) == j + rs.nn - n
  {
    hide *;
    var d := n - 1 - j;
    CodeParts(rs);
    LocatorAt(CodeOf(rs), n, j, d);
    var q := WholeTurns(rs, rs.prim * d, m);
    var t := IprimUnit(rs);
    var k := PositionArithmetic(rs.iprim, rs.prim, rs.nn, t, q, m, d);
    PositionIs(rs, m, k, rs.nn - d - 1);
  }

  lemma CodeParts(rs: Control)
    ensures CodeOf(rs).prim == rs.prim && CodeOf(rs).fcr == rs.fcr && CodeOf(rs).nroots == rs.nroots
  {
  }

  lemma PositionIs(rs: Control, m: nat, k: int, r: nat)
    requires r < rs.nn && m * rs.iprim - 1 == k * rs.nn + r
    ensures Position(rs, m) == r
  {
    ModUnique(m * rs.iprim - 1, rs.nn, k, r);
  }

  lemma WholeTurns(rs: Control, e: nat, m: nat) returns (q: int)
    requires Valid(rs) && Mul(CodeOf(rs).g, Exp(CodeOf(rs).g, e), Exp(CodeOf(rs).g, m)) == 1
    ensures e + m == q * rs.nn
  {
    hide Good, Tables, Valid, Primitive, Top, Exp, Mul;
    var g := CodeOf(rs).g;
    ValidParts(rs);
    MulExp(g, e, m);
    ExpZero(g);
    ExpEqual(g, 0, e + m);
    q := (e + m) / rs.nn;
  }

  lemma PositionArithmetic(iprim: int, prim: int, nn: int, t: int, q: int, m: int, d: int) returns (k: int)
    requires iprim * prim == 1 + t * nn && prim * d + m == q * nn
    ensures m * iprim - 1 == k * nn + (nn - d - 1)
  {
    k := q * iprim - t * d - 1;
    assert m == q * nn - prim * d;
    assert m * iprim == q * nn * iprim - prim * d * iprim by {
      assert (q * nn - prim * d) * iprim == q * nn * iprim - prim * d * iprim;
    }
    assert q * nn * iprim == (q * iprim) * nn;
    assert prim * d * iprim == (iprim * prim) * d == (1 + t * nn) * d == d + (t * d) * nn;
    assert (q * iprim - t * d - 1) * nn == (q * iprim) * nn - (t * d) * nn - nn;
  }

  /** Different roots point at different positions. */
  lemma PositionsDistinct(rs: Control, a: nat, b: nat)
    requires Valid(rs) && 1 <= a < b <= rs.nn
    ensures Position(rs, a) != Position(rs, b)
  {
    hide Good, Tables, Valid, Primitive, Top;
    ValidParts(rs);
    IprimRange(rs);
    var n := rs.nn;
    var x, y := a * rs.iprim - 1, b * rs.iprim - 1;
    if x % n == y % n {
      var t := IprimUnit(rs);
      var q := SameResidue(x, y, n);
      MulSub(rs.iprim, a, b);
      var k := DifferenceArithmetic(rs.iprim, rs.prim, n, t, q, b - a);
      ModMultiple(0, k, n);
      ModUnique(b - a, n, 0, b - a);
    }
  }

  lemma SameResidue(x: int, y: int, n: int) returns (q: int)
    requires n > 0 && x % n == y % n
    ensures y - x == q * n
  {
    q := y / n - x / n;
    assert x == (x / n) * n + x % n && y == (y / n) * n + y % n;
    MulSub(n, x / n, y / n);
  }

  lemma DifferenceArithmetic(iprim: int, prim: int, nn: int, t: int, q: int, d: int) returns (k: int)
    requires iprim * prim == 1 + t * nn && d * iprim == q * nn
    ensures d == 0 + k * nn
  {
    k := q * prim - t * d;
    assert (d * iprim) * prim == d * (iprim * prim) == d * (1 + t * nn) == d + (t * d) * nn;
    assert (q * nn) * prim == (q * prim) * nn;
    assert (q * prim - t * d) * nn == (q * prim) * nn - (t * d) * nn;
  }

  // ---------- the error pattern behind the syndromes ----------

  /** The pattern of a received word w at a codeword cw: their difference. */
  ghost predicate Within(rs: Control, cw: seq<nat>, w: seq<nat>) {
    && Codeword(CodeOf(rs), cw)
    && |cw| == |w|
    && 2 * Distance(cw, w) <= rs.nroots
  }

  lemma ErrorPattern(rs: Control, cw: seq<nat>, w: seq<nat>, syn: seq<nat>)
    requires Valid(rs) && Within(rs, cw, w) && AllIn(CodeOf(rs).g, w) && |w| <= rs.nn && |syn| == rs.nroots
    requires forall i :: 0 <= i < rs.nroots ==> syn[i] == Syndrome(CodeOf(rs), w, i)
    ensures var c, e := CodeOf(rs), XorSeq(cw, w);
      && AllIn(c.g, e)
      && Pattern(c.g, Weight(c, e), Locator(c, |w|), |w|, syn)
      && Support(Weight(c, e), |w|) == Differ(cw, w)
  {
    hide Good, Tables, Valid, Primitive, Top, Syndrome, In, Weight, Locator, PowerSum, XorSeq, Distinct, Support, Differ, Xor;
    var c, e := CodeOf(rs), XorSeq(cw, w);
    ValidParts(rs);
    XorSeqIn(c.g, cw, w);
    XorSupport(c, cw, w);
    LocatorsDistinct(c, |w|);
    WeightSupport(c, e);
    forall k | 0 <= k < |syn| ensures syn[k] == PowerSum(c.g, Weight(c, e), Locator(c, |w|), k, |w|) {
      SyndromeXor(c, cw, w, k);
      XorZero(syn[k]);
      SyndromePower(c, e, k);
    }
  }

  // ---------- the roots are the inverses of the locators ----------

  lemma RootIsInverse(rs: Control, y: Terms, n: nat, lam: seq<nat>, m: nat)
    requires Valid(rs) && n <= rs.nn && Locates(CodeOf(rs).g, y, Locator(CodeOf(rs), n), n, lam) && 1 <= m <= rs.nn
    ensures Eval(CodeOf(rs).g, lam, Exp(CodeOf(rs).g, m)) == 0
       <==> Inv(CodeOf(rs).g, Exp(CodeOf(rs).g, m)) in ErrorLocators(y, Locator(CodeOf(rs), n), n)
  {
    hide Good, Tables, Valid, Primitive, Top, Exp, Mul, Inv, Eval, Prefix, In, Locator, Support;
    var g := CodeOf(rs).g;
    ValidParts(rs);
    var z := Exp(g, m);
    ExpIn(g, m);
    ExpNonzero(g, m);
    InvIn(g, z);
    MulInv(g, z);
    MulComm(g, z, Inv(g, z));
    ReciprocalRoot(g, lam, |Support(y, n)|, Inv(g, z), z);
  }

  lemma InvInv(g: GF, z: nat)
    requires Primitive(g) && In(g, z) && z != 0
    ensures Inv(g, Inv(g, z)) == z
  {
    hide *;
    InvIn(g, z);
    InvIn(g, Inv(g, z));
    MulInv(g, z);
    MulInv(g, Inv(g, z));
    MulComm(g, Inv(g, z), Inv(g, Inv(g, z)));
    MulCancel(g, Inv(g, Inv(g, z)), z, Inv(g, z));
  }

  /** Every nonzero element is x^m for some m in 1..nn. */
  lemma ExponentOf(g: GF, z: nat) returns (m: nat)
    requires Primitive(g) && In(g, z) && z != 0
    ensures 1 <= m <= Top(g) && Exp(g, m) == z
  {
    hide Primitive, Exp, Top, In, Log;
    LogExp(g, z);
    NonzeroTop(g);
    m := Log(g, z);
    if m == 0 {
      m := Top(g);
      ExpMultiple(g, 0, 1);
    }
  }

  lemma PointsAreInverses(rs: Control, y: Terms, n: nat, lam: seq<nat>, root: seq<nat>, loc: seq<nat>)
    requires Valid(rs) && n <= rs.nn && Locates(CodeOf(rs).g, y, Locator(CodeOf(rs), n), n, lam)
    requires Found(rs, lam, root, loc, rs.nn) && AllFound(rs, lam, root, rs.nn)
    ensures Points(CodeOf(rs).g, root) == Inverses(CodeOf(rs).g, ErrorLocators(y, Locator(CodeOf(rs), n), n))
  {
    hide Good, Tables, Valid, Primitive, Top, Exp, Inv, Eval, In, Locator, Locates, ErrorLocators;
    var g, es := CodeOf(rs).g, ErrorLocators(y, Locator(CodeOf(rs), n), n);
    ValidParts(rs);
    forall z | z in Points(g, root) ensures z in Inverses(g, es) {
      var k :| 0 <= k < |root| && Exp(g, root[k]) == z;
      RootIsInverse(rs, y, n, lam, root[k]);
      ExpIn(g, root[k]);
      ExpNonzero(g, root[k]);
      InvInv(g, z);
    }
    forall z | z in Inverses(g, es) ensures z in Points(g, root) {
      var x :| x in es && Inv(g, x) == z;
      LocatorMember(rs, y, n, x);
      InvIn(g, x);
      InvInv(g, x);
      var m := ExponentOf(g, z);
      RootIsInverse(rs, y, n, lam, m);
      assert m in root;
    }
  }

  lemma LocatorMember(rs: Control, y: Terms, n: nat, x: nat)
    requires Valid(rs) && n <= rs.nn && x in ErrorLocators(y, Locator(CodeOf(rs), n), n)
    ensures In(CodeOf(rs).g, x) && x != 0
  {
    hide Good, Tables, Valid, Primitive, Top, In, Locator, Distinct;
    ValidParts(rs);
    LocatorsDistinct(CodeOf(rs), n);
  }

  /** The search lists exactly one root per error. */
  lemma CountIsDistance(rs: Control, y: Terms, n: nat, lam: seq<nat>, root: seq<nat>, loc: seq<nat>)
    requires Valid(rs) && n <= rs.nn && Locates(CodeOf(rs).g, y, Locator(CodeOf(rs), n), n, lam)
    requires Found(rs, lam, root, loc, rs.nn) && AllFound(rs, lam, root, rs.nn)
    ensures |root| == |Support(y, n)|
  {
    hide Good, Tables, Valid, Primitive, Top, Exp, Inv, Eval, In, Locator, Locates, ErrorLocators, AllFound, Distinct, Points, Inverses;
    var g, x := CodeOf(rs).g, Locator(CodeOf(rs), n);
    var es := ErrorLocators(y, x, n);
    ValidParts(rs);
    PointsAreInverses(rs, y, n, lam, root, loc);
    PointsCount(g, root);
    forall e | e in es ensures In(g, e) && e != 0 {
      LocatorMember(rs, y, n, e);
    }
    InverseCount(g, es);
    LocatorsDistinct(CodeOf(rs), n);
    LocatorCount(y, x, n);
  }

  /** Root k of the list stands for the error at position loc[k] - pad. */
  lemma RootPosition(rs: Control, y: Terms, n: nat, lam: seq<nat>, root: seq<nat>, loc: seq<nat>, k: nat)
    requires Valid(rs) && n <= rs.nn && Locates(CodeOf(rs).g, y, Locator(CodeOf(rs), n), n, lam)
    requires Found(rs, lam, root, loc, rs.nn) && k < |root|
    ensures 0 <= loc[k] - (rs.nn - n) < n && loc[k] - (rs.nn - n) in Support(y, n)
    ensures Exp(CodeOf(rs).g, root[k]) == Inv(CodeOf(rs).g, Locator(CodeOf(rs), n)(loc[k] - (rs.nn - n)))
  {
    hide Good, Tables, Valid, Primitive, Top, Exp, Inv, Eval, In, Locator, Locates, Mul, Position;
    var g, x := CodeOf(rs).g, Locator(CodeOf(rs), n);
    ValidParts(rs);
    var z := Exp(g, root[k]);
    RootIsInverse(rs, y, n, lam, root[k]);
    ExpIn(g, root[k]);
    ExpNonzero(g, root[k]);
    InvInv(g, z);
    var j :| 0 <= j < n && y(j) != 0 && x(j) == Inv(g, z);
    MulInv(g, z);
    MulComm(g, z, x(j));
    PositionOfRoot(rs, n, j, root[k]);
  }

  /** Every error has its root in the list. */
  lemma ErrorHasRoot(rs: Control, y: Terms, n: nat, lam: seq<nat>, root: seq<nat>, loc: seq<nat>, j: nat) returns (k: nat)
    requires Valid(rs) && n <= rs.nn && Locates(CodeOf(rs).g, y, Locator(CodeOf(rs), n), n, lam)
    requires Found(rs, lam, root, loc, rs.nn) && AllFound(rs, lam, root, rs.nn) && j in Support(y, n)
    ensures k < |root| && loc[k] == j + (rs.nn - n)
  {
    hide Good, Tables, Valid, Primitive, Top, Exp, Inv, Eval, In, Locator, Locates, Mul, Distinct, Position;
    var g, x := CodeOf(rs).g, Locator(CodeOf(rs), n);
    ValidParts(rs);
    LocatorsDistinct(CodeOf(rs), n);
    assert x(j) in ErrorLocators(y, x, n);
    var z := Inv(g, x(j));
    InvIn(g, x(j));
    InvInv(g, x(j));
    var m := ExponentOf(g, z);
    RootIsInverse(rs, y, n, lam, m);
    assert m in root;
    k :| 0 <= k < |root| && root[k] == m;
    MulInv(g, x(j));
    PositionOfRoot(rs, n, j, m);
  }

  // ---------- the value at a root ----------

  /** num2 X^fcr == X. */
  lemma Num2Power(rs: Control, e: nat, m: nat)
    requires Valid(rs) && 1 <= m <= rs.nn
    requires Exp(CodeOf(rs).g, e + m) == 1
    ensures rs.nn >= 1 && |rs.alphaTo| == rs.nn + 1
    ensures Mul(CodeOf(rs).g, Num2(rs, m), Pow(CodeOf(rs).g, Exp(CodeOf(rs).g, e), rs.fcr)) == Exp(CodeOf(rs).g, e)
  {
    hide Good, Valid, Primitive, Top, Exp, Mul, Pow, In;
    var g, n := CodeOf(rs).g, rs.nn;
    var f: int := rs.fcr;
    ValidParts(rs);
    SafeExponent(rs, m);
    var a: int := m * (f - 1) + n;
    ExpMod(g, a);
    assert Num2(rs, m) == Exp(g, a);
    PowExp(g, e, f);
    MulExp(g, a, e * f);
    // times x^m both sides are 1
    MulExp(g, a + e * f, m);
    MulExp(g, e, m);
    assert a + e * f + m == (e + m) * f + 1 * n by {
      MulSub(m, 1, f);
      MulSub(f, m, e + m);
    }
    ExpMultiple(g, (e + m) * f, 1);
    PowExp(g, e + m, f);
    PowOne(g, f);
    ExpIn(g, a + e * f);
    ExpIn(g, e);
    ExpIn(g, m);
    ExpNonzero(g, m);
    MulCancel(g, Exp(g, a + e * f), Exp(g, e), Exp(g, m));
  }

  /** cor den == om num2, ev xf den == x om and num2 xf == x give cor == ev. */
  lemma ValueCancel(g: GF, cor: nat, ev: nat, den: nat, om: nat, num2: nat, x: nat, xf: nat)
    requires Primitive(g) && In(g, cor) && In(g, ev) && In(g, den) && In(g, xf) && den != 0 && xf != 0
    requires Mul(g, cor, den) == Mul(g, om, num2)
    requires Mul(g, Mul(g, ev, xf), den) == Mul(g, x, om)
    requires Mul(g, num2, xf) == x
    ensures cor == ev
  {
    hide *;
    MulAssoc(g, om, num2, xf);
    MulComm(g, om, x);
    MulSwap(g, ev, xf, den);
    MulIn(g, cor, den);
    MulIn(g, ev, den);
    MulCancel(g, Mul(g, cor, den), Mul(g, ev, den), xf);
    MulCancel(g, cor, ev, den);
  }

  lemma LocatesSize(g: GF, y: Terms, x: Terms, n: nat, lam: seq<nat>)
    requires Locates(g, y, x, n, lam)
    ensures |Support(y, n)| < |lam|
  {
  }

  /** The decoder's value satisfies cor den == omega num2. */
  lemma RootCorrectionProduct(rs: Control, lam: seq<nat>, syn: seq<nat>, deg: nat, m: nat, om: nat, den: nat)
    requires Valid(rs) && rs.nroots >= 1 && 1 <= m <= rs.nn
    requires om == Omega(CodeOf(rs).g, lam, syn, Exp(CodeOf(rs).g, m), deg) != 0
    requires den == Derivative(CodeOf(rs).g, lam, Exp(CodeOf(rs).g, m), OddCount(deg, rs.nroots)) != 0
    ensures rs.nn >= 1 && |rs.alphaTo| == rs.nn + 1
    ensures Mul(CodeOf(rs).g, RootCorrection(rs, lam, syn, deg, m), den) == Mul(CodeOf(rs).g, om, Num2(rs, m))
    ensures In(CodeOf(rs).g, RootCorrection(rs, lam, syn, deg, m)) && In(CodeOf(rs).g, den)
  {
    hide Good, Tables, Valid, Primitive, Top, Exp, In, Mul, Omega, Derivative, CorrectionValue, Num2;
    ValidParts(rs);
    ValueRanges(rs, lam, syn, deg, m, OddCount(deg, rs.nroots));
    Num2Range(rs, m);
    CorrectionProduct(rs, om, Num2(rs, m), den);
    InTop(CodeOf(rs).g, den);
  }

  /** Forney's value at the root of position j is the symbol error there. */
  lemma CorrectionIsError(rs: Control, e: seq<nat>, syn: seq<nat>, lam: seq<nat>, j: nat, m: nat)
    requires Valid(rs) && AllIn(CodeOf(rs).g, e) && |e| <= rs.nn && |syn| == rs.nroots >= 1 && |lam| == rs.nroots + 1
    requires var c := CodeOf(rs);
      && Pattern(c.g, Weight(c, e), Locator(c, |e|), |e|, syn)
      && Locates(c.g, Weight(c, e), Locator(c, |e|), |e|, lam)
      && j in Support(Weight(c, e), |e|)
      && Exp(c.g, m) == Inv(c.g, Locator(c, |e|)(j))
    requires 1 <= m <= rs.nn
    ensures RootCorrection(rs, lam, syn, |Support(Weight(CodeOf(rs), e), |e|)|, m) == e[j]
  {
    hide Good, Tables, Valid, Primitive, Top, Exp, Inv, In, Mul, Pow, Omega, Derivative, RootCorrection, Num2, Pattern,
         Support, Distinct, Locates, Weight, Locator;
    var c, g, n := CodeOf(rs), CodeOf(rs).g, |e|;
    var y, x := Weight(c, e), Locator(c, n);
    var v := |Support(y, n)|;
    ValidParts(rs);
    SupportRange(y, n, j);
    LocatesSize(g, y, x, n, lam);
    LocatorsDistinct(c, n);
    var t := OddCount(v, rs.nroots);
    ForneyFormula(g, y, x, n, syn, lam, j, t);
    var om, den := Omega(g, lam, syn, Exp(g, m), v), Derivative(g, lam, Exp(g, m), t);
    RootCorrectionProduct(rs, lam, syn, v, m, om, den);
    var ex := WeightAt(c, e, j);
    MulInv(g, x(j));
    MulExp(g, ex, m);
    Num2Power(rs, ex, m);
    PowIn(g, x(j), rs.fcr);
    PowNonzero(g, x(j), rs.fcr);
    ValueCancel(g, RootCorrection(rs, lam, syn, v, m), e[j], den, om, Num2(rs, m), x(j), Pow(g, x(j), rs.fcr));
  }

  lemma WeightAt(c: Code, e: seq<nat>, j: nat) returns (ex: nat)
    requires j < |e|
    ensures Locator(c, |e|)(j) == Exp(c.g, ex)
    ensures Weight(c, e)(j) == Mul(c.g, e[j], Pow(c.g, Locator(c, |e|)(j), c.fcr))
  {
    hide Exp, Mul, Pow;
    ex := c.prim * (|e| - 1 - j);
  }

  lemma SupportRange(y: Terms, n: nat, j: int)
    requires j in Support(y, n)
    ensures 0 <= j < n && y(j) != 0
  {
  }

  // ---------- decode_rs8 / decode_rs16 ----------

  /** Within capacity, lambda and its degree are the locator polynomial and the number of errors. */
  lemma CapacityLocates(rs: Control, cw: seq<nat>, w: seq<nat>, syn: seq<nat>, lam: seq<nat>, el: nat, deg: nat)
    requires Valid(rs) && Within(rs, cw, w) && AllIn(CodeOf(rs).g, w) && |w| <= rs.nn && |syn| == rs.nroots
    requires forall i :: 0 <= i < rs.nroots ==> syn[i] == Syndrome(CodeOf(rs), w, i)
    requires |lam| == rs.nroots + 1 && Recurrence(CodeOf(rs).g, lam, el, syn, |syn|) && Shortest(CodeOf(rs).g, el, syn, |syn|)
    requires deg < |lam| && DegreeAtMost(lam, deg) && (deg > 0 ==> lam[deg] != 0)
    ensures Locates(CodeOf(rs).g, Weight(CodeOf(rs), XorSeq(cw, w)), Locator(CodeOf(rs), |w|), |w|, lam)
    ensures deg == |Support(Weight(CodeOf(rs), XorSeq(cw, w)), |w|)| == Distance(cw, w)
  {
    hide Good, Tables, Valid, Primitive, Top, Syndrome, In, Weight, Locator, Pattern, Support, Differ, XorSeq, Recurrence,
         Shortest, Prefix, ErrorLocators, Codeword;
    var c, e := CodeOf(rs), XorSeq(cw, w);
    ValidParts(rs);
    ErrorPattern(rs, cw, w, syn);
    ShortestLocates(c.g, Weight(c, e), Locator(c, |w|), |w|, syn, lam, el);
  }

  /** After correction each data symbol has been exclusive-ored with its error. */
  lemma CorrectedData(rs: Control, cw: seq<nat>, w: seq<nat>, syn: seq<nat>, lam: seq<nat>, root: seq<nat>, loc: seq<nat>,
                      was: seq<nat>, now: seq<nat>, len: nat, deg: nat, p: nat)
    requires Valid(rs) && rs.nroots >= 1 && Within(rs, cw, w) && AllIn(CodeOf(rs).g, w)
    requires |w| == len + rs.nroots <= rs.nn && |syn| == rs.nroots && |lam| == rs.nroots + 1
    requires forall i :: 0 <= i < rs.nroots ==> syn[i] == Syndrome(CodeOf(rs), w, i)
    requires Locates(CodeOf(rs).g, Weight(CodeOf(rs), XorSeq(cw, w)), Locator(CodeOf(rs), |w|), |w|, lam)
    requires deg == |Support(Weight(CodeOf(rs), XorSeq(cw, w)), |w|)|
    requires Found(rs, lam, root, loc, rs.nn) && AllFound(rs, lam, root, rs.nn)
    requires (forall k :: 0 <= k < |root| ==> root[k] <= rs.nn) && |root| == |loc| && p < len <= |was|
    requires now == Patch(was, loc, Corrections(rs, lam, syn, deg, root), rs.nn - rs.nroots - len, len, 0)
    ensures now[p] == Xor(was[p], Xor(cw[p], w[p]))
  {
    hide Good, Tables, Valid, Primitive, Top, Syndrome, In, Weight, Locator, Pattern, Support, Differ, Xor,
         Locates, AllFound, Codeword, RootCorrection, Eval, Exp, Position, Patch;
    var c, e := CodeOf(rs), XorSeq(cw, w);
    var y, n := Weight(c, e), |w|;
    ValidParts(rs);
    ErrorPattern(rs, cw, w, syn);
    if p in Support(y, n) {
      var k := ErrorHasRoot(rs, y, n, lam, root, loc, p);
      RootPosition(rs, y, n, lam, root, loc, k);
      CorrectionIsError(rs, e, syn, lam, p, root[k]);
      LocationsDistinct(rs, lam, root, loc);
      PatchHit(was, loc, Corrections(rs, lam, syn, deg, root), rs.nn - n, len, 0, k);
    } else {
      forall k | 0 <= k < |loc| ensures loc[k] != p + (rs.nn - n) {
        RootPosition(rs, y, n, lam, root, loc, k);
      }
      PatchMiss(was, loc, Corrections(rs, lam, syn, deg, root), rs.nn - n, len, 0, p);
      UnchangedSymbol(cw, w, p) by { NotDiffer(cw, w, p); }
      XorZero(was[p]);
    }
  }

  lemma NotDiffer(a: seq<nat>, b: seq<nat>, p: nat)
    requires |a| == |b| && p < |a| && p !in Differ(a, b)
    ensures a[p] == b[p]
  {
  }

  lemma UnchangedSymbol(a: seq<nat>, b: seq<nat>, p: nat)
    requires |a| == |b| && p < |a| && a[p] == b[p]
    ensures Xor(a[p], b[p]) == 0
  {
    hide Xor;
    XorSelf(a[p]);
  }

  /** A codeword within reach of a word with zero syndromes is that word. */
  lemma ZeroSyndromes(rs: Control, cw: seq<nat>, w: seq<nat>)
    requires Valid(rs) && Within(rs, cw, w) && AllIn(CodeOf(rs).g, w) && |w| <= rs.nn
    requires forall i :: 0 <= i < rs.nroots ==> Syndrome(CodeOf(rs), w, i) == 0
    ensures cw == w && Distance(cw, w) == 0
  {
    hide Good, Tables, Valid, Primitive, Top, Syndrome, In;
    ValidParts(rs);
    CloseCodewordsEqual(CodeOf(rs), cw, w);
    assert Differ(cw, w) == {};
  }

  /** What decoding promises about one codeword within reach of the received word. */
  ghost predicate Restored(rs: Control, cw: seq<nat>, w: seq<nat>, was: seq<nat>, now: seq<nat>, len: nat, ret: int)
    requires |cw| == |w| && len <= |w| && len <= |was| == |now|
  {
    && ret == Distance(cw, w)
    && forall p :: 0 <= p < len ==> now[p] == Xor(was[p], Xor(cw[p], w[p]))
  }

  /** From index-form syndromes to the locator polynomial and its listed roots. */
  method LocateErrors(rs: Control, s: array<nat>, ghost syn: seq<nat>)
    returns (lambda: array<nat>, deg: nat, root: array<nat>, loc: array<nat>, count: nat, ghost lam: seq<nat>, ghost el: nat)
    requires Valid(rs) && s.Length == rs.nroots && Indices(rs, s[..]) && Vals(rs, s[..]) == syn
    ensures fresh(lambda) && fresh(root) && fresh(loc)
    ensures lambda.Length == rs.nroots + 1 && Indices(rs, lambda[..]) && Vals(rs, lambda[..]) == lam
    ensures Recurrence(CodeOf(rs).g, lam, el, syn, rs.nroots) && Shortest(CodeOf(rs).g, el, syn, rs.nroots)
    ensures deg <= rs.nroots && DegreeAtMost(lam, deg) && (deg > 0 ==> lam[deg] != 0)
    ensures root.Length == loc.Length == rs.nroots && count <= deg
    ensures Found(rs, lam, root[..count], loc[..count], rs.nn) && AllFound(rs, lam, root[..count], rs.nn)
  {
    hide Good, Tables, Valid, In, Vals, Recurrence, Shortest, Found, AllFound;
    lambda, el := FindLocator(rs, s, syn);
    lam := lambda[..];
    deg := LocatorToIndex(rs, lambda);
    ghost var index := lambda[..];
    RecurrenceIn(CodeOf(rs).g, lam, el, syn, s.Length);
    root, loc, count := ChienSearch(rs, lambda, deg, lam);
    assert lambda[..] == index;
  }

  // ---------- when decoding fails ----------

  /** The index of the last nonzero coefficient, or zero. */
  ghost function Degree(p: seq<nat>): (d: nat)
    ensures At(p, 0) != 0 ==> At(p, d) != 0
    ensures forall i :: d < i ==> At(p, i) == 0
  {
    if |p| == 0 then 0
    else if p[|p| - 1] != 0 then |p| - 1
    else
      assert forall i :: At(p, i) == At(p[..|p| - 1], i);
      Degree(p[..|p| - 1])
  }

  /** The nonzero field elements at which p vanishes. */
  ghost function Zeroes(g: GF, p: seq<nat>): set<nat> {
    set z | 0 < z <= Top(g) && Eval(g, p, z) == 0
  }

  /** What a locator polynomial makes of decoding: its degree if it has that many zeros among the nonzero field elements, and failure otherwise. */
  ghost function Outcome(g: GF, lam: seq<nat>): int {
    if |Zeroes(g, lam)| == Degree(lam) then Degree(lam) else -EBADMSG
  }

  ghost function SyndromesOf(c: Code, w: seq<nat>): (s: seq<nat>)
    ensures |s| == c.nroots && forall i :: 0 <= i < c.nroots ==> s[i] == Syndrome(c, w, i)
  {
    seq(c.nroots, i requires 0 <= i < c.nroots => Syndrome(c, w, i))
  }

  /** lam is a shortest recurrence, el long, of the syndromes s. */
  ghost predicate IsLocator(g: GF, lam: seq<nat>, el: nat, s: seq<nat>) {
    Recurrence(g, lam, el, s, |s|) && Shortest(g, el, s, |s|)
  }

  /** The result is the outcome of a shortest recurrence of the syndromes, and of every one that is at most half as long as they are many. */
  ghost predicate Decides(g: GF, s: seq<nat>, ret: int) {
    && (exists lam: seq<nat>, el: nat :: IsLocator(g, lam, el, s) && ret == Outcome(g, lam))
    && (forall lam: seq<nat>, el: nat :: IsLocator(g, lam, el, s) && 2 * el <= |s| ==> ret == Outcome(g, lam))
  }

  lemma SameEval(g: GF, a: seq<nat>, b: seq<nat>, z: nat)
    requires forall i: nat :: At(a, i) == At(b, i)
    ensures Eval(g, a, z) == Eval(g, b, z)
  {
    if |a| <= |b| {
      SameEvalShorter(g, a, b, z);
    } else {
      SameEvalShorter(g, b, a, z);
    }
  }

  lemma SameEvalShorter(g: GF, a: seq<nat>, b: seq<nat>, z: nat)
    requires |a| <= |b| && forall i: nat :: At(a, i) == At(b, i)
    ensures Eval(g, a, z) == Eval(g, b, z)
  {
    hide Sum, Mul, Pow;
    var f, h := EvalTerm(g, a, z), EvalTerm(g, b, z);
    forall i: nat ensures f(i) == h(i) {
      assert At(a, i) == At(b, i);
    }
    forall i | |a| <= i < |b| ensures h(i) == 0 {
      assert At(b, i) == At(a, i) == 0;
      MulZero(g, Pow(g, z, i));
    }
    SumEqual(f, h, |a|);
    SumTail(h, |a|, |b|);
  }

  lemma SameOutcome(g: GF, a: seq<nat>, b: seq<nat>)
    requires At(a, 0) == 1 && forall i: nat :: At(a, i) == At(b, i)
    ensures Outcome(g, a) == Outcome(g, b)
  {
    hide Eval;
    forall z: nat ensures Eval(g, a, z) == Eval(g, b, z) {
      SameEval(g, a, b, z);
    }
    assert Zeroes(g, a) == Zeroes(g, b);
    assert At(a, Degree(a)) == At(b, Degree(a)) && At(a, Degree(b)) == At(b, Degree(b));
  }

  /** One short locator decides for all of them. */
  lemma OneDecides(g: GF, s: seq<nat>, lam: seq<nat>, el: nat)
    requires Primitive(g) && IsLocator(g, lam, el, s)
    ensures Decides(g, s, Outcome(g, lam))
  {
    hide Primitive, Conv, Outcome;
    forall p: seq<nat>, l: nat | IsLocator(g, p, l, s) && 2 * l <= |s| ensures Outcome(g, lam) == Outcome(g, p) {
      assert l == el;
      forall i: nat ensures At(lam, i) == At(p, i) {
        ShortestUnique(g, lam, p, el, s, |s|, i);
      }
      SameOutcome(g, lam, p);
    }
  }

  /** What the search finds is the outcome. */
  lemma SearchOutcome(rs: Control, lam: seq<nat>, deg: nat, root: seq<nat>, loc: seq<nat>)
    requires Valid(rs) && deg < |lam| && lam[0] == 1 && DegreeAtMost(lam, deg) && (deg > 0 ==> lam[deg] != 0)
    requires Found(rs, lam, root, loc, rs.nn) && AllFound(rs, lam, root, rs.nn)
    ensures Outcome(CodeOf(rs).g, lam) == if |root| == deg then deg else -EBADMSG
  {
    hide Good, Tables, Valid, Primitive, Exp, Eval;
    var g := CodeOf(rs).g;
    ValidParts(rs);
    forall z | z in Zeroes(g, lam) ensures z in Points(g, root) {
      var m := ExponentOf(g, z);
      assert m in root;
    }
    forall z | z in Points(g, root) ensures z in Zeroes(g, lam) {
      var k :| 0 <= k < |root| && Exp(g, root[k]) == z;
      ExpIn(g, root[k]);
      ExpNonzero(g, root[k]);
    }
    assert Zeroes(g, lam) == Points(g, root);
    PointsCount(g, root);
    DegreeIs(lam, deg);
  }

  lemma DegreeIs(lam: seq<nat>, deg: nat)
    requires deg < |lam| && lam[0] == 1 && DegreeAtMost(lam, deg) && (deg > 0 ==> lam[deg] != 0)
    ensures Degree(lam) == deg
  {
    assert At(lam, 0) == 1 && At(lam, deg) != 0;
    assert forall i :: deg < i ==> At(lam, i) == 0;
  }

  /** A data symbol is corrected by the value at the zero of lam that points at it, and stays if there is none. */
  ghost predicate Applied(rs: Control, syn: seq<nat>, lam: seq<nat>, was: seq<nat>, now: seq<nat>, len: nat)
    requires Valid(rs) && rs.nroots >= 1 && len <= |was| == |now|
  {
    forall p :: 0 <= p < len ==> SymbolApplied(rs, syn, lam, was[p], now[p], p + rs.nn - rs.nroots - len)
  }

  ghost predicate SymbolApplied(rs: Control, syn: seq<nat>, lam: seq<nat>, was: nat, now: nat, position: int)
    requires Valid(rs) && rs.nroots >= 1
  {
    && (forall m :: PointsAt(rs, lam, m, position) ==> now == Xor(was, RootCorrection(rs, lam, syn, Degree(lam), m)))
    && ((forall m :: !PointsAt(rs, lam, m, position)) ==> now == was)
  }

  /** x^m is a zero of lam and stands for this position of the full block. */
  ghost predicate PointsAt(rs: Control, lam: seq<nat>, m: nat, position: int) {
    1 <= m <= rs.nn && Eval(CodeOf(rs).g, lam, Exp(CodeOf(rs).g, m)) == 0 && Position(rs, m) == position
  }

  /** The data is what some shortest recurrence of the syndromes, with this outcome, makes of it. */
  ghost predicate Corrects(rs: Control, syn: seq<nat>, was: seq<nat>, now: seq<nat>, len: nat, ret: int)
    requires Valid(rs) && len <= |was| == |now|
  {
    exists lam: seq<nat>, el: nat :: IsLocator(CodeOf(rs).g, lam, el, syn) && ret == Outcome(CodeOf(rs).g, lam)
      && (if ret > 0 then rs.nroots >= 1 && Applied(rs, syn, lam, was, now, len) else now == was)
  }

  lemma PatchApplies(rs: Control, syn: seq<nat>, lam: seq<nat>, deg: nat, root: seq<nat>, loc: seq<nat>, was: seq<nat>, now: seq<nat>, len: nat)
    requires Valid(rs) && rs.nroots >= 1 && len <= |was| && len + rs.nroots <= rs.nn
    requires deg < |lam| && lam[0] == 1 && DegreeAtMost(lam, deg) && (deg > 0 ==> lam[deg] != 0)
    requires Found(rs, lam, root, loc, rs.nn) && AllFound(rs, lam, root, rs.nn)
    requires (forall k :: 0 <= k < |root| ==> root[k] <= rs.nn) && |root| == |loc|
    requires forall j, k :: 0 <= j < k < |loc| ==> loc[j] != loc[k]
    requires now == Patch(was, loc, Corrections(rs, lam, syn, deg, root), rs.nn - rs.nroots - len, len, 0)
    ensures |now| == |was| && Applied(rs, syn, lam, was, now, len)
  {
    hide Good, Tables, Valid, Eval, Exp, Position, Xor, RootCorrection, Patch;
    DegreeIs(lam, deg);
    var pad := rs.nn - rs.nroots - len;
    var cor := Corrections(rs, lam, syn, deg, root);
    forall p | 0 <= p < len ensures SymbolApplied(rs, syn, lam, was[p], now[p], p + rs.nn - rs.nroots - len) {
      var q := p + pad;
      assert q == p + rs.nn - rs.nroots - len;
      forall m: nat | PointsAt(rs, lam, m, q) ensures now[p] == Xor(was[p], RootCorrection(rs, lam, syn, deg, m)) {
        assert m in root;
        var k :| 0 <= k < |root| && root[k] == m;
        PatchHit(was, loc, cor, pad, len, 0, k);
      }
      if forall m :: !PointsAt(rs, lam, m, q) {
        forall k | 0 <= k < |loc| ensures loc[k] != q {
          assert !PointsAt(rs, lam, root[k], q);
        }
        PatchMiss(was, loc, cor, pad, len, 0, p);
      }
    }
  }

  /** Zero syndromes: the constant polynomial, which has no zero. */
  lemma NothingDecides(rs: Control, s: seq<nat>)
    requires Valid(rs) && AllZero(s)
    ensures Decides(CodeOf(rs).g, s, 0)
  {
    hide Valid, Primitive, Exp, Eval, Good, Tables;
    var g := CodeOf(rs).g;
    ValidParts(rs);
    var one: seq<nat> := [1];
    InOne(g);
    forall k: nat ensures Conv(g, one, s, k) == 0 {
      ConvOfZero(g, one, s, k);
    }
    assert IsLocator(g, one, 0, s);
    forall z | 0 < z <= Top(g) ensures Eval(g, one, z) != 0 {
      var m := ExponentOf(g, z);
      ConstantHasNoRoot(rs, one, m);
    }
    assert Zeroes(g, one) == {};
    assert Outcome(g, one) == 0;
    OneDecides(g, s, one, 0);
  }

  lemma ConvOfZero(g: GF, p: seq<nat>, s: seq<nat>, k: nat)
    requires Primitive(g) && AllZero(s)
    ensures Conv(g, p, s, k) == 0
  {
    hide Primitive, Mul, Sum;
    var f := ConvTerm(g, p, s, k);
    forall i | 0 <= i < k + 1 ensures f(i) == 0 {
      MulComm(g, At(p, i), At(s, k - i));
      MulZero(g, At(p, i));
    }
    SumZero(f, k + 1);
  }

  /** Decodes in place. Whatever was received: the result is the number of roots found or -EBADMSG, as the shortest recurrence of the syndromes decides,
      the data changes only when it is positive, and then in at most that many symbols. Every codeword within nroots/2 symbols of the
      received word is restored, and the result is its distance. */
  method DecodeRs(rs: Control, data: array<nat>, par: array<nat>, len: nat, invmsk: nat) returns (ret: int)
    requires Valid(rs) && 1 <= len <= data.Length && len + rs.nroots <= rs.nn
    requires par.Length == rs.nroots && data != par
    modifies data
    ensures ret == -EBADMSG || 0 <= ret <= rs.nroots
    ensures Decides(CodeOf(rs).g, SyndromesOf(CodeOf(rs), old(Received(CodeOf(rs).g, data[..len], par[..], invmsk))), ret)
    ensures Corrects(rs, SyndromesOf(CodeOf(rs), old(Received(CodeOf(rs).g, data[..len], par[..], invmsk))), old(data[..]), data[..], len, ret)
    ensures ret <= 0 ==> data[..] == old(data[..])
    ensures ret >= 0 ==> Distance(old(data[..]), data[..]) <= ret
    ensures forall p :: len <= p < data.Length ==> data[p] == old(data[p])
    ensures forall cw :: Within(rs, cw, old(Received(CodeOf(rs).g, data[..len], par[..], invmsk))) ==>
              Restored(rs, cw, old(Received(CodeOf(rs).g, data[..len], par[..], invmsk)), old(data[..]), data[..], len, ret)
  {
    hide Good, Tables, Valid, Primitive, Top, Syndrome, In, Received, Vals, Recurrence, Shortest, Codeword, Distance, Xor,
         Found, AllFound, RootCorrection, Restored, Exp, Patch, Corrections, Indices, DegreeAtMost, Decides, Outcome, IsLocator, SyndromesOf, Corrects, Applied;
    ghost var c, was := CodeOf(rs), data[..];
    ghost var w := Received(c.g, data[..len], par[..], invmsk);
    ValidParts(rs);
    var s := FormSyndromes(rs, data, par, len, invmsk);
    ghost var syn := s[..];
    var synError := ToIndexForm(rs, s);
    ghost var index := s[..];
    assert data[..] == was && syn == SyndromesOf(c, w);
    if !synError {
      NothingDecides(rs, syn);
      Unchanged(rs, syn, was, len, 0);
      assert forall i :: 0 <= i < rs.nroots ==> Syndrome(c, w, i) == syn[i] == 0;
      forall cw | Within(rs, cw, w) ensures Restored(rs, cw, w, was, was, len, 0) {
        NothingToRestore(rs, cw, w, was, len);
      }
      SameDistance(was);
      return 0;
    }
    IndicesOf(rs, index);
    var lambda, deg, root, loc, count, lam, el := LocateErrors(rs, s, syn);
    assert data[..] == was && s[..] == index;
    ghost var roots, locs := root[..count], loc[..count];
    LocatorDecides(rs, syn, lam, el, deg, roots, locs);
    forall cw | Within(rs, cw, w) ensures count == deg == Distance(cw, w) {
      RootsAreErrors(rs, cw, w, syn, lam, el, deg, roots, locs);
    }
    if deg != count {
      Unchanged(rs, syn, was, len, -EBADMSG);
      return -EBADMSG;
    }
    LocationsDistinct(rs, lam, roots, locs);
    assert forall k :: 0 <= k < count ==> root[k] == roots[k];
    CorrectErrors(rs, data, len, s, lambda, deg, root, loc, count, syn, lam);
    assert root[..count] == roots && loc[..count] == locs;
    ret := count;
    ghost var now := data[..];
    forall cw | Within(rs, cw, w) ensures Restored(rs, cw, w, was, now, len, ret) {
      EverythingRestored(rs, cw, w, syn, lam, el, deg, roots, locs, was, now, len);
    }
    CorrectsBy(rs, syn, lam, el, deg, roots, locs, was, now, len);
    OutsideUntouched(was, locs, Corrections(rs, lam, syn, deg, roots), rs.nn - rs.nroots - len, len);
    PatchDistance(was, locs, Corrections(rs, lam, syn, deg, roots), rs.nn - rs.nroots - len, len, 0);
  }

  lemma LocatorDecides(rs: Control, syn: seq<nat>, lam: seq<nat>, el: nat, deg: nat, root: seq<nat>, loc: seq<nat>)
    requires Valid(rs) && |syn| == rs.nroots && |lam| == rs.nroots + 1
    requires Recurrence(CodeOf(rs).g, lam, el, syn, rs.nroots) && Shortest(CodeOf(rs).g, el, syn, rs.nroots)
    requires deg <= rs.nroots && DegreeAtMost(lam, deg) && (deg > 0 ==> lam[deg] != 0)
    requires Found(rs, lam, root, loc, rs.nn) && AllFound(rs, lam, root, rs.nn)
    ensures Decides(CodeOf(rs).g, syn, if |root| == deg then deg else -EBADMSG)
  {
    hide Good, Tables, Valid, Primitive, Found, AllFound, Outcome, Decides, Conv;
    ValidParts(rs);
    SearchOutcome(rs, lam, deg, root, loc);
    OneDecides(CodeOf(rs).g, syn, lam, el);
  }

  lemma Unchanged(rs: Control, syn: seq<nat>, was: seq<nat>, len: nat, ret: int)
    requires Valid(rs) && len <= |was| && ret <= 0 && Decides(CodeOf(rs).g, syn, ret)
    ensures Corrects(rs, syn, was, was, len, ret)
  {
    hide Valid, IsLocator, Outcome, Applied;
  }

  lemma CorrectsBy(rs: Control, syn: seq<nat>, lam: seq<nat>, el: nat, deg: nat, root: seq<nat>, loc: seq<nat>, was: seq<nat>, now: seq<nat>, len: nat)
    requires Valid(rs) && rs.nroots >= 1 && |syn| == rs.nroots && |lam| == rs.nroots + 1 && len <= |was| && len + rs.nroots <= rs.nn
    requires Recurrence(CodeOf(rs).g, lam, el, syn, rs.nroots) && Shortest(CodeOf(rs).g, el, syn, rs.nroots)
    requires deg <= rs.nroots && DegreeAtMost(lam, deg) && (deg > 0 ==> lam[deg] != 0)
    requires Found(rs, lam, root, loc, rs.nn) && AllFound(rs, lam, root, rs.nn) && |root| == deg
    requires (forall k :: 0 <= k < |root| ==> root[k] <= rs.nn) && |root| == |loc|
    requires forall j, k :: 0 <= j < k < |loc| ==> loc[j] != loc[k]
    requires now == Patch(was, loc, Corrections(rs, lam, syn, deg, root), rs.nn - rs.nroots - len, len, 0)
    ensures |now| == |was| && Corrects(rs, syn, was, now, len, deg)
  {
    hide Good, Tables, Valid, Found, AllFound, Outcome, Conv, Corrections, Patch, Applied;
    SearchOutcome(rs, lam, deg, root, loc);
    PatchApplies(rs, syn, lam, deg, root, loc, was, now, len);
    OutsideUntouched(was, loc, Corrections(rs, lam, syn, deg, root), rs.nn - rs.nroots - len, len);
    assert IsLocator(CodeOf(rs).g, lam, el, syn);
  }

  lemma SameDistance(w: seq<nat>)
    ensures Distance(w, w) == 0
  {
  }

  /** Each root changes at most one symbol. */
  lemma {:induction false} PatchDistance(was: seq<nat>, loc: seq<nat>, cor: seq<nat>, pad: nat, len: nat, j: nat)
    requires |loc| == |cor| && len <= |was| && j <= |loc|
    ensures Distance(was, Patch(was, loc, cor, pad, len, j)) <= |loc| - j
    decreases |loc| - j
  {
    hide Xor;
    if j < |loc| {
      PatchDistance(was, loc, cor, pad, len, j + 1);
      var d, now := Patch(was, loc, cor, pad, len, j + 1), Patch(was, loc, cor, pad, len, j);
      assert Differ(was, now) <= Differ(was, d) + {loc[j] - pad};
      SubsetSize(Differ(was, now), Differ(was, d), loc[j] - pad);
    }
  }

  lemma SubsetSize(a: set<int>, b: set<int>, x: int)
    requires a <= b + {x}
    ensures |a| <= |b| + 1
  {
    assert a - {x} <= b;
    SubsetCard(a - {x}, b);
  }

  lemma IndicesOf(rs: Control, a: seq<nat>)
    requires |rs.alphaTo| == rs.nn + 1 && forall i :: 0 <= i < |a| ==> a[i] <= rs.nn
    ensures Indices(rs, a)
  {
  }

  lemma OutsideUntouched(was: seq<nat>, loc: seq<nat>, cor: seq<nat>, pad: nat, len: nat)
    requires |loc| == |cor| && len <= |was|
    ensures forall p :: len <= p < |was| ==> Patch(was, loc, cor, pad, len, 0)[p] == was[p]
    ensures |loc| == 0 ==> Patch(was, loc, cor, pad, len, 0) == was
  {
    forall p | len <= p < |was| ensures Patch(was, loc, cor, pad, len, 0)[p] == was[p] {
      PatchMiss(was, loc, cor, pad, len, 0, p);
    }
  }

  lemma RecurrenceIn(g: GF, lam: seq<nat>, l: nat, s: seq<nat>, n: nat)
    requires Recurrence(g, lam, l, s, n)
    ensures AllIn(g, lam)
  {
    hide Conv;
  }

  lemma NothingToRestore(rs: Control, cw: seq<nat>, w: seq<nat>, was: seq<nat>, len: nat)
    requires Valid(rs) && Within(rs, cw, w) && AllIn(CodeOf(rs).g, w) && |w| <= rs.nn && len <= |w| && len <= |was|
    requires forall i :: 0 <= i < rs.nroots ==> Syndrome(CodeOf(rs), w, i) == 0
    ensures |cw| == |w| && Restored(rs, cw, w, was, was, len, 0)
  {
    hide Good, Tables, Valid, Primitive, Top, Syndrome, In, Xor;
    ZeroSyndromes(rs, cw, w);
    forall p | 0 <= p < len ensures was[p] == Xor(was[p], Xor(cw[p], w[p])) {
      XorSelf(w[p]);
      XorZero(was[p]);
    }
  }

  lemma RootsAreErrors(rs: Control, cw: seq<nat>, w: seq<nat>, syn: seq<nat>, lam: seq<nat>, el: nat, deg: nat,
                       root: seq<nat>, loc: seq<nat>)
    requires Valid(rs) && Within(rs, cw, w) && AllIn(CodeOf(rs).g, w) && |w| <= rs.nn && |syn| == rs.nroots
    requires forall i :: 0 <= i < rs.nroots ==> syn[i] == Syndrome(CodeOf(rs), w, i)
    requires |lam| == rs.nroots + 1 && Recurrence(CodeOf(rs).g, lam, el, syn, |syn|) && Shortest(CodeOf(rs).g, el, syn, |syn|)
    requires deg < |lam| && DegreeAtMost(lam, deg) && (deg > 0 ==> lam[deg] != 0)
    requires Found(rs, lam, root, loc, rs.nn) && AllFound(rs, lam, root, rs.nn)
    ensures |cw| == |w| && |root| == deg == Distance(cw, w)
  {
    hide Good, Tables, Valid, Primitive, Top, Syndrome, In, Recurrence, Shortest, Found, AllFound, Weight, Locates, Codeword;
    CapacityLocates(rs, cw, w, syn, lam, el, deg);
    CountIsDistance(rs, Weight(CodeOf(rs), XorSeq(cw, w)), |w|, lam, root, loc);
  }

  lemma LocationsDistinct(rs: Control, lam: seq<nat>, root: seq<nat>, loc: seq<nat>)
    requires Valid(rs) && Found(rs, lam, root, loc, rs.nn)
    ensures forall j, k :: 0 <= j < k < |loc| ==> loc[j] != loc[k]
    ensures forall k :: 0 <= k < |root| ==> root[k] <= rs.nn
  {
    hide Good, Tables, Valid, Eval, Exp, Position;
    forall j, k | 0 <= j < k < |loc| ensures loc[j] != loc[k] {
      PositionsDistinct(rs, root[j], root[k]);
    }
  }

  lemma EverythingRestored(rs: Control, cw: seq<nat>, w: seq<nat>, syn: seq<nat>, lam: seq<nat>, el: nat, deg: nat,
                           root: seq<nat>, loc: seq<nat>, was: seq<nat>, now: seq<nat>, len: nat)
    requires Valid(rs) && rs.nroots >= 1 && Within(rs, cw, w) && AllIn(CodeOf(rs).g, w)
    requires |w| == len + rs.nroots <= rs.nn && |syn| == rs.nroots
    requires forall i :: 0 <= i < rs.nroots ==> syn[i] == Syndrome(CodeOf(rs), w, i)
    requires |lam| == rs.nroots + 1 && Recurrence(CodeOf(rs).g, lam, el, syn, |syn|) && Shortest(CodeOf(rs).g, el, syn, |syn|)
    requires deg < |lam| && DegreeAtMost(lam, deg) && (deg > 0 ==> lam[deg] != 0)
    requires Found(rs, lam, root, loc, rs.nn) && AllFound(rs, lam, root, rs.nn)
    requires (forall k :: 0 <= k < |root| ==> root[k] <= rs.nn) && |root| == |loc| && len <= |was|
    requires now == Patch(was, loc, Corrections(rs, lam, syn, deg, root), rs.nn - rs.nroots - len, len, 0)
    ensures |cw| == |w| && Restored(rs, cw, w, was, now, len, deg)
  {
    hide Good, Tables, Valid, Primitive, Top, Syndrome, In, Recurrence, Shortest, Found, AllFound, Weight, Locates, Codeword,
         DegreeAtMost, Xor, RootCorrection, Patch, Corrections;
    CapacityLocates(rs, cw, w, syn, lam, el, deg);
    forall p | 0 <= p < len ensures now[p] == Xor(was[p], Xor(cw[p], w[p])) {
      CorrectedData(rs, cw, w, syn, lam, root, loc, was, now, len, deg, p);
    }
  }
}
