/** Forney's formula: error values from the evaluator polynomial and the formal
    derivative of the locator. */
module Forney {
  import opened BitXor
  import opened GaloisField
  import opened FieldLaws
  import opened Sums
  import opened Polynomials
  import opened Recurrences
  import opened ErrorLocator

  ghost function QuotientTerm(g: GF, lam: seq<nat>, x: nat, z: nat): Terms {
    k => Mul(g, Prefix(g, lam, k, x), if k >= 0 then Pow(g, z, k) else 0)
  }

  /** The first m terms of lam(z) / (1 - x z). */
  ghost function QuotientSum(g: GF, lam: seq<nat>, x: nat, z: nat, m: nat): nat {
    Sum(QuotientTerm(g, lam, x, z), m)
  }

  /** (1 + xz)(a + qp) + (u + xq) pz regrouped, where p = z^m. */
  lemma QuotientRegroup(g: GF, w: nat, a: nat, q: nat, u: nat, x: nat, p: nat, z: nat)
    requires Primitive(g) && w == Xor(1, Mul(g, x, z))
    ensures Xor(Xor(Mul(g, w, a), Mul(g, q, p)), Mul(g, Xor(u, Mul(g, q, x)), Mul(g, p, z)))
         == Xor(Mul(g, w, Xor(a, Mul(g, q, p))), Mul(g, u, Mul(g, p, z)))
  {
    hide *;
    var wa, qp, pz := Mul(g, w, a), Mul(g, q, p), Mul(g, p, z);
    var up, c := Mul(g, u, pz), Mul(g, Mul(g, x, z), qp);
    MulXorLeft(g, u, Mul(g, q, x), pz);
    // q x p z == (x z)(q p)
    MulAssoc(g, Mul(g, q, x), p, z);
    MulSwap(g, q, x, p);
    MulAssoc(g, qp, x, z);
    MulComm(g, qp, Mul(g, x, z));
    assert Mul(g, Mul(g, q, x), pz) == c;
    MulXorRight(g, w, a, qp);
    MulXorLeft(g, 1, Mul(g, x, z), qp);
    MulIn(g, q, p);
    MulOne(g, qp);
    assert Mul(g, w, qp) == Xor(qp, c);
    XorComm(up, c);
    XorAssoc(Xor(wa, qp), c, up);
    XorAssoc(wa, qp, c);
  }

  /** lam(z) up to z^m is (1 - xz) times the partial quotient plus the m-th remainder. */
  lemma {:induction false} DivideByLinear(g: GF, lam: seq<nat>, x: nat, z: nat, m: nat)
    requires Primitive(g) && AllIn(g, lam) && m < |lam|
    ensures Sum(EvalTerm(g, lam, z), m + 1)
         == Xor(Mul(g, Xor(1, Mul(g, x, z)), QuotientSum(g, lam, x, z, m)),
                Mul(g, Prefix(g, lam, m, x), Pow(g, z, m)))
  {
    hide Mul, Xor, Primitive, In, Prefix;
    var w := Xor(1, Mul(g, x, z));
    PrefixNext(g, lam, m, x);
    if m == 0 {
      MulZero(g, w);
      XorZero(Mul(g, lam[0], 1));
    } else {
      DivideByLinear(g, lam, x, z, m - 1);
      var q, u, p := Prefix(g, lam, m - 1, x), Prefix(g, lam, m, x), Pow(g, z, m - 1);
      XorCancel(Mul(g, q, x), lam[m]);
      XorComm(u, Mul(g, q, x));
      assert lam[m] == Xor(u, Mul(g, q, x));
      QuotientRegroup(g, w, QuotientSum(g, lam, x, z, m - 1), q, u, x, p, z);
    }
  }

  lemma EvalTruncate(g: GF, lam: seq<nat>, v: nat, z: nat)
    requires DegreeAtMost(lam, v) && v < |lam|
    ensures Eval(g, lam, z) == Sum(EvalTerm(g, lam, z), v + 1)
  {
    hide Mul, Sum, Pow;
    var f := EvalTerm(g, lam, z);
    forall i | v + 1 <= i < |lam| ensures f(i) == 0 {
      MulZero(g, Pow(g, z, i));
    }
    SumTail(f, v + 1, |lam|);
  }

  /** z is a root of lam exactly when the reversed polynomial vanishes at 1/z. */
  lemma ReciprocalRoot(g: GF, lam: seq<nat>, v: nat, x: nat, z: nat)
    requires Primitive(g) && AllIn(g, lam) && v < |lam| && DegreeAtMost(lam, v)
    requires In(g, z) && Mul(g, x, z) == 1
    ensures Eval(g, lam, z) == 0 <==> Prefix(g, lam, v, x) == 0
  {
    hide Mul, Xor, Primitive, In, Prefix, Eval, Sum;
    EvalTruncate(g, lam, v, z);
    DivideByLinear(g, lam, x, z, v);
    XorSelf(1);
    MulZero(g, QuotientSum(g, lam, x, z, v));
    var q, p := Prefix(g, lam, v, x), Pow(g, z, v);
    XorZero(Mul(g, q, p));
    PrefixIn(g, lam, v, x);
    PowIn(g, z, v);
    assert z != 0 by { MulZero(g, x); }
    PowNonzero(g, z, v);
    MulNonzero(g, q, p);
  }

  /** At the inverse of another error locator the quotient vanishes. */
  lemma QuotientElsewhere(g: GF, lam: seq<nat>, v: nat, x: nat, x': nat)
    requires Primitive(g) && AllIn(g, lam) && v < |lam| && DegreeAtMost(lam, v)
    requires In(g, x) && In(g, x') && x != x' && x' != 0
    requires Prefix(g, lam, v, x) == 0 && Prefix(g, lam, v, x') == 0
    ensures QuotientSum(g, lam, x, Inv(g, x'), v) == 0
  {
    hide Mul, Xor, Primitive, In, Prefix, Eval, Sum, Inv;
    var z := Inv(g, x');
    InvIn(g, x');
    MulInv(g, x');
    ReciprocalRoot(g, lam, v, x', z);
    EvalTruncate(g, lam, v, z);
    DivideByLinear(g, lam, x, z, v);
    var w, q := Xor(1, Mul(g, x, z)), QuotientSum(g, lam, x, z, v);
    MulZero(g, Pow(g, z, v));
    XorZero(Mul(g, w, q));
    QuotientSumIn(g, lam, x, z, v);
    XorEqual(1, Mul(g, x, z));
    if Mul(g, x, z) == 1 {
      MulCancel(g, x, x', z);
    }
    PrimitiveWidth(g);
    InOne(g);
    MulIn(g, x, z);
    InXor(g, 1, Mul(g, x, z));
    MulNonzero(g, w, q);
  }

  lemma QuotientSumIn(g: GF, lam: seq<nat>, x: nat, z: nat, m: nat)
    ensures In(g, QuotientSum(g, lam, x, z, m))
  {
    hide Mul, Sum, In, Prefix, Pow;
    forall k | 0 <= k < m ensures In(g, QuotientTerm(g, lam, x, z)(k)) {
      MulIn(g, Prefix(g, lam, k, x), Pow(g, z, k));
    }
    SumIn(g, QuotientTerm(g, lam, x, z), m);
  }

  // ---------- the quotient does not vanish at its own error ----------

  ghost function Inverses(g: GF, es: set<nat>): set<nat> {
    set e | e in es :: Inv(g, e)
  }

  lemma {:induction false} InverseCount(g: GF, es: set<nat>)
    requires Primitive(g) && forall e :: e in es ==> In(g, e) && e != 0
    ensures |Inverses(g, es)| == |es|
  {
    hide Mul, Primitive, In, Inv;
    if es == {} {
      assert Inverses(g, es) == {};
    } else {
      var e :| e in es;
      var rest := es - {e};
      InverseCount(g, rest);
      assert Inverses(g, es) == Inverses(g, rest) + {Inv(g, e)};
      forall d | d in rest ensures Inv(g, d) != Inv(g, e) {
        InvIn(g, e);
        MulInv(g, d);
        MulInv(g, e);
        if Inv(g, d) == Inv(g, e) {
          MulCancel(g, d, e, Inv(g, e));
        }
      }
    }
  }

  ghost function QuotientPoly(g: GF, lam: seq<nat>, x: nat, v: nat): (r: seq<nat>)
    ensures |r| == v
  {
    seq(v, k requires 0 <= k < v => Prefix(g, lam, k, x))
  }

  lemma QuotientPolyEval(g: GF, lam: seq<nat>, x: nat, v: nat, z: nat)
    requires AllIn(g, lam)
    ensures Eval(g, QuotientPoly(g, lam, x, v), z) == QuotientSum(g, lam, x, z, v)
    ensures AllIn(g, QuotientPoly(g, lam, x, v))
  {
    hide Mul, Sum, Pow, In, Prefix;
    var p := QuotientPoly(g, lam, x, v);
    forall k | 0 <= k < v ensures In(g, p[k]) && EvalTerm(g, p, z)(k) == QuotientTerm(g, lam, x, z)(k) {
      PrefixIn(g, lam, k, x);
    }
    SumEqual(EvalTerm(g, p, z), QuotientTerm(g, lam, x, z), v);
  }

  lemma QuotientNonzero(g: GF, lam: seq<nat>, es: set<nat>, x: nat)
    requires Primitive(g) && AllIn(g, lam) && |es| < |lam| && DegreeAtMost(lam, |es|) && lam[0] == 1
    requires forall e :: e in es ==> In(g, e) && e != 0 && Prefix(g, lam, |es|, e) == 0
    requires x in es
    ensures QuotientSum(g, lam, x, Inv(g, x), |es|) != 0
  {
    hide Mul, Primitive, In, Inv, Prefix, QuotientSum, Eval;
    var v := |es|;
    if QuotientSum(g, lam, x, Inv(g, x), v) == 0 {
      var p := QuotientPoly(g, lam, x, v);
      var zs := Inverses(g, es);
      InverseCount(g, es);
      forall z | z in zs ensures In(g, z) && Eval(g, p, z) == 0 {
        var e :| e in es && z == Inv(g, e);
        InvIn(g, e);
        QuotientPolyEval(g, lam, x, v, z);
        if e != x {
          QuotientElsewhere(g, lam, v, x, e);
        }
      }
      QuotientPolyEval(g, lam, x, v, 0);
      PrefixNext(g, lam, 0, x);
      assert v > 0 && p[0] == 1;
      RootCount(g, p, zs);
      assert false;
    }
  }

  // ---------- the evaluator ----------

  ghost function OmegaTerm(g: GF, lam: seq<nat>, s: seq<nat>, z: nat): Terms {
    k => if k >= 0 then Mul(g, Conv(g, lam, s, k), Pow(g, z, k)) else 0
  }

  /** omega(z), where omega is the first v terms of s(x) lam(x). */
  ghost function Omega(g: GF, lam: seq<nat>, s: seq<nat>, z: nat, v: nat): nat {
    Sum(OmegaTerm(g, lam, s, z), v)
  }

  ghost function OmegaTable(g: GF, y: Terms, x: Terms, lam: seq<nat>, z: nat): (int, int) -> nat {
    (k, j) => Mul(g, y(j), QuotientTerm(g, lam, x(j), z)(k))
  }

  lemma OmegaRow(g: GF, y: Terms, x: Terms, n: nat, s: seq<nat>, lam: seq<nat>, z: nat, k: nat)
    requires Primitive(g) && Pattern(g, y, x, n, s) && AllIn(g, lam) && k < |lam| && k < |s|
    ensures OmegaTerm(g, lam, s, z)(k) == Rows(OmegaTable(g, y, x, lam, z), n)(k)
  {
    hide Mul, Primitive, In, Prefix, Sum, Pow, Pattern, Conv;
    ConvPattern(g, y, x, n, s, lam, k);
    var t, p := OmegaTable(g, y, x, lam, z), Pow(g, z, k);
    var f := PrefixTerm(g, y, lam, k, x);
    var r: Terms := j => t(k, j);
    forall j | 0 <= j < n ensures r(j) == Mul(g, p, f(j)) {
      assert t(k, j) == Mul(g, y(j), QuotientTerm(g, lam, x(j), z)(k));
      assert QuotientTerm(g, lam, x(j), z)(k) == Mul(g, Prefix(g, lam, k, x(j)), p);
      MulAssoc(g, y(j), Prefix(g, lam, k, x(j)), p);
      MulComm(g, f(j), p);
    }
    SumScale(g, p, f, r, n);
    MulComm(g, Sum(f, n), p);
  }

  lemma OmegaColumn(g: GF, y: Terms, x: Terms, lam: seq<nat>, z: nat, v: nat, j: int)
    requires Primitive(g)
    ensures Columns(OmegaTable(g, y, x, lam, z), v)(j) == Mul(g, y(j), QuotientSum(g, lam, x(j), z, v))
  {
    hide Mul, Primitive, Prefix, Sum, Pow, QuotientTerm;
    var t := OmegaTable(g, y, x, lam, z);
    SumScale(g, y(j), QuotientTerm(g, lam, x(j), z), i => t(i, j), v);
  }

  lemma OmegaSplit(g: GF, y: Terms, x: Terms, n: nat, s: seq<nat>, lam: seq<nat>, z: nat, v: nat)
    requires Primitive(g) && Pattern(g, y, x, n, s) && AllIn(g, lam) && v <= |lam| && v <= |s|
    ensures Omega(g, lam, s, z, v) == Sum(Columns(OmegaTable(g, y, x, lam, z), v), n)
  {
    hide Primitive, Sum, Pattern, OmegaTable, OmegaTerm, Rows, Columns, AllIn;
    var t := OmegaTable(g, y, x, lam, z);
    forall k | 0 <= k < v ensures OmegaTerm(g, lam, s, z)(k) == Rows(t, n)(k) {
      OmegaRow(g, y, x, n, s, lam, z, k);
    }
    SumEqual(OmegaTerm(g, lam, s, z), Rows(t, n), v);
    SumSwap(t, v, n);
  }

  /** At the inverse of an error locator only that error contributes. */
  lemma OmegaAtError(g: GF, y: Terms, x: Terms, n: nat, s: seq<nat>, lam: seq<nat>, v: nat, l: nat)
    requires Primitive(g) && Pattern(g, y, x, n, s) && AllIn(g, lam) && v < |lam| && v <= |s|
    requires DegreeAtMost(lam, v) && l < n
    requires forall j :: 0 <= j < n && (y(j) != 0 || j == l) ==> Prefix(g, lam, v, x(j)) == 0
    ensures Omega(g, lam, s, Inv(g, x(l)), v)
         == Mul(g, y(l), QuotientSum(g, lam, x(l), Inv(g, x(l)), v))
  {
    hide Mul, Primitive, In, Inv, Prefix, Sum, QuotientSum, Omega, OmegaTable, PowerSum, Columns;
    var z := Inv(g, x(l));
    OmegaSplit(g, y, x, n, s, lam, z, v);
    var f := Columns(OmegaTable(g, y, x, lam, z), v);
    OmegaColumn(g, y, x, lam, z, v, l);
    forall j | 0 <= j < n && j != l ensures f(j) == 0 {
      OmegaColumn(g, y, x, lam, z, v, j);
      MulZero(g, QuotientSum(g, lam, x(j), z, v));
      if y(j) != 0 {
        assert x(j) != x(l);
        QuotientElsewhere(g, lam, v, x(j), x(l));
        MulZero(g, y(j));
      }
    }
    SumSingle(f, l, n);
  }

  // ---------- the derivative ----------

  ghost function OddTerm(g: GF, lam: seq<nat>, z: nat): Terms {
    m => Mul(g, At(lam, 2 * m + 1), if m >= 0 then Pow(g, z, 2 * m) else 0)
  }

  /** The formal derivative: the odd coefficients, each one power lower. */
  ghost function Derivative(g: GF, lam: seq<nat>, z: nat, t: nat): nat {
    Sum(OddTerm(g, lam, z), t)
  }

  /** (u + qx) p == x (q p + u (p z)) when x z == 1 */
  lemma DerivativeTerm(g: GF, q: nat, u: nat, x: nat, z: nat, p: nat)
    requires Primitive(g) && In(g, p) && Mul(g, x, z) == 1
    ensures Mul(g, Xor(Mul(g, q, x), u), p) == Mul(g, x, Xor(Mul(g, q, p), Mul(g, u, Mul(g, p, z))))
  {
    hide *;
    MulXorLeft(g, Mul(g, q, x), u, p);
    MulXorRight(g, x, Mul(g, q, p), Mul(g, u, Mul(g, p, z)));
    MulComm(g, q, x);
    MulAssoc(g, x, q, p);
    // x (u (p z)) == u p
    var pz := Mul(g, p, z);
    MulAssoc(g, x, u, pz);
    MulComm(g, x, u);
    MulAssoc(g, u, x, pz);
    MulComm(g, p, z);
    MulAssoc(g, x, z, p);
    MulOne(g, p);
  }

  lemma {:induction false} DerivativeQuotient(g: GF, lam: seq<nat>, x: nat, z: nat, t: nat)
    requires Primitive(g) && AllIn(g, lam) && 2 * t <= |lam| && Mul(g, x, z) == 1
    ensures Derivative(g, lam, z, t) == Mul(g, x, QuotientSum(g, lam, x, z, 2 * t))
  {
    hide Mul, Xor, Primitive, In, Prefix;
    if t == 0 {
      MulZero(g, x);
    } else {
      DerivativeQuotient(g, lam, x, z, t - 1);
      var m := 2 * t - 2;
      var q, u, p := Prefix(g, lam, m, x), Prefix(g, lam, m + 1, x), Pow(g, z, m);
      PrefixNext(g, lam, m + 1, x);
      XorCancel(Mul(g, q, x), lam[m + 1]);
      PowIn(g, z, m);
      DerivativeTerm(g, q, u, x, z, p);
      var a, b, c := QuotientSum(g, lam, x, z, m), Mul(g, q, p), Mul(g, u, Mul(g, p, z));
      MulXorRight(g, x, a, Xor(b, c));
      XorAssoc(a, b, c);
      PowNext(g, z, m);
      TwoMore(QuotientTerm(g, lam, x, z), m);
    }
  }

  lemma TwoMore(f: Terms, m: nat)
    ensures Sum(f, m + 2) == Xor(Xor(Sum(f, m), f(m)), f(m + 1))
  {
    hide Xor;
    assert Sum(f, m + 1) == Xor(Sum(f, m), f(m));
  }

  lemma QuotientSumTail(g: GF, lam: seq<nat>, v: nat, x: nat, z: nat, m: nat)
    requires Primitive(g) && AllIn(g, lam) && DegreeAtMost(lam, v) && Prefix(g, lam, v, x) == 0
    requires v <= m <= |lam|
    ensures QuotientSum(g, lam, x, z, m) == QuotientSum(g, lam, x, z, v)
  {
    hide Mul, Primitive, In, Prefix, Sum, Pow;
    var f := QuotientTerm(g, lam, x, z);
    forall k | v <= k < m ensures f(k) == 0 {
      PrefixTail(g, lam, v, k, x);
      MulZero(g, Pow(g, x, k - v));
      MulZero(g, Pow(g, z, k));
    }
    SumTail(f, v, m);
  }

  // ---------- Forney's formula ----------

  /** The derivative and the evaluator do not vanish at an error, and y den == x omega. */
  lemma ForneyFormula(g: GF, y: Terms, x: Terms, n: nat, s: seq<nat>, lam: seq<nat>, l: nat, t: nat)
    requires Primitive(g) && Pattern(g, y, x, n, s) && Locates(g, y, x, n, lam)
    requires l in Support(y, n)
    requires |Support(y, n)| <= |s| && |Support(y, n)| <= 2 * t <= |lam|
    ensures Derivative(g, lam, Inv(g, x(l)), t) != 0
    ensures Omega(g, lam, s, Inv(g, x(l)), |Support(y, n)|) != 0
    ensures Mul(g, y(l), Derivative(g, lam, Inv(g, x(l)), t))
         == Mul(g, x(l), Omega(g, lam, s, Inv(g, x(l)), |Support(y, n)|))
  {
    hide Mul, Primitive, In, Inv, Prefix, QuotientSum, Omega, Derivative, PowerSum;
    var v, es, z := |Support(y, n)|, ErrorLocators(y, x, n), Inv(g, x(l));
    LocatorCount(y, x, n);
    InvIn(g, x(l));
    MulInv(g, x(l));
    forall j | 0 <= j < n && (y(j) != 0 || j == l) ensures Prefix(g, lam, v, x(j)) == 0 {
      assert x(j) in es;
    }
    OmegaAtError(g, y, x, n, s, lam, v, l);
    DerivativeQuotient(g, lam, x(l), z, t);
    QuotientSumTail(g, lam, v, x(l), z, 2 * t);
    QuotientNonzero(g, lam, es, x(l));
    var q := QuotientSum(g, lam, x(l), z, v);
    QuotientSumIn(g, lam, x(l), z, v);
    MulNonzero(g, x(l), q);
    MulNonzero(g, y(l), q);
    MulAssoc(g, y(l), x(l), q);
    MulComm(g, y(l), x(l));
    MulAssoc(g, x(l), y(l), q);
  }
}
