/** From syndromes to errors: the locator polynomial of an error pattern, why the
    shortest recurrence is that polynomial, and Forney's formula for the values. */
module ErrorLocator {
  import opened BitXor
  import opened GaloisField
  import opened FieldLaws
  import opened Sums
  import opened Polynomials
  import opened RsCode
  import opened Generator
  import opened Recurrences

  /** Errors of weighted value y(j) at locator x(j), j < n, and the syndromes they produce. */
  ghost predicate Pattern(g: GF, y: Terms, x: Terms, n: nat, s: seq<nat>) {
    && Distinct(x, n)
    && (forall j :: 0 <= j < n ==> In(g, y(j)) && In(g, x(j)) && x(j) != 0)
    && (forall k :: 0 <= k < |s| ==> s[k] == PowerSum(g, y, x, k, n))
  }

  // ---------- convolution of syndromes with a polynomial ----------

  /** The first k+1 coefficients of p read as a word: the k-th partial quotient by (1 - x z). */
  ghost function Prefix(g: GF, p: seq<nat>, k: int, x: nat): nat {
    Horner(g, if 0 <= k < |p| then p[..k + 1] else p, x)
  }

  ghost function PrefixTerm(g: GF, y: Terms, p: seq<nat>, k: nat, x: Terms): Terms {
    j => Mul(g, y(j), Prefix(g, p, k, x(j)))
  }

  ghost function PatternTable(g: GF, y: Terms, x: Terms, p: seq<nat>, k: nat): (int, int) -> nat {
    (i, j) => Mul(g, y(j), Mul(g, At(p, i), if 0 <= i <= k then Pow(g, x(j), k - i) else 0))
  }

  lemma PatternColumn(g: GF, y: Terms, x: Terms, p: seq<nat>, k: nat, j: int)
    requires Primitive(g) && AllIn(g, p) && k < |p|
    ensures Columns(PatternTable(g, y, x, p, k), k + 1)(j) == PrefixTerm(g, y, p, k, x)(j)
  {
    hide Mul, Primitive, Sum, Pow, Horner, In;
    var t := PatternTable(g, y, x, p, k);
    var w := p[..k + 1];
    HornerSum(g, w, x(j));
    var f: Terms := i => t(i, j);
    var h := WordTerm(g, w, x(j));
    forall i | 0 <= i < k + 1 ensures f(i) == Mul(g, y(j), h(i)) {
      assert At(w, i) == At(p, i);
    }
    SumScale(g, y(j), h, f, k + 1);
  }

  lemma PatternRow(g: GF, y: Terms, x: Terms, p: seq<nat>, k: nat, n: nat, i: nat)
    requires Primitive(g) && i <= k
    ensures Rows(PatternTable(g, y, x, p, k), n)(i) == Mul(g, At(p, i), PowerSum(g, y, x, k - i, n))
  {
    hide Mul, Primitive, Sum, Pow;
    var t := PatternTable(g, y, x, p, k);
    var f: Terms := j => t(i, j);
    var h := PowerTerm(g, y, x, k - i);
    forall j | 0 <= j < n ensures f(j) == Mul(g, At(p, i), h(j)) {
      var a, b, c := y(j), At(p, i), Pow(g, x(j), k - i);
      MulAssoc(g, a, b, c);
      MulComm(g, a, b);
      MulAssoc(g, b, a, c);
    }
    SumScale(g, At(p, i), h, f, n);
  }

  /** The convolution at k adds up y(j) times the k-th partial quotient at x(j). */
  lemma ConvPattern(g: GF, y: Terms, x: Terms, n: nat, s: seq<nat>, p: seq<nat>, k: nat)
    requires Primitive(g) && Pattern(g, y, x, n, s) && AllIn(g, p) && k < |p| && k < |s|
    ensures Conv(g, p, s, k) == Sum(PrefixTerm(g, y, p, k, x), n)
  {
    hide Mul, Primitive, Sum, Pow, Rows, Columns, PatternTable, PrefixTerm, PowerSum, Distinct;
    var t := PatternTable(g, y, x, p, k);
    forall i | 0 <= i < k + 1 ensures ConvTerm(g, p, s, k)(i) == Rows(t, n)(i) {
      PatternRow(g, y, x, p, k, n, i);
    }
    SumEqual(ConvTerm(g, p, s, k), Rows(t, n), k + 1);
    SumSwap(t, k + 1, n);
    forall j | 0 <= j < n ensures Columns(t, k + 1)(j) == PrefixTerm(g, y, p, k, x)(j) {
      PatternColumn(g, y, x, p, k, j);
    }
    SumEqual(Columns(t, k + 1), PrefixTerm(g, y, p, k, x), n);
  }

  lemma PrefixNext(g: GF, p: seq<nat>, k: nat, x: nat)
    requires k < |p|
    ensures Prefix(g, p, k, x) == if k == 0 then p[0] else Xor(Mul(g, Prefix(g, p, k - 1, x), x), p[k])
  {
    hide Mul, Xor;
    var w := p[..k + 1];
    assert w[..|w| - 1] == p[..k];
    if k == 0 {
      assert w[..0] == [];
      assert Horner(g, w, x) == Xor(Mul(g, Horner(g, w[..0], x), x), p[0]);
      MulZero(g, x);
      XorZero(p[0]);
    }
  }

  lemma PrefixIn(g: GF, p: seq<nat>, k: nat, x: nat)
    requires AllIn(g, p)
    ensures In(g, Prefix(g, p, k, x))
  {
    hide Horner, In;
    HornerIn(g, if k < |p| then p[..k + 1] else p, x);
  }

  /** Past the degree, each further partial quotient is multiplied by x. */
  lemma {:induction false} PrefixTail(g: GF, p: seq<nat>, l: nat, k: nat, x: nat)
    requires Primitive(g) && AllIn(g, p) && DegreeAtMost(p, l) && l <= k < |p|
    ensures Prefix(g, p, k, x) == Mul(g, Prefix(g, p, l, x), Pow(g, x, k - l))
  {
    hide Mul, Xor, Primitive, Prefix, In;
    var q := Prefix(g, p, l, x);
    PrefixIn(g, p, l, x);
    if k == l {
      MulOne(g, q);
    } else {
      PrefixTail(g, p, l, k - 1, x);
      PrefixNext(g, p, k, x);
      MulAssoc(g, q, Pow(g, x, k - 1 - l), x);
      XorZero(Prefix(g, p, k - 1, x));
      XorZero(Mul(g, Prefix(g, p, k - 1, x), x));
    }
  }

  // ---------- the locator polynomial of a pattern ----------

  /** The product of (z + x(j)) over the errors among the first n positions. */
  ghost function ErrorPoly(g: GF, y: Terms, x: Terms, n: nat): (p: seq<nat>)
    ensures |p| >= 1
  {
    if n == 0 then [1]
    else if y(n - 1) == 0 then ErrorPoly(g, y, x, n - 1)
    else TimesLinear(g, ErrorPoly(g, y, x, n - 1), x(n - 1))
  }

  lemma {:induction false} ErrorPolyShape(g: GF, y: Terms, x: Terms, n: nat)
    requires Primitive(g)
    ensures |ErrorPoly(g, y, x, n)| == |Support(y, n)| + 1
    ensures AllIn(g, ErrorPoly(g, y, x, n))
    ensures ErrorPoly(g, y, x, n)[|Support(y, n)|] == 1
  {
    hide Primitive, In, TimesLinear;
    if n == 0 {
      assert Support(y, n) == {};
      PrimitiveWidth(g);
      InOne(g);
    } else {
      ErrorPolyShape(g, y, x, n - 1);
      var p := ErrorPoly(g, y, x, n - 1);
      SupportNext(y, n);
      assert n - 1 !in Support(y, n - 1);
      if y(n - 1) != 0 {
        TimesLinearIn(g, p, x(n - 1));
        TimesLinearTop(g, p, x(n - 1));
      }
    }
  }

  lemma {:induction false} ErrorPolyRoot(g: GF, y: Terms, x: Terms, n: nat, j: int)
    requires Primitive(g) && j in Support(y, n)
    ensures Eval(g, ErrorPoly(g, y, x, n), x(j)) == 0
  {
    hide Primitive, TimesLinear, Eval, Mul, Xor;
    if y(n - 1) == 0 {
      assert j in Support(y, n - 1);
      ErrorPolyRoot(g, y, x, n - 1, j);
    } else {
      var p := ErrorPoly(g, y, x, n - 1);
      TimesLinearEval(g, p, x(n - 1), x(j));
      if j == n - 1 {
        XorSelf(x(j));
        MulZero(g, Eval(g, p, x(j)));
      } else {
        assert j in Support(y, n - 1);
        ErrorPolyRoot(g, y, x, n - 1, j);
        MulZero(g, Xor(x(j), x(n - 1)));
      }
    }
  }

  /** Reversed, it is a recurrence as long as the number of errors. */
  lemma LocatorRecurrence(g: GF, y: Terms, x: Terms, n: nat, s: seq<nat>, lam: seq<nat>)
    requires Primitive(g) && Pattern(g, y, x, n, s)
    requires lam == Reverse(ErrorPoly(g, y, x, n)) + Zeros(|s|)
    ensures Recurrence(g, lam, |Support(y, n)|, s, |s|)
  {
    hide Primitive, In, Mul, Conv, ErrorPoly, Distinct, PowerSum, Prefix, Sum;
    var p, v := ErrorPoly(g, y, x, n), |Support(y, n)|;
    ErrorPolyShape(g, y, x, n);
    PrimitiveWidth(g);
    InOne(g);
    forall j | 0 <= j < n && y(j) != 0 ensures Prefix(g, lam, v, x(j)) == 0 {
      assert j in Support(y, n);
      ErrorPolyRoot(g, y, x, n, j);
      HornerReverse(g, p, x(j));
      PrefixWhole(g, p, lam, x(j));
    }
    forall k | v <= k < |s| ensures Conv(g, lam, s, k) == 0 {
      ConvPattern(g, y, x, n, s, lam, k);
      forall j | 0 <= j < n ensures PrefixTerm(g, y, lam, k, x)(j) == 0 {
        PrefixTail(g, lam, v, k, x(j));
        MulZero(g, Pow(g, x(j), k - v));
        MulZero(g, Prefix(g, lam, k, x(j)));
        MulZero(g, y(j));
      }
      SumZero(PrefixTerm(g, y, lam, k, x), n);
    }
  }

  lemma PrefixWhole(g: GF, p: seq<nat>, lam: seq<nat>, x: nat)
    requires |p| >= 1 && Reverse(p) <= lam
    ensures Prefix(g, lam, |p| - 1, x) == Horner(g, Reverse(p), x)
  {
    hide Horner, Reverse;
    assert lam[..|p|] == Reverse(p);
  }

  // ---------- the shortest recurrence vanishes at the errors ----------

  ghost function Residue(g: GF, y: Terms, p: seq<nat>, l: nat, x: Terms): Terms {
    j => Mul(g, y(j), Prefix(g, p, l, x(j)))
  }

  /** Past the degree the convolutions are power sums of the residues. */
  lemma ConvResidue(g: GF, y: Terms, x: Terms, n: nat, s: seq<nat>, p: seq<nat>, l: nat, k: nat)
    requires Primitive(g) && Pattern(g, y, x, n, s) && AllIn(g, p) && DegreeAtMost(p, l)
    requires l <= k < |p| && k < |s|
    ensures Conv(g, p, s, k) == PowerSum(g, Residue(g, y, p, l, x), x, k - l, n)
  {
    hide Primitive, In, Mul, Conv, Distinct, Prefix, Sum, Pow;
    ConvPattern(g, y, x, n, s, p, k);
    var f, h := PrefixTerm(g, y, p, k, x), PowerTerm(g, Residue(g, y, p, l, x), x, k - l);
    forall j | 0 <= j < n ensures f(j) == h(j) {
      PrefixTail(g, p, l, k, x(j));
      MulAssoc(g, y(j), Prefix(g, p, l, x(j)), Pow(g, x(j), k - l));
    }
    SumEqual(f, h, n);
  }

  lemma ResidueSupport(g: GF, y: Terms, x: Terms, n: nat, s: seq<nat>, p: seq<nat>, l: nat)
    requires Primitive(g) && Pattern(g, y, x, n, s) && AllIn(g, p)
    ensures Support(Residue(g, y, p, l, x), n) <= Support(y, n)
    ensures forall j :: 0 <= j < n ==> In(g, Residue(g, y, p, l, x)(j))
    ensures |Support(Residue(g, y, p, l, x), n)| <= |Support(y, n)|
  {
    hide Primitive, In, Mul, Prefix, Distinct, PowerSum;
    forall j | 0 <= j < n
      ensures In(g, Residue(g, y, p, l, x)(j)) && (y(j) == 0 ==> Residue(g, y, p, l, x)(j) == 0)
    {
      MulIn(g, y(j), Prefix(g, p, l, x(j)));
      MulZero(g, Prefix(g, p, l, x(j)));
    }
    SubsetCard(Support(Residue(g, y, p, l, x), n), Support(y, n));
  }

  /** A recurrence with at least as many valid indices as errors vanishes at every error. */
  lemma RecurrenceVanishes(g: GF, y: Terms, x: Terms, n: nat, s: seq<nat>, p: seq<nat>, l: nat, j: int)
    requires Primitive(g) && Pattern(g, y, x, n, s) && Recurrence(g, p, l, s, |s|) && |p| == |s| + 1
    requires l + |Support(y, n)| <= |s| && j in Support(y, n)
    ensures Prefix(g, p, l, x(j)) == 0
  {
    hide Primitive, In, Mul, Conv, Prefix, PowerSum, Residue, Distinct;
    var c := Residue(g, y, p, l, x);
    ResidueSupport(g, y, x, n, s, p, l);
    forall k | 0 <= k < |Support(c, n)| ensures PowerSum(g, c, x, k, n) == 0 {
      ConvResidue(g, y, x, n, s, p, l, l + k);
    }
    Vandermonde(g, c, x, n);
    assert j !in Support(c, n);
    ResidueZero(g, y, p, l, x, j);
  }

  lemma ResidueZero(g: GF, y: Terms, p: seq<nat>, l: nat, x: Terms, j: int)
    requires Primitive(g) && AllIn(g, p) && In(g, y(j)) && y(j) != 0 && Residue(g, y, p, l, x)(j) == 0
    ensures Prefix(g, p, l, x(j)) == 0
  {
    hide Primitive, In, Mul, Prefix;
    PrefixIn(g, p, l, x(j));
    MulNonzero(g, y(j), Prefix(g, p, l, x(j)));
  }

  // ---------- its degree and its roots ----------

  /** The locators of the errors. */
  ghost function ErrorLocators(y: Terms, x: Terms, n: nat): set<nat> {
    set j | 0 <= j < n && y(j) != 0 :: x(j)
  }

  lemma {:induction false} LocatorCount(y: Terms, x: Terms, n: nat)
    requires Distinct(x, n)
    ensures |ErrorLocators(y, x, n)| == |Support(y, n)|
  {
    hide *;
    if n == 0 {
      NoLocators(y, x);
    } else {
      NewLocator(y, x, n);
      LocatorCount(y, x, n - 1);
      SupportNext(y, n);
      LocatorsNext(y, x, n);
    }
  }

  lemma NoLocators(y: Terms, x: Terms)
    ensures ErrorLocators(y, x, 0) == {} && Support(y, 0) == {}
  {
  }

  lemma NewLocator(y: Terms, x: Terms, n: nat)
    requires n > 0 && Distinct(x, n)
    ensures x(n - 1) !in ErrorLocators(y, x, n - 1) && n - 1 !in Support(y, n - 1)
    ensures Distinct(x, n - 1)
  {
  }

  lemma LocatorsNext(y: Terms, x: Terms, n: nat)
    requires n > 0
    ensures ErrorLocators(y, x, n) == ErrorLocators(y, x, n - 1) + if y(n - 1) == 0 then {} else {x(n - 1)}
  {
  }

  /** A set of points where the reversed polynomial vanishes has at most l members. */
  lemma VanishingBound(g: GF, p: seq<nat>, l: nat, zs: set<nat>)
    requires Primitive(g) && AllIn(g, p) && l < |p| && p[0] == 1
    requires forall z :: z in zs ==> In(g, z) && Prefix(g, p, l, z) == 0
    ensures |zs| <= l
  {
    hide Primitive, In, Horner, Eval;
    if |zs| > l {
      var w := p[..l + 1];
      var q := Reverse(w);
      assert Reverse(q) == w;
      forall z | z in zs ensures Eval(g, q, z) == 0 {
        HornerReverse(g, q, z);
      }
      assert q[l] == 1;
      RootCount(g, q, zs);
      assert false;
    }
  }

  lemma PrefixAtZero(g: GF, p: seq<nat>, l: nat)
    requires l < |p|
    ensures Prefix(g, p, l, 0) == p[l]
  {
    hide Mul, Xor, Prefix;
    PrefixNext(g, p, l, 0);
    if l > 0 {
      MulZero(g, Prefix(g, p, l - 1, 0));
      XorZero(p[l]);
    }
  }

  /** What the decoder knows of lambda once the errors are within reach. */
  ghost predicate Locates(g: GF, y: Terms, x: Terms, n: nat, lam: seq<nat>) {
    var v := |Support(y, n)|;
    && v < |lam|
    && AllIn(g, lam)
    && lam[0] == 1
    && lam[v] != 0
    && DegreeAtMost(lam, v)
    && forall z :: In(g, z) ==> (Prefix(g, lam, v, z) == 0 <==> z in ErrorLocators(y, x, n))
  }

  /** With at most half as many errors as syndromes, the shortest recurrence locates them. */
  lemma ShortestLocates(g: GF, y: Terms, x: Terms, n: nat, s: seq<nat>, lam: seq<nat>, l: nat)
    requires Primitive(g) && Pattern(g, y, x, n, s) && 2 * |Support(y, n)| <= |s|
    requires Recurrence(g, lam, l, s, |s|) && Shortest(g, l, s, |s|) && |lam| == |s| + 1
    ensures Locates(g, y, x, n, lam) && l == |Support(y, n)|
  {
    hide Primitive, In, Conv, Prefix, ErrorPoly, PowerSum, Distinct;
    var v, es := |Support(y, n)|, ErrorLocators(y, x, n);
    var tru := Reverse(ErrorPoly(g, y, x, n)) + Zeros(|s|);
    LocatorRecurrence(g, y, x, n, s, tru);
    assert l <= v;
    forall z | z in es ensures In(g, z) && Prefix(g, lam, l, z) == 0 {
      var j :| 0 <= j < n && y(j) != 0 && x(j) == z;
      RecurrenceVanishes(g, y, x, n, s, lam, l, j);
    }
    LocatorCount(y, x, n);
    VanishingBound(g, lam, l, es);
    assert l == v;
    forall z | In(g, z) && Prefix(g, lam, v, z) == 0 ensures z in es {
      if z !in es {
        VanishingBound(g, lam, l, es + {z});
      }
    }
    if lam[v] == 0 {
      PrefixAtZero(g, lam, v);
      PrimitiveWidth(g);
      InOne(g);
    }
  }
}
