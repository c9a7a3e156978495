/** Polynomials over the field, coefficient of x^i at index i: evaluation,
    division by a linear factor, the bound on the number of roots, and the
    vanishing of weighted power sums. */
module Polynomials {
  import opened BitXor
  import opened GaloisField
  import opened FieldLaws
  import opened Sums

  /** The i-th entry, zero outside the sequence. */
  function At(p: seq<nat>, i: int): nat {
    if 0 <= i < |p| then p[i] else 0
  }

  ghost predicate AllIn(g: GF, p: seq<nat>) {
    forall i :: 0 <= i < |p| ==> In(g, p[i])
  }

  ghost predicate AllZero(p: seq<nat>) {
    forall i :: 0 <= i < |p| ==> p[i] == 0
  }

  ghost function EvalTerm(g: GF, p: seq<nat>, z: nat): Terms {
    i => Mul(g, At(p, i), if i >= 0 then Pow(g, z, i) else 0)
  }

  /** p(z) */
  ghost function Eval(g: GF, p: seq<nat>, z: nat): nat {
    Sum(EvalTerm(g, p, z), |p|)
  }

  lemma EvalIn(g: GF, p: seq<nat>, z: nat)
    ensures In(g, Eval(g, p, z))
  {
    hide Mul, Pow, In, Sum;
    forall i | 0 <= i < |p| ensures In(g, EvalTerm(g, p, z)(i)) {
      MulIn(g, At(p, i), Pow(g, z, i));
    }
    SumIn(g, EvalTerm(g, p, z), |p|);
  }

  /** Horner's rule from the low end. */
  lemma EvalCons(g: GF, p: seq<nat>, z: nat)
    requires Primitive(g) && |p| > 0 && In(g, p[0])
    ensures Eval(g, p, z) == Xor(p[0], Mul(g, z, Eval(g, p[1..], z)))
  {
    hide Mul, Xor, In, Sum, Primitive;
    var f, h := EvalTerm(g, p, z), EvalTerm(g, p[1..], z);
    var s: Terms := i => f(i + 1);
    forall i | 0 <= i < |p| - 1 ensures s(i) == Mul(g, z, h(i)) {
      var c := p[i + 1];
      MulComm(g, Pow(g, z, i), z);
      MulAssoc(g, c, z, Pow(g, z, i));
      MulComm(g, c, z);
      MulAssoc(g, z, c, Pow(g, z, i));
    }
    SumFirst(f, s, |p| - 1);
    SumScale(g, z, h, s, |p| - 1);
    MulOne(g, p[0]);
  }

  lemma EvalNil(g: GF, z: nat)
    ensures Eval(g, [], z) == 0
  {
  }

  /** The quotient of p by (x - z). */
  ghost function Quotient(g: GF, p: seq<nat>, z: nat): (q: seq<nat>)
    ensures |q| == if |p| == 0 then 0 else |p| - 1
  {
    if |p| <= 1 then [] else [Eval(g, p[1..], z)] + Quotient(g, p[1..], z)
  }

  lemma {:induction false} QuotientIn(g: GF, p: seq<nat>, z: nat)
    ensures AllIn(g, Quotient(g, p, z))
  {
    hide Eval, In;
    if |p| > 1 {
      QuotientIn(g, p[1..], z);
      EvalIn(g, p[1..], z);
    }
  }

  /** x(A(x) + y) regrouped: with e == (x+z)q + y, p0 + xe == (x+z)(y + xq) + (p0 + zy). */
  lemma LinearRegroup(g: GF, x: nat, z: nat, q: nat, y: nat, p0: nat)
    requires Primitive(g)
    ensures Xor(p0, Mul(g, x, Xor(Mul(g, Xor(x, z), q), y)))
         == Xor(Mul(g, Xor(x, z), Xor(y, Mul(g, x, q))), Xor(p0, Mul(g, z, y)))
  {
    hide *;
    var w := Xor(x, z);
    var wq, xy, zy := Mul(g, w, q), Mul(g, x, y), Mul(g, z, y);
    var xwq := Mul(g, x, wq);
    MulXorRight(g, x, wq, y);
    MulXorRight(g, w, y, Mul(g, x, q));
    MulXorLeft(g, x, z, y);
    MulAssoc(g, w, x, q);
    MulComm(g, w, x);
    MulAssoc(g, x, w, q);
    assert Mul(g, w, Mul(g, x, q)) == xwq;
    // left: p0 + (xwq + xy); right: ((xy + zy) + xwq) + (p0 + zy)
    XorComm(Xor(xy, zy), xwq);
    XorAssoc(xwq, xy, zy);
    XorComm(p0, zy);
    XorAssoc(Xor(xwq, xy), zy, Xor(zy, p0));
    XorCancel(zy, p0);
    XorComm(Xor(xwq, xy), p0);
  }

  lemma {:induction false} QuotientEval(g: GF, p: seq<nat>, z: nat, x: nat)
    requires Primitive(g) && AllIn(g, p)
    ensures Eval(g, p, x) == Xor(Mul(g, Xor(x, z), Eval(g, Quotient(g, p, z), x)), Eval(g, p, z))
  {
    hide Mul, Xor, In, Eval, Primitive;
    var w := Xor(x, z);
    if |p| == 0 {
      EvalNil(g, x);
      EvalNil(g, z);
      MulZero(g, w);
      XorZero(0);
    } else if |p| == 1 {
      assert p[1..] == [];
      EvalCons(g, p, x);
      EvalCons(g, p, z);
      EvalNil(g, x);
      EvalNil(g, z);
      MulZero(g, w);
      MulZero(g, x);
      MulZero(g, z);
      XorZero(Eval(g, p, z));
    } else {
      var r, q := p[1..], Quotient(g, p[1..], z);
      QuotientEval(g, r, z, x);
      EvalCons(g, p, x);
      EvalCons(g, p, z);
      EvalIn(g, r, z);
      var qq := Quotient(g, p, z);
      EvalCons(g, qq, x);
      assert qq[1..] == q;
      LinearRegroup(g, x, z, Eval(g, q, x), Eval(g, r, z), p[0]);
    }
  }

  lemma {:induction false} QuotientZero(g: GF, p: seq<nat>, z: nat)
    requires Primitive(g) && AllIn(g, p)
    requires Eval(g, p, z) == 0 && AllZero(Quotient(g, p, z))
    ensures AllZero(p)
  {
    hide Mul, Xor, In, Eval, Primitive;
    if |p| > 0 {
      EvalCons(g, p, z);
      if |p| == 1 {
        assert p[1..] == [];
        EvalNil(g, z);
      } else {
        var qq := Quotient(g, p, z);
        assert qq[0] == Eval(g, p[1..], z);
        assert Quotient(g, p[1..], z) == qq[1..];
        QuotientZero(g, p[1..], z);
      }
      MulZero(g, z);
      XorZero(p[0]);
    }
  }

  /** A nonzero polynomial with n coefficients has fewer than n roots. */
  lemma {:induction false} RootCount(g: GF, p: seq<nat>, zs: set<nat>)
    requires Primitive(g) && AllIn(g, p)
    requires forall z :: z in zs ==> In(g, z) && Eval(g, p, z) == 0
    requires |zs| >= |p|
    ensures AllZero(p)
    decreases |p|
  {
    hide Mul, Xor, In, Eval, Primitive;
    if |p| > 0 {
      var z :| z in zs;
      var q := Quotient(g, p, z);
      QuotientIn(g, p, z);
      forall x | x in zs - {z} ensures Eval(g, q, x) == 0 {
        QuotientEval(g, p, z, x);
        InXor(g, x, z);
        XorEqual(x, z);
        EvalIn(g, q, x);
        XorZero(Mul(g, Xor(x, z), Eval(g, q, x)));
        MulNonzero(g, Xor(x, z), Eval(g, q, x));
      }
      RootCount(g, q, zs - {z});
      QuotientZero(g, p, z);
    }
  }

  // ---------- weighted power sums ----------

  ghost function PowerTerm(g: GF, c: Terms, x: Terms, k: nat): Terms {
    j => Mul(g, c(j), Pow(g, x(j), k))
  }

  /** The sum of c(j) x(j)^k over j < n. */
  ghost function PowerSum(g: GF, c: Terms, x: Terms, k: nat, n: nat): nat {
    Sum(PowerTerm(g, c, x, k), n)
  }

  /** The indices with a nonzero weight. */
  ghost function Support(c: Terms, n: nat): set<int> {
    set j | 0 <= j < n && c(j) != 0
  }

  lemma SupportNext(f: Terms, n: nat)
    requires n > 0
    ensures Support(f, n) == Support(f, n - 1) + if f(n - 1) == 0 then {} else {n - 1}
  {
  }

  ghost predicate Distinct(x: Terms, n: nat) {
    forall i, j :: 0 <= i < j < n ==> x(i) != x(j)
  }

  /** The weights with index p knocked out by the factor x(j) - x(p). */
  ghost function Knock(g: GF, c: Terms, x: Terms, p: int): Terms {
    j => Mul(g, c(j), Xor(x(j), x(p)))
  }

  lemma KnockTerm(g: GF, c: nat, y: nat, xp: nat, k: nat)
    requires Primitive(g)
    ensures Mul(g, Mul(g, c, Xor(y, xp)), Pow(g, y, k))
         == Xor(Mul(g, c, Pow(g, y, k + 1)), Mul(g, xp, Mul(g, c, Pow(g, y, k))))
  {
    hide Mul, Xor, Primitive, Pow;
    var m := Pow(g, y, k);
    assert Pow(g, y, k + 1) == Mul(g, m, y) by { PowNext(g, y, k); }
    MulAssoc(g, c, Xor(y, xp), m);
    MulXorLeft(g, y, xp, m);
    MulXorRight(g, c, Mul(g, y, m), Mul(g, xp, m));
    MulComm(g, y, m);
    MulAssoc(g, c, xp, m);
    MulComm(g, c, xp);
    MulAssoc(g, xp, c, m);
  }

  lemma PowNext(g: GF, a: nat, n: nat)
    ensures Pow(g, a, n + 1) == Mul(g, Pow(g, a, n), a)
  {
  }

  lemma KnockSum(g: GF, c: Terms, x: Terms, p: int, k: nat, n: nat)
    requires Primitive(g)
    ensures PowerSum(g, Knock(g, c, x, p), x, k, n)
         == Xor(PowerSum(g, c, x, k + 1, n), Mul(g, x(p), PowerSum(g, c, x, k, n)))
  {
    hide Mul, Xor, Primitive, Pow, Sum;
    var f, h := PowerTerm(g, c, x, k + 1), PowerTerm(g, c, x, k);
    var s: Terms := j => Mul(g, x(p), h(j));
    var r := PowerTerm(g, Knock(g, c, x, p), x, k);
    forall j | 0 <= j < n ensures r(j) == Xor(f(j), s(j)) {
      KnockTerm(g, c(j), x(j), x(p), k);
    }
    SumXor(f, s, r, n);
    SumScale(g, x(p), h, s, n);
  }

  lemma KnockSupport(g: GF, c: Terms, x: Terms, p: int, n: nat)
    requires Primitive(g) && Distinct(x, n) && p in Support(c, n)
    requires forall j :: 0 <= j < n ==> In(g, c(j)) && In(g, x(j))
    ensures Support(Knock(g, c, x, p), n) == Support(c, n) - {p}
    ensures forall j :: 0 <= j < n ==> In(g, Knock(g, c, x, p)(j))
  {
    hide Mul, Xor, Primitive, In;
    forall j | 0 <= j < n
      ensures In(g, Knock(g, c, x, p)(j))
      ensures Knock(g, c, x, p)(j) != 0 <==> c(j) != 0 && j != p
    {
      InXor(g, x(j), x(p));
      XorEqual(x(j), x(p));
      MulIn(g, c(j), Xor(x(j), x(p)));
      MulNonzero(g, c(j), Xor(x(j), x(p)));
    }
  }

  /** Vandermonde: nonzero weights on w distinct points cannot make the first w power sums vanish. */
  lemma {:induction false} Vandermonde(g: GF, c: Terms, x: Terms, n: nat)
    requires Primitive(g) && Distinct(x, n)
    requires forall j :: 0 <= j < n ==> In(g, c(j)) && In(g, x(j))
    requires forall k :: 0 <= k < |Support(c, n)| ==> PowerSum(g, c, x, k, n) == 0
    ensures Support(c, n) == {}
    decreases |Support(c, n)|
  {
    hide Mul, Xor, Primitive, In, Distinct, PowerSum, Knock;
    if p :| p in Support(c, n) {
      var d := Knock(g, c, x, p);
      KnockSupport(g, c, x, p, n);
      forall k | 0 <= k < |Support(c, n)| - 1 ensures PowerSum(g, d, x, k, n) == 0 {
        KnockSum(g, c, x, p, k, n);
        MulZero(g, x(p));
        XorZero(0);
      }
      Vandermonde(g, d, x, n);
      assert Support(c, n) == {p};
      SinglePoint(g, c, x, p, n);
    }
  }

  lemma SinglePoint(g: GF, c: Terms, x: Terms, p: int, n: nat)
    requires Primitive(g) && Support(c, n) == {p}
    requires forall j :: 0 <= j < n ==> In(g, c(j))
    ensures PowerSum(g, c, x, 0, n) == c(p) != 0
  {
    hide Mul, Xor, Primitive, In, Sum;
    var f := PowerTerm(g, c, x, 0);
    assert p in Support(c, n);
    forall j | 0 <= j < n ensures f(j) == c(j) {
      MulOne(g, c(j));
    }
    forall j | 0 <= j < n && j != p ensures f(j) == 0 {
      assert j !in Support(c, n);
    }
    SumSingle(f, p, n);
  }
}
