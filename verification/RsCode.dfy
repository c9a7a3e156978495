/** The Reed-Solomon code itself: words, the roots of the generator polynomial,
    codewords, and the distance between them. */
module RsCode {
  import opened BitXor
  import opened GaloisField
  import opened FieldLaws
  import opened ModularArithmetic
  import opened Sums
  import opened Polynomials

  /** Field, first consecutive root, primitive element (index form), number of roots. */
  datatype Code = Code(g: GF, fcr: nat, prim: nat, nroots: nat)

  ghost predicate Good(c: Code) {
    && Primitive(c.g)
    && c.prim > 0
    && Coprime(c.prim, Top(c.g))
  }

  /** The i-th root of the generator polynomial. */
  ghost function Root(c: Code, i: nat): nat {
    Exp(c.g, (c.fcr + i) * c.prim)
  }

  /** The word read as a polynomial, first symbol in front of the highest power. */
  ghost function Horner(g: GF, w: seq<nat>, z: nat): nat {
    if |w| == 0 then 0
    else Xor(Mul(g, Horner(g, w[..|w| - 1], z), z), w[|w| - 1])
  }

  ghost function Syndrome(c: Code, w: seq<nat>, i: nat): nat {
    Horner(c.g, w, Root(c, i))
  }

  ghost predicate Codeword(c: Code, w: seq<nat>) {
    && AllIn(c.g, w)
    && forall i :: 0 <= i < c.nroots ==> Syndrome(c, w, i) == 0
  }

  ghost function Differ(a: seq<nat>, b: seq<nat>): set<int>
    requires |a| == |b|
  {
    set j | 0 <= j < |a| && a[j] != b[j]
  }

  /** The number of symbols in which two words differ. */
  ghost function Distance(a: seq<nat>, b: seq<nat>): nat
    requires |a| == |b|
  {
    |Differ(a, b)|
  }

  ghost function XorSeq(a: seq<nat>, b: seq<nat>): (r: seq<nat>)
    requires |a| == |b|
    ensures |r| == |a|
  {
    seq(|a|, j requires 0 <= j < |a| => Xor(a[j], b[j]))
  }

  // ---------- evaluation is linear ----------

  lemma HornerIn(g: GF, w: seq<nat>, z: nat)
    requires AllIn(g, w)
    ensures In(g, Horner(g, w, z))
  {
    hide Mul, Xor, Pow2;
    if |w| > 0 {
      MulIn(g, Horner(g, w[..|w| - 1], z), z);
      InXor(g, Mul(g, Horner(g, w[..|w| - 1], z), z), w[|w| - 1]);
    }
  }

  lemma {:induction false} HornerXor(g: GF, a: seq<nat>, b: seq<nat>, z: nat)
    requires |a| == |b|
    ensures Horner(g, XorSeq(a, b), z) == Xor(Horner(g, a, z), Horner(g, b, z))
  {
    hide Mul, Xor;
    if |a| == 0 {
      XorZero(0);
    } else {
      var n := |a| - 1;
      HornerXor(g, a[..n], b[..n], z);
      assert XorSeq(a, b)[..n] == XorSeq(a[..n], b[..n]);
      var ha, hb := Horner(g, a[..n], z), Horner(g, b[..n], z);
      MulXorLeft(g, ha, hb, z);
      XorSwap(Mul(g, ha, z), Mul(g, hb, z), a[n], b[n]);
    }
  }

  lemma {:induction false} HornerConcat(g: GF, a: seq<nat>, b: seq<nat>, z: nat)
    requires Primitive(g) && AllIn(g, a)
    ensures Horner(g, a + b, z) == Xor(Mul(g, Horner(g, a, z), Pow(g, z, |b|)), Horner(g, b, z))
  {
    hide Mul, Xor, In, Primitive;
    var ha := Horner(g, a, z);
    if |b| == 0 {
      assert a + b == a;
      HornerIn(g, a, z);
      MulOne(g, ha);
      XorZero(ha);
    } else {
      var n := |b| - 1;
      HornerConcat(g, a, b[..n], z);
      assert (a + b)[..|a + b| - 1] == a + b[..n];
      var hb, p := Horner(g, b[..n], z), Pow(g, z, n);
      MulXorLeft(g, Mul(g, ha, p), hb, z);
      MulAssoc(g, ha, p, z);
      XorAssoc(Mul(g, ha, Mul(g, p, z)), Mul(g, hb, z), b[n]);
    }
  }

  // ---------- syndromes as power sums over the positions ----------

  ghost function WordTerm(g: GF, w: seq<nat>, z: nat): Terms {
    j => Mul(g, At(w, j), if 0 <= j < |w| then Pow(g, z, |w| - 1 - j) else 0)
  }

  lemma {:induction false} HornerSum(g: GF, w: seq<nat>, z: nat)
    requires Primitive(g) && AllIn(g, w)
    ensures Horner(g, w, z) == Sum(WordTerm(g, w, z), |w|)
  {
    hide Mul, Xor, In, Primitive;
    if |w| > 0 {
      var n := |w| - 1;
      HornerSum(g, w[..n], z);
      var f, h := WordTerm(g, w, z), WordTerm(g, w[..n], z);
      forall j | 0 <= j < n ensures f(j) == Mul(g, z, h(j)) {
        MulAssoc(g, w[j], Pow(g, z, n - 1 - j), z);
        MulComm(g, h(j), z);
      }
      SumScale(g, z, h, f, n);
      MulComm(g, Sum(h, n), z);
      MulOne(g, w[n]);
    }
  }

  /** The locator of each position of an n-symbol word. */
  ghost function Locator(c: Code, n: nat): Terms {
    j => if 0 <= j < n then Exp(c.g, c.prim * (n - 1 - j)) else 0
  }

  /** The symbol at each position, weighted by the first root. */
  ghost function Weight(c: Code, w: seq<nat>): Terms {
    j => Mul(c.g, At(w, j), Pow(c.g, Locator(c, |w|)(j), c.fcr))
  }

  lemma RootPower(c: Code, n: nat, j: nat, i: nat)
    requires Primitive(c.g) && j < n
    ensures Pow(c.g, Root(c, i), n - 1 - j)
         == Mul(c.g, Pow(c.g, Locator(c, n)(j), c.fcr), Pow(c.g, Locator(c, n)(j), i))
  {
    hide Mul, In, Primitive, Pow, Exp;
    var e := n - 1 - j;
    PowExp(c.g, (c.fcr + i) * c.prim, e);
    PowExp(c.g, c.prim * e, c.fcr);
    PowExp(c.g, c.prim * e, i);
    MulExp(c.g, c.prim * e * c.fcr, c.prim * e * i);
    assert (c.fcr + i) * c.prim * e == c.prim * e * c.fcr + c.prim * e * i by {
      RearrangeExponent(c.fcr, i, c.prim, e);
    }
  }

  lemma RearrangeExponent(f: nat, i: nat, p: nat, e: nat)
    ensures (f + i) * p * e == p * e * f + p * e * i
  {
    var pe := p * e;
    assert (f + i) * p * e == (f + i) * pe;
  }

  lemma SyndromePower(c: Code, w: seq<nat>, i: nat)
    requires Primitive(c.g) && AllIn(c.g, w)
    ensures Syndrome(c, w, i) == PowerSum(c.g, Weight(c, w), Locator(c, |w|), i, |w|)
  {
    hide Mul, In, Primitive, Pow, Root, Sum, Locator;
    var n := |w|;
    HornerSum(c.g, w, Root(c, i));
    var f := WordTerm(c.g, w, Root(c, i));
    var h := PowerTerm(c.g, Weight(c, w), Locator(c, n), i);
    forall j | 0 <= j < n ensures f(j) == h(j) {
      RootPower(c, n, j, i);
      MulAssoc(c.g, w[j], Pow(c.g, Locator(c, n)(j), c.fcr), Pow(c.g, Locator(c, n)(j), i));
    }
    SumEqual(f, h, n);
  }

  // ---------- locators are distinct ----------

  /** nn divides prim * d only when it divides d. */
  lemma PrimCancel(c: Code, d: nat)
    requires Good(c) && Top(c.g) >= 1 && (c.prim * d) % Top(c.g) == 0
    ensures d % Top(c.g) == 0
  {
    hide Primitive, Top;
    var n := Top(c.g);
    var u, v := Bezout(c.prim, n);
    var q := (c.prim * d) / n;
    assert c.prim * d == q * n;
    assert u * (c.prim * d) == (u * c.prim) * d == (1 + v * n) * d;
    assert u * (q * n) == (u * q) * n;
    assert (1 + v * n) * d == d + (v * d) * n;
    assert d == 0 + (u * q - v * d) * n;
    ModMultiple(0, u * q - v * d, n);
  }

  lemma ExpEqual(g: GF, i: nat, j: nat)
    requires Primitive(g) && i <= j && Exp(g, i) == Exp(g, j)
    ensures Top(g) >= 1 && (j - i) % Top(g) == 0
  {
    hide Exp, Primitive, Top;
    ExpLog(g, i);
    ExpLog(g, j);
    var n := Top(g);
    var d := j / n - i / n;
    assert i == (i / n) * n + i % n;
    assert j == (j / n) * n + j % n;
    assert j - i == 0 + d * n;
    ModMultiple(0, d, n);
  }

  lemma LocatorsDistinct(c: Code, n: nat)
    requires Good(c) && n <= Top(c.g)
    ensures Distinct(Locator(c, n), n)
    ensures forall j :: 0 <= j < n ==> In(c.g, Locator(c, n)(j)) && Locator(c, n)(j) != 0
  {
    hide Exp, Primitive, Top, In, Coprime, Locator;
    forall j | 0 <= j < n ensures In(c.g, Locator(c, n)(j)) && Locator(c, n)(j) != 0 {
      LocatorAt(c, n, j, n - 1 - j);
      ExpIn(c.g, c.prim * (n - 1 - j));
      ExpNonzero(c.g, c.prim * (n - 1 - j));
    }
    forall i, j | 0 <= i < j < n ensures Locator(c, n)(i) != Locator(c, n)(j) {
      LocatorAt(c, n, i, n - 1 - i);
      LocatorAt(c, n, j, n - 1 - j);
      PrimPowersDiffer(c, n - 1 - j, n - 1 - i);
    }
  }

  lemma LocatorAt(c: Code, n: nat, j: nat, d: nat)
    requires j + d + 1 == n
    ensures Locator(c, n)(j) == Exp(c.g, c.prim * d)
  {
    hide Exp;
  }

  lemma PrimPowersDiffer(c: Code, a: nat, b: nat)
    requires Good(c) && a < b < Top(c.g)
    ensures Exp(c.g, c.prim * a) != Exp(c.g, c.prim * b)
  {
    hide Exp, Primitive, Top, Coprime;
    if Exp(c.g, c.prim * a) == Exp(c.g, c.prim * b) {
      MulSub(c.prim, a, b);
      MulMono(a, b, c.prim);
      ExpEqual(c.g, c.prim * a, c.prim * b);
      PrimCancel(c, b - a);
      ModUnique(b - a, Top(c.g), 0, b - a);
    }
  }

  lemma WeightSupport(c: Code, w: seq<nat>)
    requires Good(c) && AllIn(c.g, w) && |w| <= Top(c.g)
    ensures forall j :: 0 <= j < |w| ==> In(c.g, Weight(c, w)(j)) && (Weight(c, w)(j) == 0 <==> w[j] == 0)
  {
    hide Exp, Primitive, Top, In, Coprime, Mul, Pow, Locator;
    LocatorsDistinct(c, |w|);
    forall j | 0 <= j < |w|
      ensures In(c.g, Weight(c, w)(j)) && (Weight(c, w)(j) == 0 <==> w[j] == 0)
    {
      var x := Locator(c, |w|)(j);
      var p := Pow(c.g, x, c.fcr);
      MulIn(c.g, w[j], p);
      PowIn(c.g, x, c.fcr);
      PowNonzero(c.g, x, c.fcr);
      MulNonzero(c.g, w[j], p);
    }
  }

  // ---------- the distance of the code ----------

  /** BCH bound: a word of at most nroots nonzero symbols is a codeword only if it is all zero. */
  lemma MinimumWeight(c: Code, w: seq<nat>)
    requires Good(c) && Codeword(c, w) && |w| <= Top(c.g)
    requires |Support(Weight(c, w), |w|)| <= c.nroots
    ensures AllZero(w)
  {
    hide Primitive, Top, In, Coprime, Locator, Distinct, PowerSum, Syndrome, Weight;
    var y, x := Weight(c, w), Locator(c, |w|);
    LocatorsDistinct(c, |w|);
    WeightSupport(c, w);
    forall k | 0 <= k < |Support(y, |w|)| ensures PowerSum(c.g, y, x, k, |w|) == 0 {
      SyndromePower(c, w, k);
    }
    Vandermonde(c.g, y, x, |w|);
    forall j | 0 <= j < |w| ensures w[j] == 0 {
      assert j !in Support(y, |w|);
    }
  }

  lemma XorSeqIn(g: GF, a: seq<nat>, b: seq<nat>)
    requires |a| == |b| && AllIn(g, a) && AllIn(g, b)
    ensures AllIn(g, XorSeq(a, b))
  {
    hide Xor, In;
    forall j | 0 <= j < |a| ensures In(g, XorSeq(a, b)[j]) {
      InXor(g, a[j], b[j]);
    }
  }

  lemma XorSupport(c: Code, a: seq<nat>, b: seq<nat>)
    requires Good(c) && |a| == |b| <= Top(c.g) && AllIn(c.g, a) && AllIn(c.g, b)
    ensures Support(Weight(c, XorSeq(a, b)), |a|) == Differ(a, b)
  {
    hide Primitive, Top, In, Coprime, Xor, Weight;
    XorSeqIn(c.g, a, b);
    WeightSupport(c, XorSeq(a, b));
    forall j | 0 <= j < |a| ensures XorSeq(a, b)[j] == 0 <==> a[j] == b[j] {
      XorEqual(a[j], b[j]);
    }
  }

  lemma CloseCodewordsEqual(c: Code, a: seq<nat>, b: seq<nat>)
    requires Good(c) && |a| == |b| <= Top(c.g)
    requires Codeword(c, a) && Codeword(c, b) && Distance(a, b) <= c.nroots
    ensures a == b
  {
    hide Primitive, Top, In, Coprime, Xor, Syndrome, Weight, Support, Differ;
    var e := XorSeq(a, b);
    XorSeqIn(c.g, a, b);
    XorSupport(c, a, b);
    forall i | 0 <= i < c.nroots ensures Syndrome(c, e, i) == 0 {
      SyndromeXor(c, a, b, i);
      XorZero(0);
    }
    MinimumWeight(c, e);
    forall j | 0 <= j < |a| ensures a[j] == b[j] {
      XorEqual(a[j], b[j]);
      assert e[j] == 0;
    }
  }

  /** Two different codewords of equal length differ in at least nroots + 1 symbols. */
  lemma MinimumDistance(c: Code, a: seq<nat>, b: seq<nat>)
    requires Good(c) && |a| == |b| <= Top(c.g)
    requires Codeword(c, a) && Codeword(c, b) && a != b
    ensures Distance(a, b) >= c.nroots + 1
  {
    hide *;
    if Distance(a, b) <= c.nroots {
      CloseCodewordsEqual(c, a, b);
    }
  }

  lemma SyndromeXor(c: Code, a: seq<nat>, b: seq<nat>, i: nat)
    requires |a| == |b|
    ensures Syndrome(c, XorSeq(a, b), i) == Xor(Syndrome(c, a, i), Syndrome(c, b, i))
  {
    hide Xor, Horner, Root;
    HornerXor(c.g, a, b, Root(c, i));
  }
}
