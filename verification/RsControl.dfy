/** The control structure of the codec: lookup tables, the generator polynomial in
    index form, and their construction. */
module RsControl {
  import opened BitXor
  import opened GaloisField
  import opened FieldLaws
  import opened ModularArithmetic
  import opened RsCode
  import opened Generator

  datatype Option<T> = None | Some(value: T)

  /** What rs_init leaves behind; nothing changes it afterwards. */
  datatype Control = Control(
    mm: nat, nn: nat, alphaTo: seq<nat>, indexOf: seq<nat>, genpoly: seq<nat>,
    nroots: nat, fcr: nat, prim: nat, iprim: nat, gfpoly: nat)

  ghost function CodeOf(rs: Control): Code {
    Code(GF(rs.mm, rs.gfpoly), rs.fcr, rs.prim, rs.nroots)
  }

  /** alphaTo is the antilogarithm with alphaTo[nn] == 0, indexOf its inverse with indexOf[0] == nn. */
  ghost predicate Tables(g: GF, alphaTo: seq<nat>, indexOf: seq<nat>) {
    var nn := Top(g);
    && |alphaTo| == |indexOf| == nn + 1
    && (forall i :: 0 <= i < nn ==> alphaTo[i] == Exp(g, i))
    && alphaTo[nn] == 0
    && indexOf[0] == nn
    && (forall a :: 0 < a <= nn ==> indexOf[a] < nn && alphaTo[indexOf[a]] == a)
  }

  ghost predicate Valid(rs: Control) {
    var c := CodeOf(rs);
    && Good(c)
    && rs.nn == Top(c.g)
    && Tables(c.g, rs.alphaTo, rs.indexOf)
    && |rs.genpoly| == rs.nroots + 1
    && (forall i :: 0 <= i <= rs.nroots ==>
          In(c.g, GenPoly(c, rs.nroots)[i]) && rs.genpoly[i] == rs.indexOf[GenPoly(c, rs.nroots)[i]])
    && 1 <= rs.iprim <= rs.nn
    && exists t: nat :: rs.iprim * rs.prim == 1 + t * rs.nn
  }

  // ---------- arithmetic on indices ----------

  lemma {:induction false} ShiftSplit(x: nat, k: nat)
    ensures x == Shr(x, k) * Pow2(k) + Low(x, k)
  {
    if k > 0 {
      ShiftSplit(x / 2, k - 1);
      DoubleProduct(Shr(x, k), Pow2(k - 1));
    }
  }

  lemma DoubleProduct(s: nat, p: nat)
    ensures s * (2 * p) == 2 * (s * p)
  {
  }

  lemma FoldStep(r: nat, mm: nat, nn: nat)
    requires mm >= 1 && nn == Pow2(mm) - 1 && r >= nn >= 1
    ensures var x := r - nn; Shr(x, mm) + Low(x, mm) < r && (Shr(x, mm) + Low(x, mm)) % nn == r % nn
  {
    hide Shr, Low, Pow2;
    ShiftSplit(r - nn, mm);
    FoldArithmetic(r, nn, Shr(r - nn, mm), Low(r - nn, mm));
  }

  lemma FoldArithmetic(r: nat, nn: nat, q: nat, l: nat)
    requires r >= nn >= 1 && r - nn == q * (nn + 1) + l
    ensures q + l < r && (q + l) % nn == r % nn
  {
    MulSub(q, 1, nn + 1);
    MulMono(0, q, nn);
    ModMultiple(q + l, q + 1, nn);
    MulSub(nn, q, q + 1);
  }

  /** Reduction modulo nn by folding the high bits onto the low ones. */
  method RsModnn(mm: nat, nn: nat, x: int) returns (r: int)
    requires mm >= 1 && nn == Pow2(mm) - 1
    ensures r == if x < 0 then x else x % nn
  {
    hide Shr, Low;
    r := x;
    while r >= nn
      invariant x < 0 ==> r == x
      invariant x >= 0 ==> r >= 0 && r % nn == x % nn
      decreases r
    {
      FoldStep(r, mm, nn);
      r := r - nn;
      r := Shr(r, mm) + Low(r, mm);
    }
    if x >= 0 {
      ModUnique(r, nn, 0, r);
    }
  }

  lemma NonzeroTop(g: GF)
    requires Primitive(g)
    ensures Top(g) >= 1 && In(g, Top(g)) && Top(g) == Pow2(g.mm) - 1 && g.mm >= 1
  {
    hide Exp;
  }

  /** The unguarded table product: alphaTo[(indexOf[a] + e) mod nn] is a x^e for nonzero a. */
  lemma TableMul(g: GF, alphaTo: seq<nat>, indexOf: seq<nat>, a: nat, e: nat)
    requires Primitive(g) && Tables(g, alphaTo, indexOf) && 0 < a <= Top(g)
    ensures Top(g) >= 1
    ensures alphaTo[(indexOf[a] + e) % Top(g)] == Mul(g, a, Exp(g, e))
  {
    hide Exp, Mul, Primitive, Top;
    NonzeroTop(g);
    MulExp(g, indexOf[a], e);
    ExpMod(g, indexOf[a] + e);
  }

  /** Logarithms add: both factors in index form. */
  lemma TableMulIndex(g: GF, alphaTo: seq<nat>, indexOf: seq<nat>, i: nat, j: nat)
    requires Primitive(g) && Tables(g, alphaTo, indexOf) && i < Top(g) && j < Top(g)
    ensures alphaTo[(i + j) % Top(g)] == Mul(g, alphaTo[i], alphaTo[j])
  {
    hide Exp, Mul, Primitive, Top;
    NonzeroTop(g);
    MulExp(g, i, j);
    ExpMod(g, i + j);
  }

  /** The table product of nonzero symbols is their product as polynomials modulo the field polynomial. */
  lemma TableMulIsPolyMul(g: GF, alphaTo: seq<nat>, indexOf: seq<nat>, a: nat, b: nat)
    requires Primitive(g) && Tables(g, alphaTo, indexOf) && 0 < a <= Top(g) && 0 < b <= Top(g)
    ensures Top(g) >= 1
    ensures alphaTo[(indexOf[a] + indexOf[b]) % Top(g)] == PolyMul(g, a, b, g.mm)
  {
    hide Exp, Mul, Primitive, PolyMul;
    NonzeroTop(g);
    TableMulIndex(g, alphaTo, indexOf, indexOf[a], indexOf[b]);
    PolyMulIsMul(g, a, b, g.mm);
  }

  lemma TablesIn(g: GF, alphaTo: seq<nat>, indexOf: seq<nat>, i: nat)
    requires Primitive(g) && Tables(g, alphaTo, indexOf) && i <= Top(g)
    ensures In(g, alphaTo[i]) && (alphaTo[i] == 0 <==> i == Top(g))
    ensures indexOf[i] <= Top(g) && alphaTo[indexOf[i]] == i && (indexOf[i] == Top(g) <==> i == 0)
  {
    hide Exp, Primitive;
    if i < Top(g) {
      ExpIn(g, i);
      ExpNonzero(g, i);
    }
    if i > 0 && indexOf[i] < Top(g) {
      ExpNonzero(g, indexOf[i]);
    }
  }

  // ---------- construction of the tables ----------

  /** Runs the register nn times; the returned sr is where it stops. */
  method FillTables(symsize: nat, gfpoly: nat) returns (alphaTo: seq<nat>, indexOf: seq<nat>, sr: nat)
    requires symsize >= 1
    ensures sr == Exp(GF(symsize, gfpoly), Top(GF(symsize, gfpoly)))
    ensures |alphaTo| == |indexOf| == Pow2(symsize)
    ensures forall i :: 0 <= i < Pow2(symsize) ==> alphaTo[i] < Pow2(symsize)
    ensures alphaTo[0] == 1
    ensures Primitive(GF(symsize, gfpoly)) ==> Tables(GF(symsize, gfpoly), alphaTo, indexOf)
  {
    hide Xor, Low, Shr, Exp, Primitive;
    ghost var g := GF(symsize, gfpoly);
    ExpZero(g);
    var nn := Pow2(symsize) - 1;
    var at := new nat[nn + 1];
    var io := new nat[nn + 1];
    io[0] := nn;
    at[nn] := 0;
    sr := 1;
    var i := 0;
    while i < nn
      invariant 0 <= i <= nn && sr <= nn && sr == Exp(g, i)
      invariant at[nn] == 0
      invariant forall k :: 0 <= k < i ==> at[k] == Exp(g, k) && at[k] <= nn
      invariant Primitive(g) ==> io[0] == nn
      invariant Primitive(g) ==> forall k :: 0 <= k < i ==> 0 < at[k] && io[at[k]] == k
    {
      if Primitive(g) {
        FreshPower(g, at[..], i);
        ExpNonzero(g, i);
      }
      io[sr] := i;
      at[i] := sr;
      NextPower(g, i);
      var t := 2 * sr;
      if Shr(t, symsize) % 2 == 1 {
        t := Xor(t, gfpoly);
      }
      sr := Low(t, symsize);
      i := i + 1;
    }
    alphaTo, indexOf := at[..], io[..];
    if Primitive(g) {
      TablesComplete(g, alphaTo, indexOf);
    }
  }

  lemma NextPower(g: GF, i: nat)
    ensures Exp(g, i + 1) == Low(if Shr(2 * Exp(g, i), g.mm) % 2 == 1 then Xor(2 * Exp(g, i), g.poly) else 2 * Exp(g, i), g.mm)
  {
    hide Xor, Low, Shr;
  }

  lemma FreshPower(g: GF, at: seq<nat>, i: nat)
    requires Primitive(g) && i < Top(g) && i <= |at|
    requires forall k :: 0 <= k < i ==> at[k] == Exp(g, k)
    ensures forall k :: 0 <= k < i ==> at[k] != Exp(g, i)
  {
    hide Exp, Top, Primitive;
    forall k | 0 <= k < i ensures at[k] != Exp(g, i) {
      ExpInjective(g, k, i);
    }
  }

  lemma TablesComplete(g: GF, alphaTo: seq<nat>, indexOf: seq<nat>)
    requires Primitive(g) && |alphaTo| == |indexOf| == Top(g) + 1
    requires forall k :: 0 <= k < Top(g) ==> alphaTo[k] == Exp(g, k) && 0 < alphaTo[k] <= Top(g) && indexOf[alphaTo[k]] == k
    requires alphaTo[Top(g)] == 0 && indexOf[0] == Top(g)
    ensures Tables(g, alphaTo, indexOf)
  {
    hide Exp, Primitive;
    forall a | 0 < a <= Top(g) ensures indexOf[a] < Top(g) && alphaTo[indexOf[a]] == a {
      ExpSurjective(g, a);
      var i: nat :| i < Top(g) && Exp(g, i) == a;
      assert alphaTo[i] == a;
    }
  }

  // ---------- the inverse of prim ----------

  lemma ReduceBezout(prim: nat, nn: nat) returns (v: nat)
    requires prim > 0 && nn > 0 && Coprime(prim, nn)
    ensures v < prim && (1 + v * nn) % prim == 0
  {
    var u, w := Bezout(prim, nn);
    v := w % prim;
    var q := w / prim;
    assert w == q * prim + v;
    assert w * nn == (q * nn) * prim + v * nn by {
      assert q * prim * nn == (q * nn) * prim;
    }
    assert 1 + v * nn == 0 + (u - q * nn) * prim;
    ModMultiple(0, u - q * nn, prim);
  }

  lemma NextMultiple(k: nat, nn: nat)
    ensures (k + 1) * nn == k * nn + nn
  {
  }

  lemma ExactQuotient(x: nat, d: nat)
    requires d > 0 && x % d == 0
    ensures (x / d) * d == x
  {
  }

  /** Searches 1, 1 + nn, 1 + 2 nn, ... for a multiple of prim; stops within prim steps. */
  method FindIprim(prim: nat, nn: nat) returns (iprim: nat)
    requires prim > 0 && nn > 0 && Coprime(prim, nn)
    ensures 1 <= iprim <= nn
    ensures exists t: nat :: t < prim && iprim * prim == 1 + t * nn
  {
    ghost var v := ReduceBezout(prim, nn);
    var x := 1;
    ghost var k := 0;
    while x % prim != 0
      invariant 0 <= k <= v && x == 1 + k * nn
      decreases v - k
    {
      assert k != v;
      NextMultiple(k, nn);
      x := x + nn;
      k := k + 1;
    }
    iprim := x / prim;
    ExactQuotient(x, prim);
    IprimBound(iprim, prim, k, nn);
  }

  lemma IprimBound(iprim: nat, prim: nat, k: nat, nn: nat)
    requires prim > 0 && nn > 0 && k < prim && iprim * prim == 1 + k * nn
    ensures 1 <= iprim <= nn
  {
    MulMono(k, prim - 1, nn);
    MulSub(nn, 1, prim);
    MulMono(0, k, nn);
    if iprim > nn {
      MulMono(nn + 1, iprim, prim);
      MulSub(prim, nn, nn + 1);
    }
  }

  // ---------- the generator polynomial ----------

  /** genpoly[0..i+1] becomes (x + root) genpoly[0..i], from the top down in place. */
  method TimesRoot(g: GF, mm: nat, alphaTo: seq<nat>, indexOf: seq<nat>, gp: array<nat>, i: nat, root: nat, ghost factor: seq<nat>)
    requires mm >= 1 && |alphaTo| == |indexOf| == Pow2(mm) && g.mm == mm
    requires forall k :: 0 <= k < |alphaTo| ==> alphaTo[k] < Pow2(mm)
    requires i + 1 < gp.Length && |factor| == i + 1 && factor[i] == 1
    requires forall k :: 0 <= k <= i ==> gp[k] == factor[k] && gp[k] < Pow2(mm)
    requires Primitive(g) ==> Tables(g, alphaTo, indexOf) && factor[0] != 0
    modifies gp
    ensures forall k :: i + 1 < k < gp.Length ==> gp[k] == old(gp[k])
    ensures forall k :: 0 <= k <= i + 1 ==> gp[k] < Pow2(mm)
    ensures gp[i + 1] == 1
    ensures Primitive(g) ==> gp[..i + 2] == TimesLinear(g, factor, Exp(g, root)) && gp[0] != 0
  {
    hide Exp, Mul, Primitive, Xor, TimesLinear, Tables;
    var nn := Pow2(mm) - 1;
    ghost var product := TimesLinear(g, factor, Exp(g, root));
    InOne(g);
    gp[i + 1] := 1;
    if Primitive(g) {
      TimesLinearTop(g, factor, Exp(g, root));
    }
    var j := i;
    while j > 0
      invariant 0 <= j <= i
      invariant forall k :: i + 1 < k < gp.Length ==> gp[k] == old(gp[k])
      invariant forall k :: 0 <= k <= i + 1 ==> gp[k] < Pow2(mm)
      invariant forall k :: 0 <= k <= j ==> gp[k] == factor[k]
      invariant gp[i + 1] == 1
      invariant Primitive(g) ==> forall k :: j < k <= i + 1 ==> gp[k] == product[k]
    {
      if gp[j] != 0 {
        var t := RsModnn(mm, nn, indexOf[gp[j]] + root);
        if Primitive(g) {
          GenStep(g, alphaTo, indexOf, factor, j, root);
        }
        XorBound(gp[j - 1], alphaTo[t], mm);
        gp[j] := Xor(gp[j - 1], alphaTo[t]);
      } else {
        if Primitive(g) {
          GenStep(g, alphaTo, indexOf, factor, j, root);
        }
        gp[j] := gp[j - 1];
      }
      j := j - 1;
    }
    var t := RsModnn(mm, nn, indexOf[gp[0]] + root);
    if Primitive(g) {
      GenStepZero(g, alphaTo, indexOf, factor, root);
    }
    gp[0] := alphaTo[t];
    if Primitive(g) {
      assert gp[..i + 2] == product;
    }
  }

  lemma GenStep(g: GF, alphaTo: seq<nat>, indexOf: seq<nat>, p: seq<nat>, j: nat, root: nat)
    requires Primitive(g) && Tables(g, alphaTo, indexOf) && 0 < j < |p| && p[j] <= Top(g)
    ensures Top(g) >= 1
    ensures TimesLinear(g, p, Exp(g, root))[j]
         == if p[j] != 0 then Xor(p[j - 1], alphaTo[(indexOf[p[j]] + root) % Top(g)]) else p[j - 1]
  {
    hide Exp, Mul, Primitive, Xor, Tables, Top;
    NonzeroTop(g);
    if p[j] != 0 {
      TableMul(g, alphaTo, indexOf, p[j], root);
    } else {
      MulZero(g, Exp(g, root));
      XorZero(p[j - 1]);
    }
  }

  lemma GenStepZero(g: GF, alphaTo: seq<nat>, indexOf: seq<nat>, p: seq<nat>, root: nat)
    requires Primitive(g) && Tables(g, alphaTo, indexOf) && 0 < |p| && 0 < p[0] <= Top(g)
    ensures Top(g) >= 1
    ensures TimesLinear(g, p, Exp(g, root))[0] == alphaTo[(indexOf[p[0]] + root) % Top(g)] != 0
  {
    hide Exp, Mul, Primitive, Xor, Tables, Top, In;
    NonzeroTop(g);
    TableMul(g, alphaTo, indexOf, p[0], root);
    XorZero(Mul(g, p[0], Exp(g, root)));
    ExpIn(g, root);
    ExpNonzero(g, root);
    assert In(g, p[0]) by { InTop(g, p[0]); }
    MulNonzero(g, p[0], Exp(g, root));
  }

  lemma InTop(g: GF, a: nat)
    requires g.mm >= 1
    ensures a <= Top(g) <==> In(g, a)
  {
  }

  /** The generator polynomial, multiplied up root by root, then put in index form. */
  method FormGenpoly(c: Code, alphaTo: seq<nat>, indexOf: seq<nat>) returns (genpoly: seq<nat>)
    requires c.g.mm >= 1 && |alphaTo| == |indexOf| == Pow2(c.g.mm)
    requires forall k :: 0 <= k < |alphaTo| ==> alphaTo[k] < Pow2(c.g.mm)
    requires Primitive(c.g) ==> Tables(c.g, alphaTo, indexOf)
    ensures |genpoly| == c.nroots + 1
    ensures Primitive(c.g) ==> forall i :: 0 <= i <= c.nroots ==>
              GenPoly(c, c.nroots)[i] <= Top(c.g) && genpoly[i] == indexOf[GenPoly(c, c.nroots)[i]]
  {
    hide Exp, Primitive, Tables, TimesLinear;
    var n := c.nroots;
    var gp := new nat[n + 1];
    gp[0] := 1;
    InOne(c.g);
    var i, root := 0, c.fcr * c.prim;
    while i < n
      invariant 0 <= i <= n && root == (c.fcr + i) * c.prim
      invariant forall k :: 0 <= k <= i ==> gp[k] < Pow2(c.g.mm)
      invariant gp[i] == 1
      invariant Primitive(c.g) ==> gp[..i + 1] == GenPoly(c, i) && gp[0] != 0
    {
      ghost var p := gp[..i + 1];
      MulSub(c.prim, c.fcr + i, c.fcr + i + 1);
      TimesRoot(c.g, c.g.mm, alphaTo, indexOf, gp, i, root, p);
      i, root := i + 1, root + c.prim;
    }
    ghost var poly := gp[..];
    assert poly == gp[..n + 1];
    i := 0;
    while i <= n
      invariant 0 <= i <= n + 1
      invariant forall k :: i <= k <= n ==> gp[k] == poly[k]
      invariant forall k :: 0 <= k < i ==> gp[k] == indexOf[poly[k]]
    {
      gp[i] := indexOf[gp[i]];
      i := i + 1;
    }
    genpoly := gp[..];
  }

  // ---------- rs_init ----------

  /** Parameter checks, tables, inverse of prim and generator polynomial. Refused exactly when a
      parameter is out of range or the register does not return to 1 after nn turns. */
  method InitRs(symsize: int, gfpoly: nat, fcr: int, prim: int, nroots: int) returns (r: Option<Control>)
    requires gfpoly != 0
    requires symsize >= 1 && prim >= 1 ==> Coprime(prim, Pow2(symsize) - 1)
    ensures r.None? <==>
              || symsize < 1
              || !(0 <= fcr < Pow2(symsize))
              || !(1 <= prim < Pow2(symsize))
              || !(0 <= nroots < Pow2(symsize))
              || Exp(GF(symsize, gfpoly), Pow2(symsize) - 1) != 1
    ensures r.Some? ==> CodeOf(r.value) == Code(GF(symsize, gfpoly), fcr, prim, nroots)
    ensures r.Some? && Primitive(GF(symsize, gfpoly)) ==> Valid(r.value)
  {
    hide Exp, Primitive, GenPoly, Coprime;
    if symsize < 1 {
      return None;
    }
    var size := Pow2(symsize);
    if fcr < 0 || fcr >= size || prim <= 0 || prim >= size || nroots < 0 || nroots >= size {
      return None;
    }
    var nn := size - 1;
    var alphaTo, indexOf, sr := FillTables(symsize, gfpoly);
    if sr != alphaTo[0] {
      return None;
    }
    var iprim := FindIprim(prim, nn);
    var c := Code(GF(symsize, gfpoly), fcr, prim, nroots);
    var genpoly := FormGenpoly(c, alphaTo, indexOf);
    var rs := Control(symsize, nn, alphaTo, indexOf, genpoly, nroots, fcr, prim, iprim, gfpoly);
    r := Some(rs);
  }
}
