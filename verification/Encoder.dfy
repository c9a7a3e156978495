/** The systematic encoder. */
module Encoder {
  import opened BitXor
  import opened GaloisField
  import opened FieldLaws
  import opened Polynomials
  import opened RsCode
  import opened Generator
  import opened RsControl

  const ERANGE := 34

  /** The field symbols the codec sees: (data ^ invmsk) & nn. */
  ghost function Symbols(g: GF, data: seq<nat>, invmsk: nat): (r: seq<nat>)
    ensures |r| == |data|
    ensures AllIn(g, r)
  {
    hide Low;
    seq<nat>(|data|, j requires 0 <= j < |data| => Mask(g, Xor(data[j], invmsk)))
  }

  /** The inversion mask is as good as inverting the data beforehand. */
  lemma InvertedData(g: GF, data: seq<nat>, inverted: seq<nat>, invmsk: nat)
    requires |inverted| == |data| && forall j :: 0 <= j < |data| ==> inverted[j] == Xor(data[j], invmsk)
    ensures Symbols(g, data, invmsk) == Symbols(g, inverted, 0)
  {
    hide Xor, Mask;
    forall j | 0 <= j < |data| ensures Xor(inverted[j], 0) == inverted[j] {
      XorZero(inverted[j]);
      XorComm(inverted[j], 0);
    }
  }

  /** Log-form generator coefficients are never "log of zero" for a code with room for data. */
  lemma GenpolyEntry(rs: Control, i: nat)
    requires Valid(rs) && rs.nroots < rs.nn && i <= rs.nroots
    ensures rs.genpoly[i] < rs.nn
    ensures rs.alphaTo[rs.genpoly[i]] == GenPoly(CodeOf(rs), rs.nroots)[i]
  {
    hide GenPoly, Good, Tables;
    var c := CodeOf(rs);
    GenPolyNonzero(c, i);
    assert Primitive(c.g) by { GoodPrimitive(c); }
    TablesIn(c.g, rs.alphaTo, rs.indexOf, GenPoly(c, rs.nroots)[i]);
  }

  lemma GoodPrimitive(c: Code)
    requires Good(c)
    ensures Primitive(c.g) && c.g.mm >= 1
  {
    hide Exp;
  }

  lemma ValidParts(rs: Control)
    requires Valid(rs)
    ensures Good(CodeOf(rs)) && Primitive(CodeOf(rs).g) && Tables(CodeOf(rs).g, rs.alphaTo, rs.indexOf)
    ensures rs.mm >= 1 && rs.nn == Top(CodeOf(rs).g) == Pow2(rs.mm) - 1 && rs.nn >= 1
    ensures |rs.alphaTo| == |rs.indexOf| == rs.nn + 1 && |rs.genpoly| == rs.nroots + 1
  {
    hide Exp;
  }

  /** The feedback product the encoder forms from two logarithms. */
  lemma FeedbackProduct(rs: Control, f: nat, i: nat)
    requires Valid(rs) && rs.nroots < rs.nn && i <= rs.nroots && f <= rs.nn
    ensures rs.nn >= 1 && f < |rs.indexOf|
    ensures rs.indexOf[f] != rs.nn ==>
              rs.alphaTo[(rs.indexOf[f] + rs.genpoly[i]) % rs.nn] == Mul(CodeOf(rs).g, f, GenPoly(CodeOf(rs), rs.nroots)[i])
    ensures rs.indexOf[f] == rs.nn ==> f == 0 && Mul(CodeOf(rs).g, f, GenPoly(CodeOf(rs), rs.nroots)[i]) == 0
  {
    hide GenPoly, Good, Tables, Mul, Valid, Primitive, Top;
    var c := CodeOf(rs);
    ValidParts(rs);
    GenpolyEntry(rs, i);
    TablesIn(c.g, rs.alphaTo, rs.indexOf, f);
    if rs.indexOf[f] != rs.nn {
      TableMulIndex(c.g, rs.alphaTo, rs.indexOf, rs.indexOf[f], rs.genpoly[i]);
    } else {
      MulZero(c.g, GenPoly(c, rs.nroots)[i]);
    }
  }

  /** One symbol through the parity register. */
  method EncodeSymbol(rs: Control, par: array<nat>, d: nat)
    requires Valid(rs) && 1 <= rs.nroots < rs.nn && par.Length == rs.nroots
    requires d <= rs.nn && AllIn(CodeOf(rs).g, par[..])
    modifies par
    ensures par[..] == LfsrStep(CodeOf(rs), old(par[..]), d)
  {
    hide Xor, Mul, GenPoly, Good, Tables, LfsrStep, Exp;
    ghost var c, was := CodeOf(rs), par[..];
    ghost var gp := GenPoly(c, rs.nroots);
    ValidParts(rs);
    InXor(c.g, d, was[0]);
    ghost var f := Xor(d, was[0]);
    var n := rs.nroots;
    var fb := rs.indexOf[Xor(d, par[0])];
    if fb != rs.nn {
      var j := 1;
      while j < n
        invariant 1 <= j <= n
        invariant forall k :: j <= k < n ==> par[k] == was[k]
        invariant forall k :: 1 <= k < j ==> par[k] == Xor(was[k], Mul(c.g, f, gp[n - k]))
      {
        FeedbackProduct(rs, f, n - j);
        var t := RsModnn(rs.mm, rs.nn, fb + rs.genpoly[n - j]);
        par[j] := Xor(par[j], rs.alphaTo[t]);
        j := j + 1;
      }
    } else {
      forall k | 1 <= k < n ensures par[k] == Xor(was[k], Mul(c.g, f, gp[n - k])) {
        FeedbackProduct(rs, f, n - k);
        XorZero(was[k]);
      }
    }
    forall k | 0 <= k < n - 1 {
      par[k] := par[k + 1];
    }
    FeedbackProduct(rs, f, 0);
    if fb != rs.nn {
      var t := RsModnn(rs.mm, rs.nn, fb + rs.genpoly[0]);
      par[n - 1] := rs.alphaTo[t];
    } else {
      par[n - 1] := 0;
    }
    XorZero(par[n - 1]);
    LfsrStepIs(c, was, d, par[..]);
  }

  lemma LfsrStepIs(c: Code, par: seq<nat>, d: nat, r: seq<nat>)
    requires |par| == |r| == c.nroots >= 1
    requires var f, gp, n := Xor(d, par[0]), GenPoly(c, c.nroots), c.nroots;
      && (forall k :: 0 <= k < n - 1 ==> r[k] == Xor(par[k + 1], Mul(c.g, f, gp[n - (k + 1)])))
      && r[n - 1] == Xor(0, Mul(c.g, f, gp[0]))
    ensures r == LfsrStep(c, par, d)
  {
    hide Xor, Mul, GenPoly;
    var n, s := c.nroots, LfsrStep(c, par, d);
    forall k | 0 <= k < n ensures r[k] == s[k] {
      assert At(par, k + 1) == if k < n - 1 then par[k + 1] else 0;
      assert n - 1 - k == n - (k + 1);
    }
  }

  /** encode_rs8 / encode_rs16: runs the data through the register held in par. */
  method EncodeRs(rs: Control, data: array<nat>, len: int, par: array<nat>, invmsk: nat) returns (ret: int)
    requires Valid(rs) && par.Length == rs.nroots >= 1 && data != par && len <= data.Length
    requires AllIn(CodeOf(rs).g, par[..])
    modifies par
    ensures ret == if 0 <= rs.nn - rs.nroots - len < rs.nn then 0 else -ERANGE
    ensures ret != 0 || len < 0 ==> par[..] == old(par[..])
    ensures ret == 0 && len >= 0 ==>
              par[..] == Lfsr(CodeOf(rs), old(par[..]), Symbols(CodeOf(rs).g, data[..len], invmsk))
    ensures ret == 0 && len >= 0 && AllZero(old(par[..])) ==>
              Codeword(CodeOf(rs), Symbols(CodeOf(rs).g, data[..len], invmsk) + par[..])
  {
    hide Xor, Mul, GenPoly, Good, Tables, LfsrStep, Exp, Low, Codeword, Symbols;
    ghost var c, was := CodeOf(rs), par[..];
    ValidParts(rs);
    var pad := rs.nn - rs.nroots - len;
    if pad < 0 || pad >= rs.nn {
      return -ERANGE;
    }
    if len >= 0 {
      assert data[..0] == [];
    }
    var i := 0;
    while i < len
      invariant 0 <= i && (len >= 0 ==> i <= len)
      invariant len < 0 ==> i == 0 && par[..] == was
      invariant len >= 0 ==> par[..] == Lfsr(c, was, Symbols(c.g, data[..i], invmsk))
      invariant AllIn(c.g, par[..])
    {
      var d := Low(Xor(data[i], invmsk), rs.mm);
      ghost var before := par[..];
      EncodeSymbol(rs, par, d);
      SymbolsNext(c.g, data[..i + 1], invmsk);
      assert data[..i + 1][..i] == data[..i];
      LfsrStepIn(c, before, d);
      i := i + 1;
    }
    ret := 0;
    if len >= 0 && AllZero(was) {
      assert was == Zeros(c.nroots);
      EncodingIsCodeword(c, Symbols(c.g, data[..len], invmsk));
    }
  }

  lemma SymbolsNext(g: GF, data: seq<nat>, invmsk: nat)
    requires |data| > 0
    ensures var n := |data| - 1;
      && Symbols(g, data, invmsk)[..n] == Symbols(g, data[..n], invmsk)
      && Symbols(g, data, invmsk)[n] == Low(Xor(data[n], invmsk), g.mm) <= Top(g)
  {
    hide Xor, Low;
  }
}
