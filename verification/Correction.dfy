/** Last part of the decoder: the evaluator polynomial, the error values, and the
    in-place correction of the data. */
module Correction {
  import opened BitXor
  import opened GaloisField
  import opened FieldLaws
  import opened Sums
  import opened Polynomials
  import opened RsCode
  import opened Recurrences
  import opened RsControl
  import opened Encoder
  import opened Syndromes
  import opened BerlekampMassey
  import opened Forney
  import opened Chien

  lemma IndexProductGuarded(rs: Control, i: nat, j: nat)
    requires Valid(rs) && i <= rs.nn && j <= rs.nn
    ensures rs.nn >= 1 && |rs.alphaTo| == rs.nn + 1
    ensures i != rs.nn && j != rs.nn ==>
              rs.alphaTo[(i + j) % rs.nn] == Mul(CodeOf(rs).g, rs.alphaTo[i], rs.alphaTo[j])
    ensures i == rs.nn || j == rs.nn ==> Mul(CodeOf(rs).g, rs.alphaTo[i], rs.alphaTo[j]) == 0
  {
    hide Good, Mul, Valid, Primitive, Top, Tables;
    ValidParts(rs);
    TopIsZero(rs);
    if i != rs.nn && j != rs.nn {
      IndexProduct(rs, i, j);
    } else {
      MulZero(CodeOf(rs).g, rs.alphaTo[i]);
      MulZero(CodeOf(rs).g, rs.alphaTo[j]);
    }
  }

  /** Coefficient i of s(x) lambda(x), both in index form, in value form. */
  method OmegaCoefficient(rs: Control, s: array<nat>, lambda: array<nat>, i: nat, ghost syn: seq<nat>, ghost lam: seq<nat>)
    returns (tmp: nat)
    requires Valid(rs) && i < s.Length && i < lambda.Length
    requires Indices(rs, s[..]) && Vals(rs, s[..]) == syn && Indices(rs, lambda[..]) && Vals(rs, lambda[..]) == lam
    ensures tmp == Conv(CodeOf(rs).g, lam, syn, i) <= rs.nn
  {
    hide Xor, Mul, Good, Tables, Valid, Primitive, Top, SumDown;
    ghost var g := CodeOf(rs).g;
    ghost var f := ConvTerm(g, lam, syn, i);
    ValidParts(rs);
    tmp := 0;
    SumDownEmpty(f, i + 1);
    var j: int := i;
    while j >= 0
      invariant -1 <= j <= i
      invariant tmp == SumDown(f, j + 1, i + 1)
    {
      SumDownNext(f, j, i + 1);
      IndexProductGuarded(rs, s[i - j], lambda[j]);
      MulComm(g, rs.alphaTo[s[i - j]], rs.alphaTo[lambda[j]]);
      assert f(j) == Mul(g, rs.alphaTo[lambda[j]], rs.alphaTo[s[i - j]]);
      if s[i - j] != rs.nn && lambda[j] != rs.nn {
        var t := RsModnn(rs.mm, rs.nn, s[i - j] + lambda[j]);
        tmp := Xor(tmp, rs.alphaTo[t]);
      } else {
        XorZero(tmp);
      }
      j := j - 1;
    }
    SumDownWhole(f, i + 1);
    ConvIn(g, lam, syn, i);
    InTop(g, tmp);
  }

  /** omega in index form: the first deg coefficients of the product. */
  ghost predicate IsOmega(rs: Control, omega: seq<nat>, lam: seq<nat>, syn: seq<nat>, deg: nat) {
    && |rs.alphaTo| == rs.nn + 1
    && deg <= |omega|
    && forall k :: 0 <= k < deg ==>
         omega[k] <= rs.nn && rs.alphaTo[omega[k]] == Conv(CodeOf(rs).g, lam, syn, k)
  }

  method FormOmega(rs: Control, s: array<nat>, lambda: array<nat>, deg: nat, ghost syn: seq<nat>, ghost lam: seq<nat>)
    returns (omega: array<nat>)
    requires Valid(rs) && deg <= s.Length && lambda.Length == s.Length + 1
    requires Indices(rs, s[..]) && Vals(rs, s[..]) == syn && Indices(rs, lambda[..]) && Vals(rs, lambda[..]) == lam
    ensures fresh(omega) && IsOmega(rs, omega[..], lam, syn, deg)
  {
    hide Good, Tables, Valid, Primitive, Top, Vals, Conv;
    ghost var si, li := s[..], lambda[..];
    ValidParts(rs);
    omega := new nat[s.Length + 1];
    var i := 0;
    while i < deg
      invariant 0 <= i <= deg
      invariant s[..] == si && lambda[..] == li
      invariant forall k :: 0 <= k < i ==>
                  omega[k] <= rs.nn && rs.alphaTo[omega[k]] == Conv(CodeOf(rs).g, lam, syn, k)
    {
      var tmp := OmegaCoefficient(rs, s, lambda, i, syn, lam);
      TablesIn(CodeOf(rs).g, rs.alphaTo, rs.indexOf, tmp);
      omega[i] := rs.indexOf[tmp];
      i := i + 1;
    }
  }

  /** alphaTo[(e + i*root) mod nn] is the coefficient with logarithm e times (x^root)^i. */
  lemma TermTable(rs: Control, e: nat, i: nat, root: nat)
    requires Valid(rs) && e <= rs.nn
    ensures rs.nn >= 1 && |rs.alphaTo| == rs.nn + 1 && i * root >= 0
    ensures e != rs.nn ==>
              rs.alphaTo[(e + i * root) % rs.nn] == Mul(CodeOf(rs).g, rs.alphaTo[e], Pow(CodeOf(rs).g, Exp(CodeOf(rs).g, root), i))
    ensures e == rs.nn ==> Mul(CodeOf(rs).g, rs.alphaTo[e], Pow(CodeOf(rs).g, Exp(CodeOf(rs).g, root), i)) == 0
  {
    hide Good, Mul, Valid, Primitive, Top, Tables, Exp, Pow;
    var g := CodeOf(rs).g;
    ValidParts(rs);
    TopIsZero(rs);
    PowExp(g, root, i);
    assert root * i == i * root;
    if e != rs.nn {
      ShiftTable(rs, e, i * root);
    } else {
      MulZero(g, Pow(g, Exp(g, root), i));
    }
  }

  /** num1: omega at x^root. */
  method EvaluateOmega(rs: Control, omega: array<nat>, deg: nat, root: nat, ghost lam: seq<nat>, ghost syn: seq<nat>)
    returns (num1: nat)
    requires Valid(rs) && IsOmega(rs, omega[..], lam, syn, deg)
    ensures num1 == Omega(CodeOf(rs).g, lam, syn, Exp(CodeOf(rs).g, root), deg)
  {
    hide Xor, Mul, Good, Tables, Valid, Primitive, Top, SumDown, Exp, Conv, Pow;
    ghost var g := CodeOf(rs).g;
    ghost var f := OmegaTerm(g, lam, syn, Exp(g, root));
    ValidParts(rs);
    num1 := 0;
    SumDownEmpty(f, deg);
    var i := deg - 1;
    while i >= 0
      invariant -1 <= i < deg
      invariant num1 == SumDown(f, i + 1, deg)
    {
      SumDownNext(f, i, deg);
      TermTable(rs, omega[i], i, root);
      assert f(i) == Mul(g, rs.alphaTo[omega[i]], Pow(g, Exp(g, root), i));
      if omega[i] != rs.nn {
        var t := RsModnn(rs.mm, rs.nn, omega[i] + i * root);
        num1 := Xor(num1, rs.alphaTo[t]);
      } else {
        XorZero(num1);
      }
      i := i - 1;
    }
    SumDownWhole(f, deg);
  }

  /** The number of odd coefficients the derivative loop visits. */
  function OddCount(deg: nat, nroots: nat): (t: nat)
    requires nroots >= 1
    ensures deg <= nroots ==> deg <= 2 * t <= nroots + 1
    ensures t >= 1
  {
    (if deg < nroots - 1 then deg else nroots - 1) / 2 + 1
  }

  lemma OddTable(rs: Control, lambda: seq<nat>, lam: seq<nat>, i: nat, k: nat, root: nat)
    requires Valid(rs) && Indices(rs, lambda) && Vals(rs, lambda) == lam && i == 2 * k && i + 1 < |lambda|
    ensures rs.nn >= 1 && |rs.alphaTo| == rs.nn + 1 && i * root >= 0
    ensures OddTerm(CodeOf(rs).g, lam, Exp(CodeOf(rs).g, root))(k)
         == if lambda[i + 1] == rs.nn then 0 else rs.alphaTo[(lambda[i + 1] + i * root) % rs.nn]
  {
    hide Good, Mul, Valid, Primitive, Top, Tables, Exp, Pow;
    TermTable(rs, lambda[i + 1], i, root);
  }

  /** den: the formal derivative of lambda at x^root. */
  method EvaluateDerivative(rs: Control, lambda: array<nat>, deg: nat, root: nat, ghost lam: seq<nat>) returns (den: nat)
    requires Valid(rs) && rs.nroots >= 1 && lambda.Length == rs.nroots + 1
    requires Indices(rs, lambda[..]) && Vals(rs, lambda[..]) == lam
    ensures den == Derivative(CodeOf(rs).g, lam, Exp(CodeOf(rs).g, root), OddCount(deg, rs.nroots))
  {
    hide Xor, Good, Tables, Valid, Primitive, Top, SumDown, Exp, OddTerm, Vals;
    ghost var g := CodeOf(rs).g;
    ghost var f := OddTerm(g, lam, Exp(g, root));
    ValidParts(rs);
    den := 0;
    var m := if deg < rs.nroots - 1 then deg else rs.nroots - 1;
    var i: int := m / 2 * 2;
    ghost var t := OddCount(deg, rs.nroots);
    SumDownEmpty(f, t);
    ghost var k: int := t - 1;
    while i >= 0
      invariant i == 2 * k && -1 <= k < t && i + 1 < lambda.Length
      invariant den == SumDown(f, k + 1, t)
      decreases i + 2
    {
      SumDownNext(f, k, t);
      OddTable(rs, lambda[..], lam, i, k, root);
      if lambda[i + 1] != rs.nn {
        var u := RsModnn(rs.mm, rs.nn, lambda[i + 1] + i * root);
        den := Xor(den, rs.alphaTo[u]);
      } else {
        XorZero(den);
      }
      i, k := i - 2, k - 1;
    }
    SumDownWhole(f, t);
  }

  /** num1 * num2 / den through logarithms; nothing to correct when num1 is zero. */
  ghost function CorrectionValue(rs: Control, num1: nat, num2: nat, den: nat): nat
    requires rs.nn >= 1 && |rs.alphaTo| == |rs.indexOf| == rs.nn + 1
    requires num1 <= rs.nn && num2 <= rs.nn && den <= rs.nn && rs.indexOf[den] <= rs.nn
  {
    if num1 == 0 then 0
    else rs.alphaTo[(rs.indexOf[num1] + rs.indexOf[num2] + rs.nn - rs.indexOf[den]) % rs.nn]
  }

  lemma CorrectionProduct(rs: Control, num1: nat, num2: nat, den: nat)
    requires Valid(rs) && 0 < num1 <= rs.nn && 0 < num2 <= rs.nn && 0 < den <= rs.nn
    ensures rs.nn >= 1 && |rs.alphaTo| == |rs.indexOf| == rs.nn + 1
    ensures rs.indexOf[den] <= rs.nn
    ensures Mul(CodeOf(rs).g, CorrectionValue(rs, num1, num2, den), den) == Mul(CodeOf(rs).g, num1, num2)
    ensures In(CodeOf(rs).g, CorrectionValue(rs, num1, num2, den))
  {
    hide Good, Mul, Valid, Primitive, Top, Exp, In;
    var g := CodeOf(rs).g;
    ValidParts(rs);
    var a, b, d, n := rs.indexOf[num1], rs.indexOf[num2], rs.indexOf[den], rs.nn;
    var e := a + b + n - d;
    ExpMod(g, e);
    assert CorrectionValue(rs, num1, num2, den) == Exp(g, e);
    MulExp(g, e, d);
    MulExp(g, a, b);
    ExpMultiple(g, a + b, 1);
    assert e + d == a + b + 1 * n;
    ExpIn(g, e);
  }

  lemma ValueRanges(rs: Control, lam: seq<nat>, syn: seq<nat>, deg: nat, root: nat, t: nat)
    requires Valid(rs)
    ensures Omega(CodeOf(rs).g, lam, syn, Exp(CodeOf(rs).g, root), deg) <= rs.nn
    ensures Derivative(CodeOf(rs).g, lam, Exp(CodeOf(rs).g, root), t) <= rs.nn
  {
    hide Good, Mul, Valid, Primitive, Exp, Conv, Pow, Sum, Tables, In;
    var g := CodeOf(rs).g;
    var z := Exp(g, root);
    ValidParts(rs);
    forall k | 0 <= k < deg ensures In(g, OmegaTerm(g, lam, syn, z)(k)) {
      MulIn(g, Conv(g, lam, syn, k), Pow(g, z, k));
    }
    SumIn(g, OmegaTerm(g, lam, syn, z), deg);
    forall m | 0 <= m < t ensures In(g, OddTerm(g, lam, z)(m)) {
      MulIn(g, At(lam, 2 * m + 1), Pow(g, z, 2 * m));
    }
    SumIn(g, OddTerm(g, lam, z), t);
    InTop(g, Omega(g, lam, syn, z, deg));
    InTop(g, Derivative(g, lam, z, t));
  }

  /** num2 as the decoder computes it: (x^root)^(fcr - 1). */
  ghost function Num2(rs: Control, root: nat): nat
    requires rs.nn >= 1 && |rs.alphaTo| == rs.nn + 1 && root <= rs.nn
  {
    SafeExponent(rs, root);
    rs.alphaTo[(root * (rs.fcr - 1) + rs.nn) % rs.nn]
  }

  lemma SafeExponent(rs: Control, root: nat)
    requires rs.nn >= 1 && root <= rs.nn
    ensures root * (rs.fcr - 1) + rs.nn >= 0
    ensures 0 <= (root * (rs.fcr - 1) + rs.nn) % rs.nn < rs.nn
  {
    if rs.fcr == 0 {
      assert root * (rs.fcr - 1) == 0 - root;
    } else {
      assert root * (rs.fcr - 1) >= 0;
    }
  }

  lemma Num2Range(rs: Control, root: nat)
    requires Valid(rs) && root <= rs.nn
    ensures rs.nn >= 1 && |rs.alphaTo| == |rs.indexOf| == rs.nn + 1
    ensures 0 < Num2(rs, root) <= rs.nn
  {
    hide Good, Mul, Valid, Primitive, Top, Exp, Tables;
    ValidParts(rs);
    SafeExponent(rs, root);
    TablesIn(CodeOf(rs).g, rs.alphaTo, rs.indexOf, (root * (rs.fcr - 1) + rs.nn) % rs.nn);
    InTop(CodeOf(rs).g, Num2(rs, root));
  }

  /** The correction the decoder applies for one root. */
  ghost function RootCorrection(rs: Control, lam: seq<nat>, syn: seq<nat>, deg: nat, root: nat): nat
    requires Valid(rs) && rs.nroots >= 1 && root <= rs.nn
  {
    hide Good, Mul, Valid, Primitive, Top, Exp, Tables, Omega, Derivative, Num2;
    var z, t := Exp(CodeOf(rs).g, root), OddCount(deg, rs.nroots);
    ValidParts(rs);
    ValueRanges(rs, lam, syn, deg, root, t);
    Num2Range(rs, root);
    IndexRange(rs, Derivative(CodeOf(rs).g, lam, z, t));
    CorrectionValue(rs, Omega(CodeOf(rs).g, lam, syn, z, deg), Num2(rs, root), Derivative(CodeOf(rs).g, lam, z, t))
  }

  lemma IndexRange(rs: Control, a: nat)
    requires Valid(rs) && a <= rs.nn
    ensures |rs.indexOf| == rs.nn + 1 && rs.indexOf[a] <= rs.nn
  {
    hide Good, Exp;
  }

  /** The error value at one root, or zero. */
  method ErrorValue(rs: Control, omega: array<nat>, lambda: array<nat>, deg: nat, root: nat,
                    ghost syn: seq<nat>, ghost lam: seq<nat>) returns (num1: nat, cor: nat)
    requires Valid(rs) && rs.nroots >= 1 && lambda.Length == rs.nroots + 1 && root <= rs.nn
    requires Indices(rs, lambda[..]) && Vals(rs, lambda[..]) == lam && IsOmega(rs, omega[..], lam, syn, deg)
    ensures cor == RootCorrection(rs, lam, syn, deg, root)
    ensures num1 == 0 ==> cor == 0
  {
    hide Good, Mul, Valid, Primitive, Top, Exp, Tables, Omega, Derivative, Vals;
    ValidParts(rs);
    num1 := EvaluateOmega(rs, omega, deg, root, lam, syn);
    SafeExponent(rs, root);
    var t := RsModnn(rs.mm, rs.nn, root * (rs.fcr - 1) + rs.nn);
    var num2 := rs.alphaTo[t];
    var den := EvaluateDerivative(rs, lambda, deg, root, lam);
    ValueRanges(rs, lam, syn, deg, root, OddCount(deg, rs.nroots));
    Num2Range(rs, root);
    IndexRange(rs, den);
    cor := 0;
    if num1 != 0 {
      var u := RsModnn(rs.mm, rs.nn, rs.indexOf[num1] + rs.indexOf[num2] + rs.nn - rs.indexOf[den]);
      cor := rs.alphaTo[u];
    }
  }

  /** The correction of each listed root. */
  ghost function Corrections(rs: Control, lam: seq<nat>, syn: seq<nat>, deg: nat, root: seq<nat>): (r: seq<nat>)
    requires Valid(rs) && rs.nroots >= 1
    requires forall k :: 0 <= k < |root| ==> root[k] <= rs.nn
    ensures |r| == |root|
    ensures forall k :: 0 <= k < |root| ==> r[k] == RootCorrection(rs, lam, syn, deg, root[k])
  {
    hide Good, Valid, RootCorrection;
    seq(|root|, k requires 0 <= k < |root| => RootCorrection(rs, lam, syn, deg, root[k]))
  }

  /** was with correction k exclusive-ored in at position loc[k] - pad, last root first, down to root j. */
  ghost function Patch(was: seq<nat>, loc: seq<nat>, cor: seq<nat>, pad: nat, len: nat, j: nat): (r: seq<nat>)
    requires |loc| == |cor| && len <= |was|
    ensures |r| == |was|
    decreases |loc| - j
  {
    if j >= |loc| then was
    else
      var d := Patch(was, loc, cor, pad, len, j + 1);
      if 0 <= loc[j] - pad < len then d[loc[j] - pad := Xor(d[loc[j] - pad], cor[j])] else d
  }

  lemma {:induction false} PatchMiss(was: seq<nat>, loc: seq<nat>, cor: seq<nat>, pad: nat, len: nat, j: nat, p: nat)
    requires |loc| == |cor| && len <= |was| && p < |was|
    requires p >= len || forall k :: j <= k < |loc| ==> loc[k] != p + pad
    ensures Patch(was, loc, cor, pad, len, j)[p] == was[p]
    decreases |loc| - j
  {
    hide Xor;
    if j < |loc| {
      PatchMiss(was, loc, cor, pad, len, j + 1, p);
    }
  }

  lemma {:induction false} PatchHit(was: seq<nat>, loc: seq<nat>, cor: seq<nat>, pad: nat, len: nat, j: nat, k: nat)
    requires |loc| == |cor| && len <= |was| && j <= k < |loc| && 0 <= loc[k] - pad < len
    requires forall a, b :: 0 <= a < b < |loc| ==> loc[a] != loc[b]
    ensures Patch(was, loc, cor, pad, len, j)[loc[k] - pad] == Xor(was[loc[k] - pad], cor[k])
    decreases |loc| - j
  {
    hide Xor;
    if j == k {
      PatchMiss(was, loc, cor, pad, len, j + 1, loc[k] - pad);
    } else {
      PatchHit(was, loc, cor, pad, len, j + 1, k);
    }
  }

  /** Exclusive-ors each root's correction into the data symbol it points at. */
  method CorrectErrors(rs: Control, data: array<nat>, len: nat, s: array<nat>, lambda: array<nat>, deg: nat,
                       root: array<nat>, loc: array<nat>, count: nat, ghost syn: seq<nat>, ghost lam: seq<nat>)
    requires Valid(rs) && rs.nroots >= 1 && s.Length == rs.nroots && lambda.Length == rs.nroots + 1
    requires deg <= rs.nroots && count <= root.Length == loc.Length
    requires 1 <= len <= data.Length && len + rs.nroots <= rs.nn
    requires data != s && data != lambda && data != root && data != loc
    requires Indices(rs, s[..]) && Vals(rs, s[..]) == syn && Indices(rs, lambda[..]) && Vals(rs, lambda[..]) == lam
    requires forall k :: 0 <= k < count ==> root[k] <= rs.nn
    modifies data
    ensures data[..] == Patch(old(data[..]), loc[..count], Corrections(rs, lam, syn, deg, root[..count]),
                              rs.nn - rs.nroots - len, len, 0)
  {
    hide Good, Valid, Primitive, Top, Exp, Tables, Vals, RootCorrection, Xor, Indices, IsOmega;
    var pad := rs.nn - rs.nroots - len;
    ghost var was, li := data[..], lambda[..];
    var omega := FormOmega(rs, s, lambda, deg, syn, lam);
    ghost var om := omega[..];
    ghost var locs, roots := loc[..count], root[..count];
    ghost var cors := Corrections(rs, lam, syn, deg, roots);
    var j := count - 1;
    while j >= 0
      invariant -1 <= j < count
      invariant lambda[..] == li && omega[..] == om && loc[..count] == locs && root[..count] == roots
      invariant data[..] == Patch(was, locs, cors, pad, len, j + 1)
    {
      ghost var now := data[..];
      assert root[j] == roots[j] && loc[j] == locs[j];
      var num1, cor := ErrorValue(rs, omega, lambda, deg, root[j], syn, lam);
      if num1 != 0 && loc[j] >= pad {
        if loc[j] < rs.nn - rs.nroots {
          data[loc[j] - pad] := Xor(data[loc[j] - pad], cor);
          assert data[..] == now[loc[j] - pad := Xor(now[loc[j] - pad], cor)];
        }
      } else if loc[j] >= pad && loc[j] - pad < len {
        XorZero(now[loc[j] - pad]);
        assert now == now[loc[j] - pad := now[loc[j] - pad]];
      }
      j := j - 1;
    }
  }
}
