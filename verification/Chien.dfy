/** Third part of the decoder: the degree and the roots of the locator polynomial. */
module Chien {
  import opened BitXor
  import opened GaloisField
  import opened FieldLaws
  import opened ModularArithmetic
  import opened Sums
  import opened Polynomials
  import opened RsCode
  import opened Recurrences
  import opened RsControl
  import opened Encoder
  import opened Syndromes
  import opened BerlekampMassey
  import opened Forney

  /** The terms lo..hi-1 added from the top down. */
  ghost function SumDown(f: Terms, lo: nat, hi: nat): nat
    decreases hi - lo
  {
    if lo >= hi then 0 else Xor(SumDown(f, lo + 1, hi), f(lo))
  }

  lemma {:induction false} SumDownIs(f: Terms, lo: nat, hi: nat)
    requires lo <= hi
    ensures Xor(Sum(f, lo), SumDown(f, lo, hi)) == Sum(f, hi)
    decreases hi - lo
  {
    hide Xor;
    if lo == hi {
      XorZero(Sum(f, hi));
    } else {
      SumDownIs(f, lo + 1, hi);
      var s, d, x := Sum(f, lo), SumDown(f, lo + 1, hi), f(lo);
      XorComm(d, x);
      XorAssoc(s, x, d);
    }
  }

  lemma SumDownWhole(f: Terms, n: nat)
    ensures SumDown(f, 0, n) == Sum(f, n)
  {
    hide Xor, SumDown;
    SumDownIs(f, 0, n);
    XorZero(SumDown(f, 0, n));
  }

  /** Adding e to a logarithm multiplies by x^e. */
  lemma ShiftTable(rs: Control, i: nat, e: nat)
    requires Valid(rs) && i < rs.nn
    ensures |rs.alphaTo| == rs.nn + 1 && rs.nn >= 1
    ensures rs.alphaTo[(i + e) % rs.nn] == Mul(CodeOf(rs).g, rs.alphaTo[i], Exp(CodeOf(rs).g, e))
  {
    hide Good, Mul, Valid, Primitive, Top, Exp;
    var g := CodeOf(rs).g;
    ValidParts(rs);
    MulExp(g, i, e);
    ExpMod(g, i + e);
  }

  /** Puts lambda in index form and finds its degree. */
  method LocatorToIndex(rs: Control, lambda: array<nat>) returns (deg: nat)
    requires Valid(rs) && lambda.Length > 0 && Indices(rs, lambda[..])
    modifies lambda
    ensures Indices(rs, lambda[..]) && Vals(rs, lambda[..]) == old(lambda[..])
    ensures deg < lambda.Length && DegreeAtMost(old(lambda[..]), deg)
    ensures deg > 0 ==> old(lambda[..])[deg] != 0
  {
    hide Good, Tables, Valid, Primitive, Top;
    ValidParts(rs);
    ghost var was := lambda[..];
    deg := 0;
    var i := 0;
    while i < lambda.Length
      invariant 0 <= i <= lambda.Length && (i == 0 ==> deg == 0) && (i > 0 ==> deg < i)
      invariant forall k :: i <= k < lambda.Length ==> lambda[k] == was[k]
      invariant forall k :: 0 <= k < i ==> lambda[k] <= rs.nn && rs.alphaTo[lambda[k]] == was[k]
      invariant forall k :: deg < k < i ==> was[k] == 0
      invariant deg > 0 ==> was[deg] != 0
    {
      TablesIn(CodeOf(rs).g, rs.alphaTo, rs.indexOf, lambda[i]);
      lambda[i] := rs.indexOf[lambda[i]];
      if lambda[i] != rs.nn {
        deg := i;
      }
      i := i + 1;
    }
    assert Vals(rs, lambda[..]) == was;
  }

  /** r is the logarithm of a x^(ij), or nn when a is zero. */
  ghost predicate Entry(rs: Control, r: nat, a: nat, i: nat, j: nat) {
    && |rs.alphaTo| == rs.nn + 1
    && r <= rs.nn
    && (r == rs.nn <==> a == 0)
    && rs.alphaTo[r] == Mul(CodeOf(rs).g, a, Exp(CodeOf(rs).g, i * j))
  }

  /** reg[j] holds the logarithm of lam[j] x^(ij). */
  ghost predicate Register(rs: Control, reg: seq<nat>, lam: seq<nat>, deg: nat, i: nat) {
    && deg < |reg| && deg < |lam|
    && forall j :: 1 <= j <= deg ==> Entry(rs, reg[j], lam[j], i, j)
  }

  /** Adding j to the logarithm moves an entry from x^i to x^(i+1); zero entries stay. */
  lemma EntryStep(rs: Control, r: nat, lam: seq<nat>, i: nat, j: nat)
    requires Valid(rs) && j < |lam| && Entry(rs, r, lam[j], i, j)
    ensures rs.nn >= 1 && |rs.alphaTo| == rs.nn + 1
    ensures var r' := if r == rs.nn then r else (r + j) % rs.nn;
      && Entry(rs, r', lam[j], i + 1, j)
      && EvalTerm(CodeOf(rs).g, lam, Exp(CodeOf(rs).g, i + 1))(j) == rs.alphaTo[r']
      && (r == rs.nn ==> rs.alphaTo[r'] == 0)
  {
    hide Good, Mul, Valid, Primitive, Top, Exp, Tables;
    var g, a := CodeOf(rs).g, lam[j];
    ValidParts(rs);
    PowExp(g, i + 1, j);
    if r == rs.nn {
      MulZero(g, Exp(g, (i + 1) * j));
      TopIsZero(rs);
    } else {
      ShiftTable(rs, r, j);
      MulAssoc(g, a, Exp(g, i * j), Exp(g, j));
      MulExp(g, i * j, j);
      assert i * j + j == (i + 1) * j;
    }
  }

  /** One turn of the search: every register moves on, and q is lam at x^(i+1). */
  method SearchStep(rs: Control, reg: array<nat>, deg: nat, ghost lam: seq<nat>, ghost i: nat) returns (q: nat)
    requires Valid(rs) && deg < |lam| && lam[0] == 1 && DegreeAtMost(lam, deg)
    requires Register(rs, reg[..], lam, deg, i)
    modifies reg
    ensures Register(rs, reg[..], lam, deg, i + 1)
    ensures q == Eval(CodeOf(rs).g, lam, Exp(CodeOf(rs).g, i + 1))
  {
    hide Xor, Good, Tables, Valid, Primitive, Top, Exp, SumDown, Eval, EvalTerm, Entry;
    ghost var g := CodeOf(rs).g;
    ghost var z := Exp(g, i + 1);
    ghost var f := EvalTerm(g, lam, z);
    ValidParts(rs);
    q := 1;
    SumDownEmpty(f, deg + 1);
    XorZero(1);
    var j := deg;
    while j > 0
      invariant 0 <= j <= deg < reg.Length
      invariant q == Xor(1, SumDown(f, j + 1, deg + 1))
      invariant forall k :: 1 <= k <= j ==> Entry(rs, reg[k], lam[k], i, k)
      invariant forall k :: j < k <= deg ==> Entry(rs, reg[k], lam[k], i + 1, k)
    {
      EntryStep(rs, reg[j], lam, i, j);
      SumDownNext(f, j, deg + 1);
      ghost var rest := SumDown(f, j + 1, deg + 1);
      XorAssoc(1, rest, f(j));
      if reg[j] != rs.nn {
        EntryIndex(rs, reg[j], lam[j], i, j);
        reg[j] := RsModnn(rs.mm, rs.nn, reg[j] + j);
        q := Xor(q, rs.alphaTo[reg[j]]);
      } else {
        XorZero(q);
      }
      j := j - 1;
    }
    EvalFromTop(g, lam, deg, z);
  }

  lemma EntryIndex(rs: Control, r: nat, a: nat, i: nat, j: nat)
    requires Entry(rs, r, a, i, j)
    ensures r < |rs.alphaTo| == rs.nn + 1
  {
  }

  lemma SumDownEmpty(f: Terms, n: nat)
    ensures SumDown(f, n, n) == 0
  {
  }

  lemma SumDownNext(f: Terms, lo: nat, hi: nat)
    requires lo < hi
    ensures SumDown(f, lo, hi) == Xor(SumDown(f, lo + 1, hi), f(lo))
  {
  }

  lemma EvalFromTop(g: GF, lam: seq<nat>, deg: nat, z: nat)
    requires Primitive(g) && deg < |lam| && lam[0] == 1 && DegreeAtMost(lam, deg)
    ensures Eval(g, lam, z) == Xor(1, SumDown(EvalTerm(g, lam, z), 1, deg + 1))
  {
    hide Xor, Mul, Primitive, SumDown, Eval;
    var f := EvalTerm(g, lam, z);
    EvalTruncate(g, lam, deg, z);
    SumDownIs(f, 1, deg + 1);
    PrimitiveWidth(g);
    InOne(g);
    MulOne(g, 1);
    assert Pow(g, z, 0) == 1 && f(0) == 1;
    assert Sum(f, 1) == Xor(Sum(f, 0), f(0));
    XorZero(1);
  }

  /** The codeword index, counted from the front of a full-length word, that root x^i stands for. */
  ghost function Position(rs: Control, i: nat): int {
    if rs.nn >= 1 then (i * rs.iprim - 1) % rs.nn else 0
  }

  /** The roots of lam found so far: increasing, with their positions. */
  ghost predicate Found(rs: Control, lam: seq<nat>, root: seq<nat>, loc: seq<nat>, i: nat) {
    && |root| == |loc|
    && (forall k :: 0 <= k < |root| ==>
          && 1 <= root[k] <= i
          && Eval(CodeOf(rs).g, lam, Exp(CodeOf(rs).g, root[k])) == 0
          && loc[k] == Position(rs, root[k]))
    && (forall j, k :: 0 <= j < k < |root| ==> root[j] < root[k])
  }

  ghost predicate AllFound(rs: Control, lam: seq<nat>, root: seq<nat>, i: nat) {
    forall m :: 1 <= m <= i && Eval(CodeOf(rs).g, lam, Exp(CodeOf(rs).g, m)) == 0 ==> m in root
  }

  lemma NextPosition(rs: Control, i: nat, k: nat)
    requires rs.nn >= 1 && i >= 1 && rs.iprim >= 1 && k == Position(rs, i)
    ensures (k + rs.iprim) % rs.nn == Position(rs, i + 1)
  {
    var a, n := i * rs.iprim - 1, rs.nn;
    var q := a / n;
    assert a == q * n + k;
    MulSub(rs.iprim, i, i + 1);
    assert (i + 1) * rs.iprim - 1 == (k + rs.iprim) + q * n;
    ModMultiple(k + rs.iprim, q, n);
  }

  ghost function Points(g: GF, root: seq<nat>): set<nat> {
    set k | 0 <= k < |root| :: Exp(g, root[k])
  }

  lemma {:induction false} PointsCount(g: GF, root: seq<nat>)
    requires Primitive(g)
    requires forall k :: 0 <= k < |root| ==> 1 <= root[k] <= Top(g)
    requires forall j, k :: 0 <= j < k < |root| ==> root[j] < root[k]
    ensures |Points(g, root)| == |root|
  {
    hide Exp, Primitive, Top;
    if |root| > 0 {
      var n := |root| - 1;
      PointsCount(g, root[..n]);
      var p := Points(g, root[..n]);
      forall k | 0 <= k < n ensures Exp(g, root[k]) != Exp(g, root[n]) {
        ExpDistinct(g, root[k], root[n]);
      }
      assert Points(g, root) == p + {Exp(g, root[n])};
    } else {
      assert Points(g, root) == {};
    }
  }

  lemma ExpDistinct(g: GF, i: nat, j: nat)
    requires Primitive(g) && 1 <= i < j <= Top(g)
    ensures Exp(g, i) != Exp(g, j)
  {
    hide Exp, Primitive, Top;
    if Exp(g, i) == Exp(g, j) {
      ExpEqual(g, i, j);
      ModUnique(j - i, Top(g), 0, j - i);
    }
  }

  /** lam has at most deg roots, so a full list is the complete list. */
  lemma FullIsAll(rs: Control, lam: seq<nat>, deg: nat, root: seq<nat>, loc: seq<nat>)
    requires Valid(rs) && AllIn(CodeOf(rs).g, lam) && deg < |lam| && lam[0] == 1 && DegreeAtMost(lam, deg)
    requires Found(rs, lam, root, loc, rs.nn) && |root| == deg
    ensures AllFound(rs, lam, root, rs.nn)
  {
    hide Good, Tables, Valid, Primitive, Top, Exp, Eval, In, Position;
    var g := CodeOf(rs).g;
    ValidParts(rs);
    PointsCount(g, root);
    forall m | 1 <= m <= rs.nn && Eval(g, lam, Exp(g, m)) == 0 ensures m in root {
      if m !in root {
        forall k | 0 <= k < |root| ensures Exp(g, root[k]) != Exp(g, m) {
          if root[k] < m {
            ExpDistinct(g, root[k], m);
          } else {
            ExpDistinct(g, m, root[k]);
          }
        }
        RootLimit(g, lam, deg, Points(g, root) + {Exp(g, m)}) by {
          forall z | z in Points(g, root) + {Exp(g, m)} ensures In(g, z) {
            ExpAllIn(g);
          }
        }
      }
    }
  }

  lemma ExpAllIn(g: GF)
    requires Primitive(g)
    ensures forall n: nat :: In(g, Exp(g, n))
  {
    hide Exp, Primitive, In;
    forall n: nat ensures In(g, Exp(g, n)) {
      ExpIn(g, n);
    }
  }

  lemma RootLimit(g: GF, lam: seq<nat>, deg: nat, zs: set<nat>)
    requires Primitive(g) && AllIn(g, lam) && deg < |lam| && lam[0] == 1 && DegreeAtMost(lam, deg)
    requires forall z :: z in zs ==> In(g, z) && Eval(g, lam, z) == 0
    ensures |zs| <= deg
  {
    hide Primitive, In, EvalTerm, Sum;
    if |zs| > deg {
      var p := lam[..deg + 1];
      forall z | z in zs ensures Eval(g, p, z) == 0 {
        EvalTruncate(g, lam, deg, z);
        EvalPrefix(g, lam, p, z);
      }
      assert p[0] == 1;
      RootCount(g, p, zs);
      assert false;
    }
  }

  lemma EvalPrefix(g: GF, lam: seq<nat>, p: seq<nat>, z: nat)
    requires p <= lam
    ensures Eval(g, p, z) == Sum(EvalTerm(g, lam, z), |p|)
  {
    hide Mul, Sum, Pow;
    SumEqual(EvalTerm(g, p, z), EvalTerm(g, lam, z), |p|);
  }

  /** Stores a root and its position in the next slot. */
  method RecordRoot(root: array<nat>, loc: array<nat>, count: nat, i: nat, k: nat)
    requires count < root.Length == loc.Length && root != loc
    modifies root, loc
    ensures root[..count + 1] == old(root[..count]) + [i]
    ensures loc[..count + 1] == old(loc[..count]) + [k]
  {
    root[count] := i;
    loc[count] := k;
  }

  /** Tries x^1, ..., x^nn; stops early when deg roots are found. */
  method ChienSearch(rs: Control, lambda: array<nat>, deg: nat, ghost lam: seq<nat>)
    returns (root: array<nat>, loc: array<nat>, count: nat)
    requires Valid(rs) && lambda.Length == rs.nroots + 1 && deg <= rs.nroots
    requires Indices(rs, lambda[..]) && Vals(rs, lambda[..]) == lam
    requires AllIn(CodeOf(rs).g, lam) && lam[0] == 1 && DegreeAtMost(lam, deg)
    ensures fresh(root) && fresh(loc) && root.Length == loc.Length == rs.nroots && count <= deg
    ensures Found(rs, lam, root[..count], loc[..count], rs.nn)
    ensures AllFound(rs, lam, root[..count], rs.nn)
  {
    hide Good, Tables, Valid, Primitive, Top, Exp, Eval, In, Register, Found, AllFound, Vals, AllIn, DegreeAtMost, Indices, Position;
    ValidParts(rs);
    IprimRange(rs);
    ghost var index := lambda[..];
    root, loc := new nat[rs.nroots], new nat[rs.nroots];
    var reg := new nat[rs.nroots + 1];
    forall j | 1 <= j <= rs.nroots {
      reg[j] := lambda[j];
    }
    RegisterStart(rs, reg[..], index, lam, deg);
    count := 0;
    var i, k := 1, rs.iprim - 1;
    FirstPosition(rs);
    NothingFound(rs, lam, root[..0], loc[..0]);
    while i <= rs.nn
      invariant 1 <= i <= rs.nn + 1
      invariant 0 <= k && k == Position(rs, i)
      invariant Register(rs, reg[..], lam, deg, i - 1)
      invariant count <= deg && (deg > 0 ==> count < deg)
      invariant Found(rs, lam, root[..count], loc[..count], i - 1)
      invariant AllFound(rs, lam, root[..count], i - 1)
    {
      var q := SearchStep(rs, reg, deg, lam, i - 1);
      if q == 0 {
        if deg == 0 {
          ConstantHasNoRoot(rs, lam, i);
          assert false;
        }
        FoundNext(rs, lam, root[..count], loc[..count], i, k);
        RecordRoot(root, loc, count, i, k);
        count := count + 1;
        if count == deg {
          FoundSooner(rs, lam, root[..count], loc[..count], i, rs.nn);
          FullIsAll(rs, lam, deg, root[..count], loc[..count]);
          return;
        }
      } else {
        FoundSooner(rs, lam, root[..count], loc[..count], i - 1, i);
        NotFoundHere(rs, lam, root[..count], i);
      }
      NextPosition(rs, i, k);
      k := RsModnn(rs.mm, rs.nn, k + rs.iprim);
      i := i + 1;
    }
  }

  lemma NothingFound(rs: Control, lam: seq<nat>, root: seq<nat>, loc: seq<nat>)
    requires |root| == |loc| == 0
    ensures Found(rs, lam, root, loc, 0) && AllFound(rs, lam, root, 0)
  {
  }

  lemma FoundSooner(rs: Control, lam: seq<nat>, root: seq<nat>, loc: seq<nat>, i: nat, j: nat)
    requires Found(rs, lam, root, loc, i) && i <= j
    ensures Found(rs, lam, root, loc, j)
  {
    hide Eval, Exp, Position;
  }

  lemma NotFoundHere(rs: Control, lam: seq<nat>, root: seq<nat>, i: nat)
    requires i >= 1 && AllFound(rs, lam, root, i - 1) && Eval(CodeOf(rs).g, lam, Exp(CodeOf(rs).g, i)) != 0
    ensures AllFound(rs, lam, root, i)
  {
    hide Eval, Exp;
  }

  lemma FoundNext(rs: Control, lam: seq<nat>, root: seq<nat>, loc: seq<nat>, i: nat, k: nat)
    requires i >= 1 && Found(rs, lam, root, loc, i - 1) && AllFound(rs, lam, root, i - 1)
    requires Eval(CodeOf(rs).g, lam, Exp(CodeOf(rs).g, i)) == 0 && k == Position(rs, i)
    ensures Found(rs, lam, root + [i], loc + [k], i) && AllFound(rs, lam, root + [i], i)
  {
    hide Eval, Exp, Position;
    forall m | 1 <= m <= i && Eval(CodeOf(rs).g, lam, Exp(CodeOf(rs).g, m)) == 0 ensures m in root + [i] {
      assert m < i ==> m in root;
      assert (root + [i])[|root|] == i;
    }
  }

  lemma FirstPosition(rs: Control)
    requires 1 <= rs.iprim <= rs.nn
    ensures Position(rs, 1) == rs.iprim - 1
  {
    ModUnique(rs.iprim - 1, rs.nn, 0, rs.iprim - 1);
  }

  lemma IprimRange(rs: Control)
    requires Valid(rs)
    ensures 1 <= rs.iprim <= rs.nn
  {
    hide Good, Tables;
  }

  lemma RegisterStart(rs: Control, reg: seq<nat>, lambda: seq<nat>, lam: seq<nat>, deg: nat)
    requires Valid(rs) && Indices(rs, lambda) && Vals(rs, lambda) == lam && AllIn(CodeOf(rs).g, lam)
    requires deg < |reg| == |lambda|
    requires forall j :: 1 <= j <= deg ==> reg[j] == lambda[j]
    ensures Register(rs, reg, lam, deg, 0)
  {
    hide Mul, Good, Tables, Valid, Primitive, Top, Exp, In;
    var g := CodeOf(rs).g;
    ValidParts(rs);
    ExpZero(g);
    forall j | 1 <= j <= deg
      ensures reg[j] == rs.nn <==> lam[j] == 0
      ensures rs.alphaTo[reg[j]] == Mul(g, lam[j], Exp(g, 0 * j))
    {
      TablesIn(g, rs.alphaTo, rs.indexOf, reg[j]);
      MulOne(g, lam[j]);
    }
  }

  lemma ConstantHasNoRoot(rs: Control, lam: seq<nat>, i: nat)
    requires Valid(rs) && |lam| > 0 && AllIn(CodeOf(rs).g, lam) && lam[0] == 1 && DegreeAtMost(lam, 0)
    ensures Eval(CodeOf(rs).g, lam, Exp(CodeOf(rs).g, i)) != 0
  {
    hide Good, Tables, Valid, Primitive, Top, Exp, Eval, In;
    var g := CodeOf(rs).g;
    ValidParts(rs);
    ExpIn(g, i);
    if Eval(g, lam, Exp(g, i)) == 0 {
      RootLimit(g, lam, 0, {Exp(g, i)});
    }
  }
}
