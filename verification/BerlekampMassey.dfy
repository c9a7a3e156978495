/** Second part of the decoder: the Berlekamp-Massey iteration on index-form arrays. */
module BerlekampMassey {
  import opened BitXor
  import opened GaloisField
  import opened FieldLaws
  import opened Sums
  import opened Polynomials
  import opened RsCode
  import opened Generator
  import opened Recurrences
  import opened RsControl
  import opened Encoder
  import opened Syndromes

  ghost predicate Indices(rs: Control, a: seq<nat>) {
    && |rs.alphaTo| == rs.nn + 1
    && forall i :: 0 <= i < |a| ==> a[i] <= rs.nn
  }

  /** One guarded table product of a value and an index. */
  lemma ProductTable(rs: Control, a: nat, e: nat)
    requires Valid(rs) && a <= rs.nn && e <= rs.nn
    ensures rs.nn >= 1 && a < |rs.indexOf| && e < |rs.alphaTo| && rs.indexOf[a] <= rs.nn
    ensures a != 0 && e != rs.nn ==>
              rs.alphaTo[(rs.indexOf[a] + e) % rs.nn] == Mul(CodeOf(rs).g, a, rs.alphaTo[e])
    ensures a == 0 || e == rs.nn ==> Mul(CodeOf(rs).g, a, rs.alphaTo[e]) == 0
  {
    hide Good, Mul, Valid, Primitive, Top, Exp;
    var g := CodeOf(rs).g;
    ValidParts(rs);
    TablesIn(g, rs.alphaTo, rs.indexOf, a);
    if a != 0 && e != rs.nn {
      TableMulIndex(g, rs.alphaTo, rs.indexOf, rs.indexOf[a], e);
    } else {
      MulZero(g, a);
      MulZero(g, rs.alphaTo[e]);
    }
  }

  /** The discrepancy of lambda at syndrome k, in value form. */
  method Discrepancy(rs: Control, lambda: array<nat>, s: array<nat>, k: nat, ghost syn: seq<nat>) returns (d: nat)
    requires Valid(rs) && k < s.Length && k < lambda.Length
    requires Indices(rs, s[..]) && Vals(rs, s[..]) == syn && Indices(rs, lambda[..])
    ensures d == Conv(CodeOf(rs).g, lambda[..], syn, k) <= rs.nn
  {
    hide Xor, Mul, Good, Tables, Valid, Primitive, Top;
    ghost var g := CodeOf(rs).g;
    ghost var f := ConvTerm(g, lambda[..], syn, k);
    ValidParts(rs);
    d := 0;
    var i := 0;
    while i < k + 1
      invariant 0 <= i <= k + 1
      invariant d == Sum(f, i)
    {
      ProductTable(rs, lambda[i], s[k - i]);
      assert f(i) == Mul(g, lambda[i], rs.alphaTo[s[k - i]]);
      if lambda[i] != 0 && s[k - i] != rs.nn {
        var t := RsModnn(rs.mm, rs.nn, rs.indexOf[lambda[i]] + s[k - i]);
        d := Xor(d, rs.alphaTo[t]);
      } else {
        XorZero(d);
      }
      i := i + 1;
    }
    ConvIn(g, lambda[..], syn, k);
    InTop(g, d);
  }

  /** B(x) <- x B(x): the array moves up one slot, the top one is lost. */
  method ShiftB(rs: Control, b: array<nat>)
    requires Valid(rs) && b.Length > 0 && Indices(rs, b[..])
    modifies b
    ensures Indices(rs, b[..]) && Vals(rs, b[..]) == ShiftUp(old(Vals(rs, b[..])))
  {
    hide Good, Tables, Valid, Primitive, Top;
    ValidParts(rs);
    assert rs.alphaTo[rs.nn] == 0 by { TopIsZero(rs); }
    ghost var was := b[..];
    forall i | 1 <= i < b.Length {
      b[i] := b[i - 1];
    }
    b[0] := rs.nn;
    ghost var v, u := Vals(rs, b[..]), ShiftUp(Vals(rs, was));
    forall i | 0 <= i < b.Length ensures v[i] == u[i] {
    }
  }

  lemma TopIsZero(rs: Control)
    requires Valid(rs)
    ensures |rs.alphaTo| == rs.nn + 1 && rs.alphaTo[rs.nn] == 0
  {
    hide Good;
  }

  /** T(x) <- lambda(x) - discr x B(x), discr in index form and nonzero. */
  method UpdateT(rs: Control, lambda: array<nat>, b: array<nat>, discr: nat) returns (t: array<nat>)
    requires Valid(rs) && lambda.Length == b.Length > 0 && discr < rs.nn
    requires Indices(rs, lambda[..]) && Indices(rs, b[..])
    ensures fresh(t) && t.Length == lambda.Length
    ensures t[..] == Update(CodeOf(rs).g, lambda[..], rs.alphaTo[discr], Vals(rs, b[..]))
  {
    hide Xor, Mul, Good, Tables, Valid, Primitive, Top;
    ghost var g := CodeOf(rs).g;
    ghost var d, bv := rs.alphaTo[discr], Vals(rs, b[..]);
    ValidParts(rs);
    var n := lambda.Length - 1;
    t := new nat[n + 1];
    t[0] := lambda[0];
    MulZero(g, d);
    XorZero(lambda[0]);
    var i := 0;
    while i < n
      invariant 0 <= i <= n
      invariant forall k :: 0 <= k <= i ==> t[k] == Xor(lambda[k], Mul(g, d, At(bv, k - 1)))
    {
      assert At(bv, i) == rs.alphaTo[b[i]];
      if b[i] != rs.nn {
        IndexProduct(rs, discr, b[i]);
        var m := RsModnn(rs.mm, rs.nn, discr + b[i]);
        t[i + 1] := Xor(lambda[i + 1], rs.alphaTo[m]);
      } else {
        TopIsZero(rs);
        XorZero(lambda[i + 1]);
        t[i + 1] := lambda[i + 1];
      }
      i := i + 1;
    }
    ghost var u := Update(g, lambda[..], d, bv);
    forall k | 0 <= k < t.Length ensures t[k] == u[k] {
    }
    assert t[..] == u;
  }

  lemma IndexProduct(rs: Control, i: nat, j: nat)
    requires Valid(rs) && i < rs.nn && j < rs.nn
    ensures |rs.alphaTo| == rs.nn + 1
    ensures rs.alphaTo[(i + j) % rs.nn] == Mul(CodeOf(rs).g, rs.alphaTo[i], rs.alphaTo[j])
  {
    hide Good, Mul, Valid, Primitive, Top, Exp, Tables;
    ValidParts(rs);
    TableMulIndex(CodeOf(rs).g, rs.alphaTo, rs.indexOf, i, j);
  }

  /** Subtracting a logarithm divides: a / x^d. */
  lemma DivideTable(rs: Control, a: nat, d: nat)
    requires Valid(rs) && 0 < a <= rs.nn && d < rs.nn
    ensures rs.nn >= 1 && a < |rs.indexOf| && |rs.alphaTo| == rs.nn + 1 && rs.indexOf[a] < rs.nn
    ensures rs.alphaTo[(rs.indexOf[a] - d + rs.nn) % rs.nn] == Mul(CodeOf(rs).g, Inv(CodeOf(rs).g, rs.alphaTo[d]), a)
  {
    hide Good, Mul, Valid, Primitive, Top, Exp, Inv;
    var g := CodeOf(rs).g;
    ValidParts(rs);
    InvIndex(rs, d);
    TableMul(g, rs.alphaTo, rs.indexOf, a, rs.nn - d);
    MulComm(g, a, Inv(g, rs.alphaTo[d]));
    assert rs.indexOf[a] - d + rs.nn == rs.indexOf[a] + (rs.nn - d);
  }

  lemma InvIndex(rs: Control, d: nat)
    requires Valid(rs) && d < rs.nn
    ensures |rs.alphaTo| == rs.nn + 1
    ensures Inv(CodeOf(rs).g, rs.alphaTo[d]) == Exp(CodeOf(rs).g, rs.nn - d)
  {
    hide Good, Valid, Primitive, Exp, Log, Top;
    var g := CodeOf(rs).g;
    ValidParts(rs);
    ExpLog(g, d);
    ModUnique(d, rs.nn, 0, d);
  }

  /** B(x) <- lambda(x) / discr. */
  method ScaleB(rs: Control, lambda: array<nat>, b: array<nat>, discr: nat)
    requires Valid(rs) && lambda.Length == b.Length && lambda != b && discr < rs.nn
    requires Indices(rs, lambda[..])
    modifies b
    ensures Indices(rs, b[..])
    ensures Vals(rs, b[..]) == ScaleSeq(CodeOf(rs).g, Inv(CodeOf(rs).g, rs.alphaTo[discr]), lambda[..])
  {
    hide Mul, Good, Tables, Valid, Primitive, Top, Inv;
    ghost var g := CodeOf(rs).g;
    ValidParts(rs);
    ghost var e := Inv(g, rs.alphaTo[discr]);
    TopIsZero(rs);
    MulZero(g, e);
    var i := 0;
    while i < lambda.Length
      invariant 0 <= i <= lambda.Length
      invariant forall k :: 0 <= k < i ==> b[k] <= rs.nn && rs.alphaTo[b[k]] == Mul(g, e, lambda[k])
    {
      if lambda[i] == 0 {
        b[i] := rs.nn;
      } else {
        DivideTable(rs, lambda[i], discr);
        b[i] := RsModnn(rs.mm, rs.nn, rs.indexOf[lambda[i]] - discr + rs.nn);
      }
      i := i + 1;
    }
    ghost var v, u := Vals(rs, b[..]), ScaleSeq(g, e, lambda[..]);
    forall k | 0 <= k < b.Length ensures v[k] == u[k] {
    }
  }

  /** lambda = 1 in value form, b = 1 in index form. */
  method StartArrays(rs: Control, n: nat) returns (lambda: array<nat>, b: array<nat>)
    requires Valid(rs)
    ensures fresh(lambda) && fresh(b) && lambda != b && lambda.Length == b.Length == n + 1
    ensures lambda[0] == 1 && DegreeAtMost(lambda[..], 0)
    ensures Indices(rs, b[..]) && Vals(rs, b[..]) == lambda[..]
  {
    hide Good, Tables, Valid, Primitive, Top;
    ValidParts(rs);
    lambda, b := new nat[n + 1], new nat[n + 1];
    lambda[0] := 1;
    forall i | 1 <= i <= n {
      lambda[i] := 0;
    }
    var i := 0;
    while i < n + 1
      invariant 0 <= i <= n + 1
      invariant lambda[0] == 1 && forall k :: 1 <= k <= n ==> lambda[k] == 0
      invariant forall k :: 0 <= k < i ==> b[k] <= rs.nn && rs.alphaTo[b[k]] == lambda[k]
    {
      TablesIn(CodeOf(rs).g, rs.alphaTo, rs.indexOf, lambda[i]);
      b[i] := rs.indexOf[lambda[i]];
      i := i + 1;
    }
    assert Vals(rs, b[..]) == lambda[..];
  }

  lemma BmIndices(rs: Control, syn: seq<nat>, n: nat, r: nat, l: nat, lam: seq<nat>, b: seq<nat>)
    requires Valid(rs) && BmInv(CodeOf(rs).g, syn, n, r, l, lam, b)
    ensures Indices(rs, lam)
  {
    hide Good, Tables, Valid, Primitive, Top, Conv, Shortest, Companion;
    ValidParts(rs);
    forall i | 0 <= i < |lam| ensures lam[i] <= rs.nn {
      InTop(CodeOf(rs).g, lam[i]);
    }
  }

  /** One iteration on the arrays: r syndromes are done, syndrome r comes next. */
  method Iterate(rs: Control, s: array<nat>, lambda: array<nat>, b: array<nat>, r: nat, el: nat, ghost syn: seq<nat>)
    returns (el': nat)
    requires Valid(rs) && r < s.Length && lambda.Length == b.Length == s.Length + 1
    requires lambda != b && lambda != s && b != s
    requires Indices(rs, s[..]) && Vals(rs, s[..]) == syn && Indices(rs, b[..])
    requires BmInv(CodeOf(rs).g, syn, s.Length, r, el, lambda[..], Vals(rs, b[..]))
    modifies lambda, b
    ensures Indices(rs, b[..])
    ensures BmInv(CodeOf(rs).g, syn, s.Length, r + 1, el', lambda[..], Vals(rs, b[..]))
  {
    hide Mul, Good, Tables, Valid, Primitive, Top, Conv, Inv, Update, ShiftUp, ScaleSeq, Recurrence, Shortest, Companion, Vals;
    ghost var g, n := CodeOf(rs).g, s.Length;
    ghost var lam, bv := lambda[..], Vals(rs, b[..]);
    ValidParts(rs);
    BmIndices(rs, syn, n, r, el, lam, bv);
    var d := Discrepancy(rs, lambda, s, r, syn);
    TablesIn(g, rs.alphaTo, rs.indexOf, d);
    var discr := rs.indexOf[d];
    el' := el;
    if discr == rs.nn {
      BmKeep(g, syn, n, r, el, lam, bv);
      ShiftB(rs, b);
      assert lambda[..] == lam;
    } else {
      var t := UpdateT(rs, lambda, b, discr);
      ghost var next := t[..];
      if 2 * el <= r {
        BmJump(g, syn, n, r, el, lam, bv, d);
        el' := r + 1 - el;
        ScaleB(rs, lambda, b, discr);
      } else {
        BmUpdate(g, syn, n, r, el, lam, bv, d);
        ShiftB(rs, b);
      }
      ghost var newB := b[..];
      forall i | 0 <= i < lambda.Length {
        lambda[i] := t[i];
      }
      assert lambda[..] == next && b[..] == newB;
    }
  }

  /** The shortest recurrence of the syndromes, for any syndromes whatever. */
  method FindLocator(rs: Control, s: array<nat>, ghost syn: seq<nat>) returns (lambda: array<nat>, el: nat)
    requires Valid(rs) && Indices(rs, s[..]) && Vals(rs, s[..]) == syn
    ensures fresh(lambda) && lambda.Length == s.Length + 1 && Indices(rs, lambda[..])
    ensures el <= s.Length && lambda[0] == 1
    ensures Recurrence(CodeOf(rs).g, lambda[..], el, syn, s.Length)
    ensures Shortest(CodeOf(rs).g, el, syn, s.Length)
  {
    hide Good, Tables, Valid, Primitive, Top, Conv, Companion, Vals;
    ghost var g := CodeOf(rs).g;
    ValidParts(rs);
    var b;
    lambda, b := StartArrays(rs, s.Length);
    el := 0;
    BmStart(g, syn, s.Length, lambda[..]);
    var r := 0;
    while r < s.Length
      invariant 0 <= r <= s.Length
      invariant fresh(lambda) && fresh(b) && lambda != b && lambda.Length == b.Length == s.Length + 1
      invariant Indices(rs, s[..]) && Vals(rs, s[..]) == syn
      invariant Indices(rs, b[..])
      invariant BmInv(g, syn, s.Length, r, el, lambda[..], Vals(rs, b[..]))
    {
      el := Iterate(rs, s, lambda, b, r, el, syn);
      r := r + 1;
    }
    BmIndices(rs, syn, s.Length, r, el, lambda[..], Vals(rs, b[..]));
  }
}
