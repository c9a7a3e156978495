/** Finite field sums of indexed terms, and the rearrangements used by every
    argument about polynomials, recurrences and syndromes. */
module Sums {
  import opened BitXor
  import opened GaloisField
  import opened FieldLaws

  type Terms = int -> nat

  /** f(0) + ... + f(n-1) */
  ghost function Sum(f: Terms, n: nat): nat {
    if n == 0 then 0 else Xor(Sum(f, n - 1), f(n - 1))
  }

  lemma {:induction false} SumEqual(f: Terms, h: Terms, n: nat)
    requires forall i :: 0 <= i < n ==> f(i) == h(i)
    ensures Sum(f, n) == Sum(h, n)
  {
    hide Xor;
    if n > 0 {
      SumEqual(f, h, n - 1);
    }
  }

  lemma {:induction false} SumZero(f: Terms, n: nat)
    requires forall i :: 0 <= i < n ==> f(i) == 0
    ensures Sum(f, n) == 0
  {
    hide Xor;
    if n > 0 {
      SumZero(f, n - 1);
      XorZero(0);
    }
  }

  lemma {:induction false} SumXor(f: Terms, h: Terms, r: Terms, n: nat)
    requires forall i :: 0 <= i < n ==> r(i) == Xor(f(i), h(i))
    ensures Sum(r, n) == Xor(Sum(f, n), Sum(h, n))
  {
    hide Xor;
    if n == 0 {
      XorZero(0);
    } else {
      SumXor(f, h, r, n - 1);
      XorSwap(Sum(f, n - 1), Sum(h, n - 1), f(n - 1), h(n - 1));
    }
  }

  lemma {:induction false} SumScale(g: GF, c: nat, f: Terms, r: Terms, n: nat)
    requires Primitive(g)
    requires forall i :: 0 <= i < n ==> r(i) == Mul(g, c, f(i))
    ensures Sum(r, n) == Mul(g, c, Sum(f, n))
  {
    hide Xor, Mul, Primitive;
    if n == 0 {
      MulZero(g, c);
    } else {
      SumScale(g, c, f, r, n - 1);
      MulXorRight(g, c, Sum(f, n - 1), f(n - 1));
    }
  }

  /** Terms past m contribute nothing. */
  lemma {:induction false} SumTail(f: Terms, m: nat, n: nat)
    requires m <= n
    requires forall i :: m <= i < n ==> f(i) == 0
    ensures Sum(f, n) == Sum(f, m)
  {
    hide Xor;
    if m < n {
      SumTail(f, m, n - 1);
      XorZero(Sum(f, m));
    }
  }

  /** A single nonzero term. */
  lemma SumSingle(f: Terms, k: nat, n: nat)
    requires k < n
    requires forall i :: 0 <= i < n && i != k ==> f(i) == 0
    ensures Sum(f, n) == f(k)
  {
    hide Xor;
    SumTail(f, k + 1, n);
    SumZero(f, k);
    XorZero(f(k));
  }

  /** The first term taken out; h is f moved down by one index. */
  lemma {:induction false} SumFirst(f: Terms, h: Terms, n: nat)
    requires forall i :: 0 <= i < n ==> h(i) == f(i + 1)
    ensures Sum(f, n + 1) == Xor(f(0), Sum(h, n))
  {
    hide Xor;
    if n == 0 {
      XorZero(f(0));
    } else {
      SumFirst(f, h, n - 1);
      XorAssoc(f(0), Sum(h, n - 1), h(n - 1));
    }
  }

  /** Row totals of a table of terms. */
  ghost function Rows(t: (int, int) -> nat, m: nat): Terms {
    i => Sum(j => t(i, j), m)
  }

  ghost function Columns(t: (int, int) -> nat, n: nat): Terms {
    j => Sum(i => t(i, j), n)
  }

  /** Adding a table by rows or by columns gives the same total. */
  lemma {:induction false} SumSwap(t: (int, int) -> nat, n: nat, m: nat)
    ensures Sum(Rows(t, m), n) == Sum(Columns(t, n), m)
  {
    hide Xor;
    if n == 0 {
      SumZero(Columns(t, n), m);
    } else {
      SumSwap(t, n - 1, m);
      SumXor(Columns(t, n - 1), j => t(n - 1, j), Columns(t, n), m);
    }
  }

  lemma SumIn(g: GF, f: Terms, n: nat)
    requires forall i :: 0 <= i < n ==> In(g, f(i))
    ensures In(g, Sum(f, n))
  {
    hide Xor, Pow2;
    if n > 0 {
      SumIn(g, f, n - 1);
      InXor(g, Sum(f, n - 1), f(n - 1));
    }
  }
}
