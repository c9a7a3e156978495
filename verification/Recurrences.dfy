/** Linear recurrences on a syndrome sequence and the Berlekamp-Massey step. */
module Recurrences {
  import opened BitXor
  import opened GaloisField
  import opened FieldLaws
  import opened Sums
  import opened Polynomials
  import opened Generator

  ghost function ConvTerm(g: GF, p: seq<nat>, s: seq<nat>, k: nat): Terms {
    i => Mul(g, At(p, i), At(s, k - i))
  }

  /** p_0 s_k + p_1 s_(k-1) + ... + p_k s_0 */
  ghost function Conv(g: GF, p: seq<nat>, s: seq<nat>, k: nat): nat {
    Sum(ConvTerm(g, p, s, k), k + 1)
  }

  /** The coefficients of p past index l are zero. */
  ghost predicate DegreeAtMost(p: seq<nat>, l: nat) {
    forall i :: l < i < |p| ==> p[i] == 0
  }

  /** p, with constant term 1 and degree at most l, annihilates s at indices l..n-1. */
  ghost predicate Recurrence(g: GF, p: seq<nat>, l: nat, s: seq<nat>, n: nat) {
    && At(p, 0) == 1
    && AllIn(g, p)
    && DegreeAtMost(p, l)
    && forall k :: l <= k < n ==> Conv(g, p, s, k) == 0
  }

  /** No recurrence for the first n syndromes is shorter than l. */
  ghost predicate Shortest(g: GF, l: nat, s: seq<nat>, n: nat) {
    forall p: seq<nat>, m: nat :: Recurrence(g, p, m, s, n) ==> l <= m
  }

  // ---------- two recurrences predict the same next syndrome ----------

  ghost function Table(g: GF, a: seq<nat>, b: seq<nat>, s: seq<nat>, n: nat): (int, int) -> nat {
    (i, j) => Mul(g, At(a, i), Mul(g, At(b, j), At(s, n - i - j)))
  }

  lemma TableRow(g: GF, a: seq<nat>, b: seq<nat>, s: seq<nat>, n: nat, lb: nat, i: nat)
    requires Primitive(g) && DegreeAtMost(b, lb) && i + lb <= n
    ensures Rows(Table(g, a, b, s, n), lb + 1)(i) == Mul(g, At(a, i), Conv(g, b, s, n - i))
  {
    hide Mul, Primitive, Sum;
    var t := Table(g, a, b, s, n);
    var f := ConvTerm(g, b, s, n - i);
    var r: Terms := j => t(i, j);
    SumScale(g, At(a, i), f, r, lb + 1);
    forall j | lb + 1 <= j < n - i + 1 ensures f(j) == 0 {
      MulZero(g, At(s, n - i - j));
    }
    SumTail(f, lb + 1, n - i + 1);
  }

  lemma TableColumn(g: GF, a: seq<nat>, b: seq<nat>, s: seq<nat>, n: nat, la: nat, j: nat)
    requires Primitive(g) && DegreeAtMost(a, la) && j + la <= n
    ensures Columns(Table(g, a, b, s, n), la + 1)(j) == Mul(g, At(b, j), Conv(g, a, s, n - j))
  {
    hide Mul, Primitive, Sum;
    var t, u := Table(g, a, b, s, n), Table(g, b, a, s, n);
    var f: Terms := i => t(i, j);
    var h: Terms := i => u(j, i);
    forall i | 0 <= i < la + 1 ensures f(i) == h(i) {
      var x, y, z := At(a, i), At(b, j), At(s, n - i - j);
      MulAssoc(g, x, y, z);
      MulComm(g, x, y);
      MulAssoc(g, y, x, z);
      assert n - i - j == n - j - i;
    }
    SumEqual(f, h, la + 1);
    TableRow(g, b, a, s, n, la, j);
  }

  lemma ConvIn(g: GF, p: seq<nat>, s: seq<nat>, k: nat)
    ensures In(g, Conv(g, p, s, k))
  {
    hide Mul, Sum, In;
    forall i | 0 <= i < k + 1 ensures In(g, ConvTerm(g, p, s, k)(i)) {
      MulIn(g, At(p, i), At(s, k - i));
    }
    SumIn(g, ConvTerm(g, p, s, k), k + 1);
  }

  /** A table whose rows after the first vanish adds up to its first row. */
  lemma FirstRowOnly(g: GF, f: Terms, n: nat, p: seq<nat>, q: seq<nat>, s: seq<nat>, m: nat)
    requires Primitive(g) && n > 0 && n <= m + 1 && At(p, 0) == 1
    requires forall i :: 0 <= i < n ==> f(i) == Mul(g, At(p, i), Conv(g, q, s, m - i))
    requires forall k: nat :: m + 1 - n <= k < m ==> Conv(g, q, s, k) == 0
    ensures Sum(f, n) == Conv(g, q, s, m)
  {
    hide Mul, Primitive, Sum, Conv, In;
    forall i | 0 <= i < n && i != 0 ensures f(i) == 0 {
      MulZero(g, At(p, i));
    }
    SumSingle(f, 0, n);
    ConvIn(g, q, s, m);
    MulOne(g, Conv(g, q, s, m));
  }

  /** Massey: recurrences of lengths la and lb valid below n, with la + lb <= n, agree at n. */
  lemma RecurrencesAgree(g: GF, a: seq<nat>, la: nat, b: seq<nat>, lb: nat, s: seq<nat>, n: nat)
    requires Primitive(g) && la + lb <= n
    requires Recurrence(g, a, la, s, n) && Recurrence(g, b, lb, s, n)
    ensures Conv(g, a, s, n) == Conv(g, b, s, n)
  {
    hide Mul, Primitive, Sum, Conv, Rows, Columns, Table;
    var t := Table(g, a, b, s, n);
    forall i | 0 <= i < la + 1
      ensures Rows(t, lb + 1)(i) == Mul(g, At(a, i), Conv(g, b, s, n - i))
    {
      TableRow(g, a, b, s, n, lb, i);
    }
    FirstRowOnly(g, Rows(t, lb + 1), la + 1, a, b, s, n);
    forall j | 0 <= j < lb + 1
      ensures Columns(t, la + 1)(j) == Mul(g, At(b, j), Conv(g, a, s, n - j))
    {
      TableColumn(g, a, b, s, n, la, j);
    }
    FirstRowOnly(g, Columns(t, la + 1), lb + 1, b, a, s, n);
    SumSwap(t, la + 1, lb + 1);
  }

  // ---------- the three moves of the algorithm ----------

  /** x b(x), the top slot dropped. */
  ghost function ShiftUp(b: seq<nat>): (r: seq<nat>)
    ensures |r| == |b|
  {
    seq(|b|, i requires 0 <= i < |b| => At(b, i - 1))
  }

  /** lam(x) - d x b(x) in the same number of slots. */
  ghost function Update(g: GF, lam: seq<nat>, d: nat, b: seq<nat>): (r: seq<nat>)
    ensures |r| == |lam|
  {
    seq(|lam|, i requires 0 <= i < |lam| => Xor(lam[i], Mul(g, d, At(b, i - 1))))
  }

  lemma ConvShift(g: GF, b: seq<nat>, s: seq<nat>, k: nat)
    requires k < |b|
    ensures Conv(g, ShiftUp(b), s, k) == if k == 0 then 0 else Conv(g, b, s, k - 1)
  {
    hide Mul, Sum, Xor;
    var f := ConvTerm(g, ShiftUp(b), s, k);
    MulZero(g, At(s, k));
    assert f(0) == 0;
    if k == 0 {
      SumSingle(f, 0, 1);
    } else {
      var h := ConvTerm(g, b, s, k - 1);
      forall i | 0 <= i < k ensures h(i) == f(i + 1) {
        assert At(ShiftUp(b), i + 1) == At(b, i);
      }
      SumFirst(f, h, k);
      XorZero(Sum(h, k));
    }
  }

  lemma ConvUpdate(g: GF, lam: seq<nat>, d: nat, b: seq<nat>, s: seq<nat>, k: nat)
    requires Primitive(g) && |lam| == |b| && k < |b|
    ensures Conv(g, Update(g, lam, d, b), s, k)
         == Xor(Conv(g, lam, s, k), Mul(g, d, Conv(g, ShiftUp(b), s, k)))
  {
    hide Mul, Sum, Xor, Primitive;
    var f, h := ConvTerm(g, lam, s, k), ConvTerm(g, ShiftUp(b), s, k);
    var t: Terms := i => Mul(g, d, h(i));
    var r := ConvTerm(g, Update(g, lam, d, b), s, k);
    forall i | 0 <= i < k + 1 ensures r(i) == Xor(f(i), t(i)) {
      MulXorLeft(g, lam[i], Mul(g, d, At(b, i - 1)), At(s, k - i));
      MulAssoc(g, d, At(b, i - 1), At(s, k - i));
    }
    SumXor(f, t, r, k + 1);
    SumScale(g, d, h, t, k + 1);
  }

  lemma ConvScale(g: GF, e: nat, p: seq<nat>, s: seq<nat>, k: nat)
    requires Primitive(g)
    ensures Conv(g, ScaleSeq(g, e, p), s, k) == Mul(g, e, Conv(g, p, s, k))
  {
    hide Mul, Sum, Primitive;
    var f, r := ConvTerm(g, p, s, k), ConvTerm(g, ScaleSeq(g, e, p), s, k);
    forall i | 0 <= i < k + 1 ensures r(i) == Mul(g, e, f(i)) {
      MulAssoc(g, e, At(p, i), At(s, k - i));
      if i >= |p| {
        MulZero(g, At(s, k - i));
        MulZero(g, e);
      }
    }
    SumScale(g, e, f, r, k + 1);
  }

  // ---------- the invariant ----------

  /** b has degree at most r - l and its convolution at r-l..r-1 is 0, ..., 0, 1. */
  ghost predicate Companion(g: GF, b: seq<nat>, l: nat, s: seq<nat>, r: nat) {
    && l <= r
    && AllIn(g, b)
    && DegreeAtMost(b, r - l)
    && forall k :: r - l <= k < r ==> Conv(g, b, s, k) == if k == r - 1 then 1 else 0
  }

  /** State of the algorithm after r of n syndromes. */
  ghost predicate BmInv(g: GF, s: seq<nat>, n: nat, r: nat, l: nat, lam: seq<nat>, b: seq<nat>) {
    && |lam| == |b| == n + 1
    && l <= r <= n
    && Recurrence(g, lam, l, s, r)
    && Shortest(g, l, s, r)
    && Companion(g, b, l, s, r)
  }

  lemma BmStart(g: GF, s: seq<nat>, n: nat, one: seq<nat>)
    requires Primitive(g) && |one| == n + 1 && one[0] == 1 && DegreeAtMost(one, 0)
    ensures BmInv(g, s, n, 0, 0, one, one)
  {
    hide Primitive, In, Conv;
    PrimitiveWidth(g);
    InOne(g);
    assert forall i :: 0 <= i < |one| ==> one[i] == 0 || one[i] == 1;
  }

  /** A longer prefix has no shorter recurrence. */
  lemma ShortestExtends(g: GF, l: nat, s: seq<nat>, r: nat)
    requires Shortest(g, l, s, r)
    ensures Shortest(g, l, s, r + 1)
  {
    hide Conv, AllIn, DegreeAtMost;
    var r' := r + 1;
    forall p: seq<nat>, m: nat | Recurrence(g, p, m, s, r') ensures l <= m {
      assert Recurrence(g, p, m, s, r);
    }
  }

  /** Where the current recurrence fails, every recurrence that succeeds is long. */
  lemma ShortestJumps(g: GF, lam: seq<nat>, l: nat, s: seq<nat>, r: nat)
    requires Primitive(g) && l <= r && Recurrence(g, lam, l, s, r) && Conv(g, lam, s, r) != 0
    ensures Shortest(g, r + 1 - l, s, r + 1)
  {
    hide Conv, AllIn, DegreeAtMost, Primitive;
    var r' := r + 1;
    forall p: seq<nat>, m: nat | Recurrence(g, p, m, s, r') ensures r' - l <= m {
      if m + l <= r {
        assert Recurrence(g, p, m, s, r);
        RecurrencesAgree(g, p, m, lam, l, s, r);
      }
    }
  }

  lemma ShiftCompanion(g: GF, b: seq<nat>, l: nat, s: seq<nat>, r: nat)
    requires Primitive(g) && Companion(g, b, l, s, r) && r < |b|
    ensures Companion(g, ShiftUp(b), l, s, r + 1)
  {
    hide Conv, Primitive, In;
    PrimitiveWidth(g);
    InOne(g);
    var c := ShiftUp(b);
    forall i | 0 <= i < |c| ensures In(g, c[i]) {
      assert c[i] == At(b, i - 1);
    }
    forall k | r + 1 - l <= k < r + 1 ensures Conv(g, c, s, k) == if k == r then 1 else 0 {
      ConvShift(g, b, s, k);
    }
  }

  lemma UpdateIn(g: GF, lam: seq<nat>, d: nat, b: seq<nat>)
    requires AllIn(g, lam)
    ensures AllIn(g, Update(g, lam, d, b))
  {
    hide Mul, Xor, In;
    forall i | 0 <= i < |lam| ensures In(g, Update(g, lam, d, b)[i]) {
      MulIn(g, d, At(b, i - 1));
      InXor(g, lam[i], Mul(g, d, At(b, i - 1)));
    }
  }

  lemma UpdateShape(g: GF, lam: seq<nat>, l: nat, d: nat, b: seq<nat>, r: nat, l': nat)
    requires |lam| == |b| > 0 && l <= r && l <= l' && r + 1 - l <= l'
    requires DegreeAtMost(lam, l) && DegreeAtMost(b, r - l)
    ensures DegreeAtMost(Update(g, lam, d, b), l')
    ensures Update(g, lam, d, b)[0] == lam[0]
  {
    hide Mul, Xor;
    MulZero(g, d);
    XorZero(0);
    XorZero(lam[0]);
  }

  /** After the update the discrepancy at r is gone, and none appears at l'..r-1. */
  lemma UpdateConv(g: GF, lam: seq<nat>, l: nat, d: nat, b: seq<nat>, s: seq<nat>, r: nat, l': nat, k: nat)
    requires Primitive(g) && In(g, d) && |lam| == |b| && r < |b|
    requires Recurrence(g, lam, l, s, r) && Companion(g, b, l, s, r) && Conv(g, lam, s, r) == d
    requires l <= l' && r + 1 - l <= l' <= k <= r
    ensures Conv(g, Update(g, lam, d, b), s, k) == 0
  {
    hide Mul, Xor, Primitive, Conv, AllIn, DegreeAtMost, In;
    ConvUpdate(g, lam, d, b, s, k);
    ConvShift(g, b, s, k);
    if k == r {
      MulOne(g, d);
      XorSelf(d);
    } else {
      MulZero(g, d);
      XorZero(0);
    }
  }

  lemma UpdateRecurrence(g: GF, lam: seq<nat>, l: nat, d: nat, b: seq<nat>, s: seq<nat>, r: nat, l': nat)
    requires Primitive(g) && In(g, d) && |lam| == |b| && r < |b|
    requires Recurrence(g, lam, l, s, r) && Companion(g, b, l, s, r) && Conv(g, lam, s, r) == d
    requires l <= l' && r + 1 - l <= l'
    ensures Recurrence(g, Update(g, lam, d, b), l', s, r + 1)
  {
    hide Mul, Xor, Primitive, Conv, In, Update;
    UpdateIn(g, lam, d, b);
    UpdateShape(g, lam, l, d, b, r, l');
    forall k | l' <= k < r + 1 ensures Conv(g, Update(g, lam, d, b), s, k) == 0 {
      UpdateConv(g, lam, l, d, b, s, r, l', k);
    }
  }

  /** lam / d becomes the companion when the length changes. */
  lemma ScaleCompanion(g: GF, lam: seq<nat>, l: nat, d: nat, s: seq<nat>, r: nat)
    requires Primitive(g) && l <= r && In(g, d) && d != 0
    requires Recurrence(g, lam, l, s, r) && Conv(g, lam, s, r) == d
    ensures Companion(g, ScaleSeq(g, Inv(g, d), lam), r + 1 - l, s, r + 1)
  {
    hide Mul, Primitive, Conv, In;
    var e := Inv(g, d);
    var b := ScaleSeq(g, e, lam);
    forall i | 0 <= i < |b| ensures In(g, b[i]) && (i > l ==> b[i] == 0) {
      MulIn(g, e, lam[i]);
      MulZero(g, e);
    }
    forall k | l <= k < r + 1 ensures Conv(g, b, s, k) == if k == r then 1 else 0 {
      ConvScale(g, e, lam, s, k);
      if k == r {
        MulInv(g, d);
        MulComm(g, d, e);
      } else {
        MulZero(g, e);
      }
    }
  }

  // ---------- one step of the algorithm ----------

  /** Zero discrepancy: only the companion moves. */
  lemma BmKeep(g: GF, s: seq<nat>, n: nat, r: nat, l: nat, lam: seq<nat>, b: seq<nat>)
    requires Primitive(g) && BmInv(g, s, n, r, l, lam, b) && r < n
    requires Conv(g, lam, s, r) == 0
    ensures BmInv(g, s, n, r + 1, l, lam, ShiftUp(b))
  {
    hide Primitive, Conv, Shortest, Companion, AllIn, DegreeAtMost, ShiftUp;
    ShiftCompanion(g, b, l, s, r);
    ShortestExtends(g, l, s, r);
  }

  /** Nonzero discrepancy with room: the length stays. */
  lemma BmUpdate(g: GF, s: seq<nat>, n: nat, r: nat, l: nat, lam: seq<nat>, b: seq<nat>, d: nat)
    requires Primitive(g) && BmInv(g, s, n, r, l, lam, b) && r < n
    requires Conv(g, lam, s, r) == d && 2 * l > r
    ensures BmInv(g, s, n, r + 1, l, Update(g, lam, d, b), ShiftUp(b))
  {
    hide Primitive, Conv, Shortest, Companion, Recurrence, ShiftUp, Update, In;
    ConvIn(g, lam, s, r);
    UpdateRecurrence(g, lam, l, d, b, s, r, l);
    ShiftCompanion(g, b, l, s, r);
    ShortestExtends(g, l, s, r);
  }

  /** Nonzero discrepancy without room: the length jumps to r + 1 - l. */
  lemma BmJump(g: GF, s: seq<nat>, n: nat, r: nat, l: nat, lam: seq<nat>, b: seq<nat>, d: nat)
    requires Primitive(g) && BmInv(g, s, n, r, l, lam, b) && r < n
    requires Conv(g, lam, s, r) == d != 0 && 2 * l <= r
    ensures BmInv(g, s, n, r + 1, r + 1 - l, Update(g, lam, d, b), ScaleSeq(g, Inv(g, d), lam))
  {
    hide Primitive, Conv, Shortest, Companion, Recurrence, ScaleSeq, Update, In;
    ConvIn(g, lam, s, r);
    UpdateRecurrence(g, lam, l, d, b, s, r, r + 1 - l);
    ScaleCompanion(g, lam, l, d, s, r);
    ShortestJumps(g, lam, l, s, r);
  }

  // ---------- uniqueness ----------

  /** (a - b) / x^t, scaled by e. */
  ghost function Difference(g: GF, a: seq<nat>, b: seq<nat>, t: nat, e: nat, n: nat): (r: seq<nat>)
    ensures |r| == n
  {
    seq<nat>(n, i requires 0 <= i < n => Mul(g, e, Xor(At(a, i + t), At(b, i + t))))
  }

  lemma DifferenceTerm(g: GF, a: seq<nat>, b: seq<nat>, t: nat, e: nat, n: nat, s: seq<nat>, k: nat, i: nat)
    requires Primitive(g) && i < n && |a| <= n && |b| <= n
    ensures ConvTerm(g, Difference(g, a, b, t, e, n), s, k)(i)
         == Mul(g, e, Xor(ConvTerm(g, a, s, k + t)(i + t), ConvTerm(g, b, s, k + t)(i + t)))
  {
    hide Mul, Xor, Primitive;
    var x, y, z := At(a, i + t), At(b, i + t), At(s, k - i);
    assert At(s, (k + t) - (i + t)) == z;
    MulXorLeft(g, x, y, z);
    MulAssoc(g, e, Xor(x, y), z);
  }

  /** Where a and b agree below t, the convolution of their difference is the shifted difference. */
  lemma DifferenceConv(g: GF, a: seq<nat>, b: seq<nat>, t: nat, e: nat, n: nat, s: seq<nat>, k: nat)
    requires Primitive(g) && |a| <= n && |b| <= n
    requires forall i :: 0 <= i < t ==> At(a, i) == At(b, i)
    ensures Conv(g, Difference(g, a, b, t, e, n), s, k)
         == Mul(g, e, Xor(Conv(g, a, s, k + t), Conv(g, b, s, k + t)))
  {
    hide Mul, Xor, Primitive, Sum, Difference;
    var fa, fb := ConvTerm(g, a, s, k + t), ConvTerm(g, b, s, k + t);
    var d: Terms := i => Xor(fa(i), fb(i));
    var d': Terms := i => d(i + t);
    SumXor(fa, fb, d, k + t + 1);
    forall i | 0 <= i < t ensures d(i) == 0 {
      XorSelf(fa(i));
    }
    SumDrop(d, d', t, k + 1);
    var f := ConvTerm(g, Difference(g, a, b, t, e, n), s, k);
    forall i | 0 <= i < k + 1 ensures f(i) == Mul(g, e, d'(i)) {
      if i < n {
        DifferenceTerm(g, a, b, t, e, n, s, k, i);
      } else {
        MulZero(g, At(s, k - i));
        MulZero(g, e);
        XorZero(0);
        assert At(a, i + t) == 0 && At(b, i + t) == 0;
        assert fa(i + t) == 0 && fb(i + t) == 0 by { MulZero(g, At(s, k + t - (i + t))); }
      }
    }
    SumScale(g, e, d', f, k + 1);
  }

  /** Leading zero terms drop out. */
  lemma {:induction false} SumDrop(f: Terms, h: Terms, t: nat, n: nat)
    requires forall i :: 0 <= i < t ==> f(i) == 0
    requires forall i :: 0 <= i < n ==> h(i) == f(i + t)
    ensures Sum(f, n + t) == Sum(h, n)
  {
    hide Xor;
    if n == 0 {
      SumZero(f, t);
    } else {
      SumDrop(f, h, t, n - 1);
    }
  }

  /** The difference of two shortest recurrences would be a shorter one. */
  lemma {:induction false} DifferenceExtends(g: GF, c: seq<nat>, m: nat, a: seq<nat>, l: nat, s: seq<nat>, j: nat, n: nat)
    requires Primitive(g) && m + l <= j <= n && Recurrence(g, c, m, s, j) && Recurrence(g, a, l, s, n)
    ensures Recurrence(g, c, m, s, n)
    decreases n - j
  {
    hide Primitive, Conv, AllIn, DegreeAtMost;
    if j < n {
      assert Recurrence(g, a, l, s, j);
      RecurrencesAgree(g, c, m, a, l, s, j);
      assert Recurrence(g, c, m, s, j + 1);
      DifferenceExtends(g, c, m, a, l, s, j + 1, n);
    }
  }

  lemma DifferenceRecurrence(g: GF, a: seq<nat>, b: seq<nat>, l: nat, s: seq<nat>, n: nat, t: nat, c: seq<nat>)
    requires Primitive(g) && 0 < t <= l && 2 * l <= n
    requires Recurrence(g, a, l, s, n) && Recurrence(g, b, l, s, n)
    requires forall i :: 0 <= i < t ==> At(a, i) == At(b, i)
    requires At(a, t) != At(b, t)
    requires c == Difference(g, a, b, t, Inv(g, Xor(At(a, t), At(b, t))), |a| + |b|)
    ensures Recurrence(g, c, l - t, s, n - t)
  {
    hide Primitive, Conv, In, Mul, Xor, Inv;
    var x := Xor(At(a, t), At(b, t));
    var e := Inv(g, x);
    XorEqual(At(a, t), At(b, t));
    PrimitiveWidth(g);
    InOne(g);
    InXor(g, At(a, t), At(b, t));
    MulInv(g, x);
    MulComm(g, x, e);
    forall i | 0 <= i < |c| ensures In(g, c[i]) && (i > l - t ==> c[i] == 0) {
      MulIn(g, e, Xor(At(a, i + t), At(b, i + t)));
      MulZero(g, e);
      XorZero(0);
    }
    forall k | l - t <= k < n - t ensures Conv(g, c, s, k) == 0 {
      DifferenceConv(g, a, b, t, e, |a| + |b|, s, k);
      MulZero(g, e);
      XorZero(0);
    }
  }

  /** A shortest recurrence at most half as long as the sequence is unique. */
  lemma ShortestUnique(g: GF, a: seq<nat>, b: seq<nat>, l: nat, s: seq<nat>, n: nat, i: nat)
    requires Primitive(g) && 2 * l <= n && Shortest(g, l, s, n)
    requires Recurrence(g, a, l, s, n) && Recurrence(g, b, l, s, n)
    ensures At(a, i) == At(b, i)
  {
    hide Primitive, Conv, In, Mul, Xor, Inv, Difference;
    if i > 0 {
      forall j | 0 <= j < i ensures At(a, j) == At(b, j) {
        ShortestUnique(g, a, b, l, s, n, j);
      }
      if At(a, i) != At(b, i) {
        var c := Difference(g, a, b, i, Inv(g, Xor(At(a, i), At(b, i))), |a| + |b|);
        DifferenceRecurrence(g, a, b, l, s, n, i, c);
        DifferenceExtends(g, c, l - i, a, l, s, n - i, n);
        assert false;
      }
    }
  }
}
