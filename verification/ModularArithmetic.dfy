/** Residues: what the codec needs of arithmetic modulo nn, and the Bezout
    coefficients behind its search for the inverse of prim. */
module ModularArithmetic {
  import opened BitXor

  predicate Divides(d: nat, n: nat)
    requires d > 0
  {
    n % d == 0
  }

  ghost predicate Coprime(a: nat, b: nat) {
    forall d: nat :: d > 1 && Divides(d, a) ==> !Divides(d, b)
  }

  lemma MulMono(a: int, b: int, c: int)
    requires a <= b && 0 <= c
    ensures a * c <= b * c
  {
  }

  lemma MulSub(p: int, a: int, b: int)
    ensures p * b - p * a == p * (b - a)
    ensures b * p - a * p == (b - a) * p
  {
  }

  lemma ModMultiple(r: int, q: int, n: int)
    requires n > 0
    ensures (r + q * n) % n == r % n
  {
    var k := r / n;
    assert r == k * n + r % n;
    assert r + q * n == (k + q) * n + r % n;
    ModUnique(r + q * n, n, k + q, r % n);
  }

  lemma DividesSum(d: nat, a: nat, b: nat)
    requires d > 0 && Divides(d, a) && Divides(d, b)
    ensures Divides(d, a + b)
  {
    assert b == (b / d) * d;
    ModMultiple(a, b / d, d);
  }

  /** Coprime numbers have u a == 1 + v b. */
  lemma {:induction false} Bezout(a: nat, b: nat) returns (u: nat, v: nat)
    requires a > 0 && b > 0 && Coprime(a, b)
    ensures u * a == 1 + v * b
    decreases a + b
  {
    if a == b {
      if a > 1 {
        assert Divides(a, a) by { ModUnique(a, a, 1, 0); }
      }
      u, v := 2, 1;
    } else if a < b {
      forall d: nat | d > 1 && Divides(d, a) ensures !Divides(d, b - a) {
        if Divides(d, b - a) {
          DividesSum(d, a, b - a);
        }
      }
      u, v := Bezout(a, b - a);
      u := BezoutStep(u, v, a, b);
    } else {
      forall d: nat | d > 1 && Divides(d, a - b) ensures !Divides(d, b) {
        if Divides(d, b) {
          DividesSum(d, a - b, b);
        }
      }
      u, v := Bezout(a - b, b);
      assert u * (a - b) == u * a - u * b;
      assert u * a == 1 + v * b + u * b == 1 + (v + u) * b;
      v := v + u;
    }
  }

  lemma BezoutStep(u: nat, v: nat, a: nat, b: nat) returns (w: nat)
    requires b >= a && u * a == 1 + v * (b - a)
    ensures w * a == 1 + v * b
  {
    assert v * (b - a) == v * b - v * a;
    w := u + v;
    assert w * a == u * a + v * a;
  }
}
