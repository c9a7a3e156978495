/** First part of the decoder: forming the syndromes of the received word. */
module Syndromes {
  import opened BitXor
  import opened GaloisField
  import opened FieldLaws
  import opened Polynomials
  import opened RsCode
  import opened Generator
  import opened RsControl
  import opened Encoder

  /** The received word: data symbols (inverted and masked), then parity symbols (masked). */
  ghost function Received(g: GF, data: seq<nat>, par: seq<nat>, invmsk: nat): (w: seq<nat>)
    ensures |w| == |data| + |par|
    ensures AllIn(g, w)
  {
    Symbols(g, data, invmsk) + Symbols(g, par, 0)
  }

  /** The table form of syn * root, guarded against the logarithm of zero. */
  lemma TimesRootTable(rs: Control, a: nat, i: nat)
    requires Valid(rs) && 0 < a <= rs.nn
    ensures rs.nn >= 1 && a < |rs.indexOf| && (rs.fcr + i) * rs.prim >= 0
    ensures rs.alphaTo[(rs.indexOf[a] + (rs.fcr + i) * rs.prim) % rs.nn]
         == Mul(CodeOf(rs).g, a, Root(CodeOf(rs), i))
  {
    hide Good, Tables, Mul, Valid, Primitive, Top, Exp;
    ValidParts(rs);
    TableMul(CodeOf(rs).g, rs.alphaTo, rs.indexOf, a, (rs.fcr + i) * rs.prim);
  }

  /** One more symbol of the word into every syndrome. */
  method Absorb(rs: Control, syn: array<nat>, d: nat, ghost w: seq<nat>)
    requires Valid(rs) && syn.Length == rs.nroots && d <= rs.nn && AllIn(CodeOf(rs).g, w)
    requires forall i :: 0 <= i < rs.nroots ==> syn[i] == Syndrome(CodeOf(rs), w, i)
    modifies syn
    ensures forall i :: 0 <= i < rs.nroots ==> syn[i] == Syndrome(CodeOf(rs), w + [d], i)
    ensures AllIn(CodeOf(rs).g, w + [d])
  {
    hide Xor, Mul, Good, Tables, Valid, Syndrome, Primitive, Root;
    ghost var c := CodeOf(rs);
    ValidParts(rs);
    InTop(c.g, d);
    var i := 0;
    while i < rs.nroots
      invariant 0 <= i <= rs.nroots
      invariant forall k :: 0 <= k < i ==> syn[k] == Syndrome(c, w + [d], k)
      invariant forall k :: i <= k < rs.nroots ==> syn[k] == Syndrome(c, w, k)
    {
      SyndromeNext(c, w, d, i);
      SyndromeIn(c, w, i);
      if syn[i] == 0 {
        MulZero(c.g, Root(c, i));
        XorZero(d);
        syn[i] := d;
      } else {
        TimesRootTable(rs, syn[i], i);
        var t := RsModnn(rs.mm, rs.nn, rs.indexOf[syn[i]] + (rs.fcr + i) * rs.prim);
        XorComm(d, rs.alphaTo[t]);
        syn[i] := Xor(d, rs.alphaTo[t]);
      }
      i := i + 1;
    }
  }

  lemma SyndromeNext(c: Code, w: seq<nat>, d: nat, i: nat)
    ensures Syndrome(c, w + [d], i) == Xor(Mul(c.g, Syndrome(c, w, i), Root(c, i)), d)
  {
    hide Xor, Mul, Root;
    assert (w + [d])[..|w|] == w;
  }

  lemma SyndromeIn(c: Code, w: seq<nat>, i: nat)
    requires AllIn(c.g, w)
    ensures Syndrome(c, w, i) <= Top(c.g)
  {
    hide Horner, Root;
    HornerIn(c.g, w, Root(c, i));
  }

  lemma FirstSymbol(c: Code, d: nat, i: nat)
    ensures Syndrome(c, [d], i) == d
  {
    hide Horner, Root;
    HornerOne(c.g, d, Root(c, i));
  }

  /** Evaluates the received word at every root of the generator polynomial. */
  method FormSyndromes(rs: Control, data: array<nat>, par: array<nat>, len: nat, invmsk: nat) returns (syn: array<nat>)
    requires Valid(rs) && 1 <= len <= data.Length && par.Length == rs.nroots
    ensures fresh(syn) && syn.Length == rs.nroots
    ensures forall i :: 0 <= i < rs.nroots ==>
              syn[i] == Syndrome(CodeOf(rs), Received(CodeOf(rs).g, data[..len], par[..], invmsk), i) <= rs.nn
  {
    hide Xor, Good, Tables, Valid, Syndrome, Primitive, Symbols, Low;
    ghost var c := CodeOf(rs);
    ValidParts(rs);
    syn := new nat[rs.nroots];
    var i := 0;
    var d := Low(Xor(data[0], invmsk), rs.mm);
    while i < rs.nroots
      invariant 0 <= i <= rs.nroots
      invariant forall k :: 0 <= k < i ==> syn[k] == d
    {
      syn[i] := d;
      i := i + 1;
    }
    ghost var w := [d];
    SymbolsNext(c.g, data[..1], invmsk);
    assert w == Symbols(c.g, data[..1], invmsk);
    forall k | 0 <= k < rs.nroots ensures syn[k] == Syndrome(c, w, k) {
      FirstSymbol(c, d, k);
    }
    var j := 1;
    while j < len
      invariant 1 <= j <= len
      invariant w == Symbols(c.g, data[..j], invmsk)
      invariant forall k :: 0 <= k < rs.nroots ==> syn[k] == Syndrome(c, w, k)
    {
      d := Low(Xor(data[j], invmsk), rs.mm);
      SymbolsNext(c.g, data[..j + 1], invmsk);
      assert data[..j + 1][..j] == data[..j];
      Absorb(rs, syn, d, w);
      w := w + [d];
      j := j + 1;
    }
    ghost var front := w;
    assert front + Symbols(c.g, par[..0], 0) == front;
    j := 0;
    while j < rs.nroots
      invariant 0 <= j <= rs.nroots
      invariant w == front + Symbols(c.g, par[..j], 0)
      invariant AllIn(c.g, w)
      invariant forall k :: 0 <= k < rs.nroots ==> syn[k] == Syndrome(c, w, k)
    {
      d := Low(par[j], rs.mm);
      XorZero(par[j]);
      SymbolsNext(c.g, par[..j + 1], 0);
      assert par[..j + 1][..j] == par[..j];
      Absorb(rs, syn, d, w);
      w := w + [d];
      j := j + 1;
    }
    assert par[..rs.nroots] == par[..];
    forall k | 0 <= k < rs.nroots ensures Syndrome(c, w, k) <= rs.nn {
      SyndromeIn(c, w, k);
    }
  }

  /** The values behind a sequence of table indices. */
  ghost function Vals(rs: Control, a: seq<nat>): (r: seq<nat>)
    requires forall i :: 0 <= i < |a| ==> a[i] < |rs.alphaTo|
    ensures |r| == |a|
  {
    seq(|a|, i requires 0 <= i < |a| => rs.alphaTo[a[i]])
  }

  /** Puts the syndromes in index form; reports whether any was nonzero. */
  method ToIndexForm(rs: Control, s: array<nat>) returns (synError: bool)
    requires Valid(rs)
    requires forall i :: 0 <= i < s.Length ==> s[i] <= rs.nn
    modifies s
    ensures synError <==> !AllZero(old(s[..]))
    ensures |rs.alphaTo| == rs.nn + 1 && forall i :: 0 <= i < s.Length ==> s[i] <= rs.nn
    ensures Vals(rs, s[..]) == old(s[..])
  {
    hide Good, Tables, Valid, Primitive, Top;
    ghost var g := CodeOf(rs).g;
    ValidParts(rs);
    ghost var was := s[..];
    synError := false;
    var i := 0;
    while i < s.Length
      invariant 0 <= i <= s.Length
      invariant synError <==> exists k :: 0 <= k < i && was[k] != 0
      invariant forall k :: 0 <= k < i ==> s[k] <= rs.nn && rs.alphaTo[s[k]] == was[k]
      invariant forall k :: i <= k < s.Length ==> s[k] == was[k]
    {
      synError := synError || s[i] != 0;
      TablesIn(g, rs.alphaTo, rs.indexOf, s[i]);
      s[i] := rs.indexOf[s[i]];
      i := i + 1;
    }
  }
}
