/** Encoder and decoder together, and the parameters the drivers use. */
module Codec {
  import opened BitXor
  import opened GaloisField
  import opened Polynomials
  import opened RsCode
  import opened Generator
  import opened RsControl
  import opened Encoder
  import opened Syndromes
  import opened Decoder

  /** Data followed by its parity. */
  ghost function Encoding(c: Code, data: seq<nat>): (w: seq<nat>)
    ensures |w| == |data| + c.nroots && data == w[..|data|]
  {
    data + Lfsr(c, Zeros(c.nroots), data)
  }

  /** Encodings of two different blocks of equal length differ in at least nroots + 1 symbols. */
  lemma EncodingsFarApart(c: Code, a: seq<nat>, b: seq<nat>)
    requires Good(c) && AllIn(c.g, a) && AllIn(c.g, b)
    requires |a| == |b| && |a| + c.nroots <= Top(c.g) && a != b
    ensures Distance(Encoding(c, a), Encoding(c, b)) >= c.nroots + 1
  {
    hide Good, Top, Lfsr, Distance, Codeword;
    GoodPrimitive(c);
    EncodingIsCodeword(c, a);
    EncodingIsCodeword(c, b);
    var x, y := Encoding(c, a), Encoding(c, b);
    assert x[..|a|] == a && y[..|b|] == b;
    MinimumDistance(c, x, y);
  }

  /** Parity is determined by being a codeword: any codeword that starts with the data is the encoding. */
  lemma ParityUnique(c: Code, data: seq<nat>, w: seq<nat>)
    requires Good(c) && AllIn(c.g, data) && |data| + c.nroots <= Top(c.g)
    requires Codeword(c, w) && |w| == |data| + c.nroots && w[..|data|] == data
    ensures w == Encoding(c, data)
  {
    hide Good, Top, Lfsr, Codeword;
    GoodPrimitive(c);
    EncodingIsCodeword(c, data);
    var x := Encoding(c, data);
    DifferLate(w, x, |data|, c.nroots);
    CloseCodewordsEqual(c, w, x);
  }

  lemma {:induction false} DifferLate(a: seq<nat>, b: seq<nat>, k: nat, n: nat)
    requires |a| == |b| == k + n && a[..k] == b[..k]
    ensures Distance(a, b) <= n
  {
    if n == 0 {
      forall j | 0 <= j < |a| ensures a[j] == b[j] {
        assert a[j] == a[..k][j];
      }
      assert Differ(a, b) == {};
    } else {
      var m := |a| - 1;
      assert a[..m][..k] == a[..k] && b[..m][..k] == b[..k];
      DifferLate(a[..m], b[..m], k, n - 1);
      assert Differ(a, b) == Differ(a[..m], b[..m]) + (if a[m] != b[m] then {m} else {});
    }
  }

  /** After a restoring decode the data symbols are those of the codeword. */
  lemma RestoredSymbols(rs: Control, cw: seq<nat>, was: seq<nat>, now: seq<nat>, par: seq<nat>, len: nat, invmsk: nat, ret: int)
    requires len <= |was| == |now| && |cw| == len + |par| && AllIn(CodeOf(rs).g, cw)
    requires Restored(rs, cw, Received(CodeOf(rs).g, was[..len], par, invmsk), was, now, len, ret)
    ensures Symbols(CodeOf(rs).g, now[..len], invmsk) == cw[..len]
  {
    hide Xor, Low, Distance;
    var g := CodeOf(rs).g;
    var w := Received(g, was[..len], par, invmsk);
    var r := Symbols(g, now[..len], invmsk);
    forall p | 0 <= p < len ensures r[p] == cw[p] {
      SymbolsAt(g, now[..len], invmsk, p);
      SymbolsAt(g, was[..len], invmsk, p);
      assert w[p] == Mask(g, Xor(was[p], invmsk));
      MaskedCorrection(g, was[p], invmsk, cw[p], w[p]);
      MaskIn(g, cw[p]);
    }
  }

  lemma SymbolsAt(g: GF, data: seq<nat>, invmsk: nat, p: nat)
    requires p < |data|
    ensures Symbols(g, data, invmsk)[p] == Mask(g, Xor(data[p], invmsk))
  {
    hide Xor, Low;
  }

  /** A correction within the field passes through inversion and masking. */
  lemma MaskedCorrection(g: GF, d: nat, invmsk: nat, c: nat, w: nat)
    requires w == Mask(g, Xor(d, invmsk))
    ensures Mask(g, Xor(Xor(d, Xor(c, w)), invmsk)) == Mask(g, c)
  {
    hide *;
    var e := Xor(c, w);
    XorAssoc(d, e, invmsk);
    XorComm(e, invmsk);
    XorAssoc(d, invmsk, e);
    MaskXor(g, Xor(d, invmsk), e);
    MaskXor(g, c, w);
    MaskIn(g, w);
    XorComm(Mask(g, c), w);
    XorCancel(w, Mask(g, c));
  }

  lemma SelfWithin(rs: Control, w: seq<nat>)
    requires Codeword(CodeOf(rs), w)
    ensures Within(rs, w, w) && Distance(w, w) == 0
  {
    hide Codeword;
    assert Differ(w, w) == {};
  }

  lemma SymbolsIdempotent(g: GF, p: seq<nat>)
    requires AllIn(g, p)
    ensures Symbols(g, p, 0) == p
  {
    hide Xor, Low;
    forall i | 0 <= i < |p| ensures Symbols(g, p, 0)[i] == p[i] {
      SymbolsAt(g, p, 0, i);
      XorZero(p[i]);
      MaskIn(g, p[i]);
    }
  }

  /** The encoder's parity, checked by the decoder at once: no error is reported and nothing changes. */
  method RoundTrip(rs: Control, data: array<nat>, len: nat, invmsk: nat) returns (par: array<nat>, ret: int)
    requires Valid(rs) && rs.nroots >= 1 && 1 <= len <= data.Length && len + rs.nroots <= rs.nn
    modifies data
    ensures ret == 0 && data[..] == old(data[..])
    ensures fresh(par) && par.Length == rs.nroots
    ensures Received(CodeOf(rs).g, data[..len], par[..], invmsk)
         == Encoding(CodeOf(rs), Symbols(CodeOf(rs).g, data[..len], invmsk))
  {
    hide Valid, Symbols, Codeword, Lfsr, In, Restored, Distance, Within;
    ghost var c := CodeOf(rs);
    par := new nat[rs.nroots];
    forall i | 0 <= i < rs.nroots {
      par[i] := 0;
    }
    assert par[..] == Zeros(rs.nroots);
    InZero(c.g, rs.nroots);
    var e := EncodeRs(rs, data, len, par, invmsk);
    ghost var w := Symbols(c.g, data[..len], invmsk) + par[..];
    CodewordIn(c, w);
    assert w[len..] == par[..];
    SymbolsIdempotent(c.g, par[..]);
    assert w == Received(c.g, data[..len], par[..], invmsk);
    ghost var was, parity := data[..], par[..];
    SelfWithin(rs, w);
    ret := DecodeRs(rs, data, par, len, invmsk);
    RestoredZero(rs, w, w, was, data[..], len, ret);
    assert par[..] == parity;
  }

  lemma InZero(g: GF, n: nat)
    ensures AllIn(g, Zeros(n))
  {
  }

  lemma CodewordIn(c: Code, w: seq<nat>)
    requires Codeword(c, w)
    ensures AllIn(c.g, w) && forall k :: 0 <= k <= |w| ==> AllIn(c.g, w[k..]) && AllIn(c.g, w[..k])
  {
    hide Syndrome, In;
  }

  lemma RestoredZero(rs: Control, cw: seq<nat>, w: seq<nat>, was: seq<nat>, now: seq<nat>, len: nat, ret: int)
    requires |cw| == |w| && len <= |w| && len <= |was| == |now| && Restored(rs, cw, w, was, now, len, ret)
    ensures ret == Distance(cw, w)
  {
    hide Distance, Xor;
  }

  /** A block sent as its encoding and received with at most nroots/2 symbols changed is recovered. */
  method NoisyTransfer(rs: Control, ghost sent: seq<nat>, data: array<nat>, par: array<nat>, len: nat, invmsk: nat)
    returns (ret: int)
    requires Valid(rs) && 1 <= len <= data.Length && len + rs.nroots <= rs.nn && par.Length == rs.nroots && data != par
    requires |sent| == len
    requires 2 * Distance(Encoding(CodeOf(rs), Symbols(CodeOf(rs).g, sent, invmsk)),
                          Received(CodeOf(rs).g, data[..len], par[..], invmsk)) <= rs.nroots
    modifies data
    ensures ret == Distance(Encoding(CodeOf(rs), Symbols(CodeOf(rs).g, sent, invmsk)),
                            old(Received(CodeOf(rs).g, data[..len], par[..], invmsk)))
    ensures Symbols(CodeOf(rs).g, data[..len], invmsk) == Symbols(CodeOf(rs).g, sent, invmsk)
    ensures forall p :: len <= p < data.Length ==> data[p] == old(data[p])
  {
    hide Valid, Symbols, Codeword, Lfsr, In, Restored, Distance;
    ghost var c := CodeOf(rs);
    ghost var s := Symbols(c.g, sent, invmsk);
    ghost var cw, was, parity := Encoding(c, s), data[..], par[..];
    ValidParts(rs);
    EncodingIsCodeword(c, s);
    CodewordIn(c, cw);
    assert was[..len] == data[..len];
    ret := DecodeRs(rs, data, par, len, invmsk);
    RestoredZero(rs, cw, Received(c.g, was[..len], parity, invmsk), was, data[..], len, ret);
    RestoredSymbols(rs, cw, was, data[..], parity, len, invmsk, ret);
    assert data[..][..len] == data[..len];
  }
}
