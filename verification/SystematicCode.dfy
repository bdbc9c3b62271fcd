/** What the encoder produces: the data followed by the one and only list of check symbols
    that makes the whole a word of the code. */
module SystematicCode {
  import opened GaloisField
  import opened Polynomials
  import opened ReedSolomonCode

  lemma {:induction false} ValAppend(F: Field, a: seq<Elem>, b: seq<Elem>)
    requires IsField(F)
    ensures Val(a + b) == Add(F, Shift(Val(a), |b|), Val(b))
    decreases |b|
  {
    if b == [] {
      assert a + b == a;
    } else {
      var c, b' := b[|b| - 1], b[..|b| - 1];
      assert (a + b)[..|a + b| - 1] == a + b';
      ValAppend(F, a, b');
      AddCons(F, 0, Shift(Val(a), |b'|), c, Val(b'));
    }
  }

  lemma DigitsStep(p: Poly, n: nat)
    requires n > 0
    ensures Digits(p, n) == Digits(Tl(p), n - 1) + [Hd(p)]
  {
    var w := Digits(p, n);
    forall i | 0 <= i < n - 1 ensures w[i] == Digits(Tl(p), n - 1)[i] {
      assert w[i] == Coef(p, n - 1 - i) == Coef(Tl(p), n - 2 - i);
    }
    assert w[n - 1] == Coef(p, n - 1 - (n - 1)) == Hd(p);
  }

  lemma {:induction false} ValDigits(p: Poly, n: nat)
    requires |p| <= n
    ensures Val(Digits(p, n)) == p
    decreases n
  {
    if n == 0 {
      assert Digits(p, n) == [];
    } else {
      hide Val, Digits;
      var w := Digits(p, n);
      DigitsStep(p, n);
      ValStep(w);
      assert w[..n - 1] == Digits(Tl(p), n - 1);
      TlLen(p, n);
      ValDigits(Tl(p), n - 1);
      Rebuild(p);
    }
  }

  lemma TlLen(p: Poly, n: nat)
    requires |p| <= n && n > 0
    ensures |Tl(p)| <= n - 1
  {
  }

  lemma {:induction false} ValLen(w: seq<Elem>)
    ensures |Val(w)| <= |w|
    decreases |w|
  {
    if w != [] {
      ValLen(w[..|w| - 1]);
    }
  }

  lemma {:induction false} DigitsVal(w: seq<Elem>)
    ensures |Val(w)| <= |w| && Digits(Val(w), |w|) == w
    decreases |w|
  {
    ValLen(w);
    if w != [] {
      var n := |w| - 1;
      DigitsVal(w[..n]);
      ValLen(w[..n]);
      var v := Val(w);
      assert Hd(v) == w[n] && Tl(v) == Val(w[..n]);
      forall i | 0 <= i < n ensures Digits(v, |w|)[i] == w[..n][i] {
        assert Digits(Val(w[..n]), n)[i] == w[..n][i];
        assert Coef(v, n - i) == Coef(Tl(v), n - 1 - i);
      }
      assert Digits(v, |w|)[n] == Coef(v, 0) == Hd(v);
    }
  }

  lemma {:induction false} GeneratorRoots(F: Field, base: nat, t: nat, i: nat)
    requires IsField(F) && i < t
    ensures Eval(F, Generator(F, base, t), F.exp(i + base)) == 0
    decreases t
  {
    hide Eval, Mul;
    var x := F.exp(i + base);
    EvalMul(F, Generator(F, base, t - 1), Linear(F.exp(t - 1 + base)), x);
    if i == t - 1 {
      EvalLinear(F, F.exp(t - 1 + base), x);
    } else {
      GeneratorRoots(F, base, t - 1, i);
    }
  }

  /** The consecutive powers a^base, ..., a^(base+t-1). */
  function ConsecutivePowers(F: Field, base: nat, t: nat): (r: seq<Elem>)
    ensures |r| == t
  {
    seq<Elem>(t, i requires 0 <= i < t => F.exp(i + base))
  }

  lemma PowersDistinct(F: Field, base: nat, t: nat)
    requires IsField(F) && t <= 255
    ensures Distinct(ConsecutivePowers(F, base, t))
  {
    var r := ConsecutivePowers(F, base, t);
    forall i, j | 0 <= i < j < |r| ensures r[i] != r[j] {
      ExpAdd(F, i, base);
      ExpAdd(F, j, base);
      assert F.log(F.exp(i)) == i && F.log(F.exp(j)) == j;
      if r[i] == r[j] {
        CancelRight(F, F.exp(i), F.exp(j), F.exp(base));
      }
    }
  }

  lemma CancelRight(F: Field, a: Elem, b: Elem, c: Elem)
    requires IsField(F) && c != 0 && F.mul(a, c) == F.mul(b, c)
    ensures a == b
  {
    MulAssoc(F, a, c, F.inv(c));
    MulAssoc(F, b, c, F.inv(c));
  }

  /** Encoding yields a word of the code. */
  lemma EncodedIsCodeword(F: Field, base: nat, data: seq<Elem>, t: nat)
    requires IsField(F)
    ensures IsCodeword(F, base, data + CheckSymbols(F, base, data, t), t)
  {
    hide Eval, Mul, Add, Shift, Generator, Val, Digits, Divide;
    var ec := CheckSymbols(F, base, data, t);
    var g, m := Generator(F, base, t), Shift(Val(data), t);
    GeneratorLen(F, base, t);
    var (q, r) := Divide(F, m, g);
    DivideCorrect(F, m, g);
    ValDigits(r, t);
    ValAppend(F, data, ec);
    AddMove(F, Mul(F, q, g), r, m);
    forall i: nat | i < t ensures HasRoot(F, base, data + ec, i) {
      EvalMul(F, q, g, F.exp(i + base));
      GeneratorRoots(F, base, t, i);
    }
  }

  /** No other check symbols complete the data to a word of the code. */
  lemma CheckSymbolsUnique(F: Field, base: nat, data: seq<Elem>, t: nat, ec: seq<Elem>)
    requires IsField(F) && |ec| == t <= 255
    ensures IsCodeword(F, base, data + ec, t) <==> ec == CheckSymbols(F, base, data, t)
  {
    hide Eval, Mul, Add, Shift, Val, Digits, CheckSymbols;
    var ec0 := CheckSymbols(F, base, data, t);
    EncodedIsCodeword(F, base, data, t);
    if IsCodeword(F, base, data + ec, t) {
      var d := Add(F, Val(ec), Val(ec0));
      ValAppend(F, data, ec);
      ValAppend(F, data, ec0);
      var r := ConsecutivePowers(F, base, t);
      forall i | 0 <= i < |r| ensures Eval(F, d, r[i]) == 0 {
        var x := r[i];
        assert HasRoot(F, base, data + ec, i) && HasRoot(F, base, data + ec0, i);
        EvalAdd(F, Val(ec), Val(ec0), x);
        EvalAdd(F, Shift(Val(data), t), Val(ec), x);
        EvalAdd(F, Shift(Val(data), t), Val(ec0), x);
        SumZero(F, Eval(F, Shift(Val(data), t), x), Eval(F, Val(ec), x));
        SumZero(F, Eval(F, Shift(Val(data), t), x), Eval(F, Val(ec0), x));
      }
      PowersDistinct(F, base, t);
      DigitsVal(ec);
      DigitsVal(ec0);
      AddLen(F, Val(ec), Val(ec0));
      if d != [] {
        RootsBounded(F, d, r);
      }
      AddZero(F, Val(ec), Val(ec0));
    }
  }

  lemma SumZero(F: Field, a: Elem, b: Elem)
    requires IsField(F) && F.add(a, b) == 0
    ensures a == b
  {
    AddCancel(F, a, b);
  }
}
