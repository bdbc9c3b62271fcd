/** Errors as seen by the decoder.  An error has a location X, a power of the generator,
    and a magnitude e.  The locator sigma = (1 + X_1 x) (1 + X_2 x) ..., the evaluator
    omega and the syndrome polynomial S satisfy the key equation
    sigma * S == omega modulo x^t, and omega reveals the magnitudes at the roots of sigma. */
module KeyEquation {
  import opened GaloisField
  import opened Polynomials
  import opened ReedSolomonCode

  function Power(F: Field, x: Elem, k: nat): Elem {
    if k == 0 then 1 else F.mul(x, Power(F, x, k - 1))
  }

  /** Locations and magnitudes that describe errors: locations distinct, nothing zero. */
  ghost predicate IsErrors(locs: seq<Elem>, mags: seq<Elem>) {
    && |locs| == |mags|
    && Distinct(locs)
    && (forall i :: 0 <= i < |locs| ==> locs[i] != 0)
    && (forall i :: 0 <= i < |mags| ==> mags[i] != 0)
  }

  /** 1 + a x */
  function OnePlus(a: Elem): Poly {
    Cons(1, Const(a))
  }

  /** The locator of the first s errors. */
  function Locator(F: Field, locs: seq<Elem>, s: nat): Poly
    requires s <= |locs|
  {
    if s == 0 then Const(1) else Mul(F, OnePlus(locs[s - 1]), Locator(F, locs, s - 1))
  }

  /** What error i contributes to the syndrome at a^base. */
  function Weight(F: Field, base: nat, locs: seq<Elem>, mags: seq<Elem>, i: nat): Elem
    requires i < |locs| == |mags|
  {
    F.mul(mags[i], Power(F, locs[i], base))
  }

  /** The evaluator of the first s errors. */
  function Evaluator(F: Field, base: nat, locs: seq<Elem>, mags: seq<Elem>, s: nat): Poly
    requires s <= |locs| == |mags|
  {
    if s == 0 then [] else
    Add(F, Mul(F, OnePlus(locs[s - 1]), Evaluator(F, base, locs, mags, s - 1)),
        Scale(F, Weight(F, base, locs, mags, s - 1), Locator(F, locs, s - 1)))
  }

  /** c + c a x + c a^2 x^2 + ..., t terms. */
  function Geometric(F: Field, a: Elem, c: Elem, t: nat): Poly
    decreases t
  {
    if t == 0 then [] else Cons(c, Geometric(F, a, F.mul(c, a), t - 1))
  }

  /** The syndrome polynomial of the first s errors. */
  function SyndromePoly(F: Field, base: nat, locs: seq<Elem>, mags: seq<Elem>, s: nat, t: nat): Poly
    requires s <= |locs| == |mags|
  {
    if s == 0 then [] else
    Add(F, SyndromePoly(F, base, locs, mags, s - 1, t),
        Geometric(F, locs[s - 1], Weight(F, base, locs, mags, s - 1), t))
  }

  /** (1 + a x) (c + x g) == c + x h when (1 + a x) g == c a + h. */
  lemma GeometricStep(F: Field, a: Elem, c: Elem, g: Poly, h: Poly)
    requires IsField(F) && Mul(F, OnePlus(a), g) == Add(F, Const(F.mul(c, a)), h)
    ensures Mul(F, OnePlus(a), Cons(c, g)) == Cons(c, h)
  {
    hide Mul, Add, Scale, Const;
    var ca := Const(F.mul(c, a));
    MulConsRight(F, OnePlus(a), c, g);
    ScaleCons(F, c, 1, Const(a));
    ScaleConst(F, c, a);
    AddCons(F, c, ca, 0, Add(F, ca, h));
    AddPolyAssoc(F, ca, ca, h);
    AddPolySelf(F, ca);
    AddNil(F, h);
  }

  lemma {:induction false} GeometricSum(F: Field, a: Elem, c: Elem, t: nat)
    requires IsField(F)
    ensures Mul(F, OnePlus(a), Geometric(F, a, c, t))
            == Add(F, Const(c), Shift(Const(F.mul(c, Power(F, a, t))), t))
    decreases t
  {
    hide Mul, Add, Scale, IsField;
    if t == 0 {
      MulZero(F, OnePlus(a));
      AddPolySelf(F, Const(c));
      MulOne(F, c);
    } else {
      var h := Shift(Const(F.mul(c, Power(F, a, t))), t - 1);
      GeometricSum(F, a, F.mul(c, a), t - 1);
      MulAssoc(F, c, a, Power(F, a, t - 1));
      GeometricStep(F, a, c, Geometric(F, a, F.mul(c, a), t - 1), h);
      AddCons(F, c, [], 0, h);
      AddNil(F, h);
      AddZeroRight(F, c);
    }
  }

  lemma ScaleConst(F: Field, c: Elem, a: Elem)
    requires IsField(F)
    ensures Scale(F, c, Const(a)) == Const(F.mul(c, a))
  {
    ScaleCons(F, c, a, []);
  }

  /** The key equation carried over one more error: x1 is its factor 1 + X x, g its share
      of the syndromes. */
  lemma KeyEquationStep(F: Field, x1: Poly, sigma: Poly, syn: Poly, g: Poly,
                        omega: Poly, b: Poly, w: Poly, end: Poly, t: nat)
    requires IsField(F)
    requires Mul(F, sigma, syn) == Add(F, omega, Shift(b, t))
    requires Mul(F, x1, g) == Add(F, w, Shift(end, t))
    ensures Mul(F, Mul(F, x1, sigma), Add(F, syn, g))
            == Add(F, Add(F, Mul(F, x1, omega), Mul(F, sigma, w)),
                   Shift(Add(F, Mul(F, x1, b), Mul(F, sigma, end)), t))
  {
    hide Mul, Add, Shift;
    // (x1 sigma) (S + G) == x1 (sigma S) + sigma (x1 G)
    MulAddRight(F, Mul(F, x1, sigma), syn, g);
    MulPolyAssoc(F, x1, sigma, syn);
    MulPolyAssoc(F, x1, sigma, g);
    MulLeftSwap(F, x1, sigma, g);
    MulAddRight(F, x1, omega, Shift(b, t));
    ShiftMul(F, b, t, x1);
    MulAddRight(F, sigma, w, Shift(end, t));
    ShiftMul(F, end, t, sigma);
    AddPolySwap(F, Mul(F, x1, omega), Shift(Mul(F, x1, b), t),
                Mul(F, sigma, w), Shift(Mul(F, sigma, end), t));
    ShiftAdd(F, Mul(F, x1, b), Mul(F, sigma, end), t);
  }

  /** sigma * S == omega + A x^t, for the first s errors. */
  lemma {:induction false} KeyEquationHolds(F: Field, base: nat, locs: seq<Elem>, mags: seq<Elem>,
                                            s: nat, t: nat) returns (a: Poly)
    requires IsField(F) && s <= |locs| == |mags|
    ensures Mul(F, Locator(F, locs, s), SyndromePoly(F, base, locs, mags, s, t))
            == Add(F, Evaluator(F, base, locs, mags, s), Shift(a, t))
    decreases s
  {
    hide Mul, Add, Scale, Shift, Weight, Geometric, Power, OnePlus, Const;
    if s == 0 {
      a := [];
      MulZero(F, Const(1));
      AddNil(F, Shift([], t));
    } else {
      var x, w := locs[s - 1], Weight(F, base, locs, mags, s - 1);
      var sigma, g := Locator(F, locs, s - 1), Geometric(F, x, w, t);
      var b := KeyEquationHolds(F, base, locs, mags, s - 1, t);
      var end := Const(F.mul(w, Power(F, x, t)));
      a := Add(F, Mul(F, OnePlus(x), b), Mul(F, sigma, end));
      GeometricSum(F, x, w, t);
      MulConst(F, w, sigma);
      KeyEquationStep(F, OnePlus(x), sigma, SyndromePoly(F, base, locs, mags, s - 1, t), g,
                      Evaluator(F, base, locs, mags, s - 1), b, Const(w), end, t);
    }
  }

  lemma {:induction false} LocatorShape(F: Field, locs: seq<Elem>, s: nat)
    requires IsField(F) && s <= |locs|
    requires forall i :: 0 <= i < |locs| ==> locs[i] != 0
    ensures |Locator(F, locs, s)| == s + 1 && Hd(Locator(F, locs, s)) == 1
    decreases s
  {
    if s != 0 {
      hide Mul, Eval, IsField;
      LocatorShape(F, locs, s - 1);
      MulLen(F, OnePlus(locs[s - 1]), Locator(F, locs, s - 1));
      EvalMul(F, OnePlus(locs[s - 1]), Locator(F, locs, s - 1), 0);
      EvalAtZero(F, Locator(F, locs, s));
      EvalAtZero(F, Locator(F, locs, s - 1));
      EvalAtZero(F, OnePlus(locs[s - 1]));
      assert F.mul(1, 1) == 1 by { MulOne(F, 1); }
    }
  }

  lemma OnePlusLen(a: Elem)
    requires a != 0
    ensures |OnePlus(a)| == 2
  {
  }

  lemma StepLen(F: Field, x: Poly, omega: Poly, w: Elem, sigma: Poly, s: nat)
    requires IsField(F) && |x| == 2 && |omega| < s && |sigma| == s
    ensures |Add(F, Mul(F, x, omega), Scale(F, w, sigma))| <= s
  {
    hide Mul, Add, Scale, IsField;
    if omega == [] {
      MulZero(F, x);
    } else {
      MulLen(F, x, omega);
    }
    if w == 0 {
      ScaleZero(F, sigma);
    } else {
      ScaleLen(F, w, sigma);
    }
    AddLen(F, Mul(F, x, omega), Scale(F, w, sigma));
  }

  lemma {:induction false} EvaluatorLen(F: Field, base: nat, locs: seq<Elem>, mags: seq<Elem>, s: nat)
    requires IsField(F) && s <= |locs| == |mags|
    requires forall i :: 0 <= i < |locs| ==> locs[i] != 0
    ensures |Evaluator(F, base, locs, mags, s)| <= s
    decreases s
  {
    hide Mul, Add, Scale, IsField, Weight, Locator, OnePlus;
    if s != 0 {
      OnePlusLen(locs[s - 1]);
      EvaluatorLen(F, base, locs, mags, s - 1);
      LocatorShape(F, locs, s - 1);
      StepLen(F, OnePlus(locs[s - 1]), Evaluator(F, base, locs, mags, s - 1), Weight(F, base, locs, mags, s - 1),
              Locator(F, locs, s - 1), s);
    }
  }

  lemma EvalOnePlus(F: Field, a: Elem, y: Elem)
    requires IsField(F)
    ensures Eval(F, OnePlus(a), y) == F.add(F.mul(a, y), 1)
  {
    EvalParts(F, OnePlus(a), y);
    EvalConst(F, a, y);
  }

  /** 1 + X / X_o vanishes for no location but X_o. */
  lemma FactorNonzero(F: Field, x: Elem, xo: Elem)
    requires IsField(F) && xo != 0
    ensures F.add(F.mul(x, F.inv(xo)), 1) == 0 <==> x == xo
  {
    if F.add(F.mul(x, F.inv(xo)), 1) == 0 {
      AddCancel(F, F.mul(x, F.inv(xo)), 1);
      MulAssoc(F, x, F.inv(xo), xo);
    }
  }

  lemma {:induction false} DenominatorNonzero(F: Field, locs: seq<Elem>, o: nat, s: nat)
    requires IsField(F) && o < |locs| && s <= |locs| && Distinct(locs) && locs[o] != 0
    ensures Denominator(F, locs, o, s) != 0
    decreases s
  {
    if s != 0 {
      DenominatorNonzero(F, locs, o, s - 1);
      if s - 1 != o {
        assert locs[s - 1] != locs[o];
        FactorNonzero(F, locs[s - 1], locs[o]);
        MulNonzero(F, Denominator(F, locs, o, s - 1), F.add(F.mul(locs[s - 1], F.inv(locs[o])), 1));
      }
    }
  }

  /** The locator at 1 / X_o: zero once the o-th factor is in, the denominator before. */
  lemma {:induction false} LocatorAt(F: Field, locs: seq<Elem>, o: nat, s: nat)
    requires IsField(F) && o < |locs| && s <= |locs| && locs[o] != 0
    ensures Eval(F, Locator(F, locs, s), F.inv(locs[o]))
            == if o < s then 0 else Denominator(F, locs, o, s)
    decreases s
  {
    hide Mul, Eval;
    var y := F.inv(locs[o]);
    if s == 0 {
      EvalConst(F, 1, y);
    } else {
      LocatorAt(F, locs, o, s - 1);
      EvalMul(F, OnePlus(locs[s - 1]), Locator(F, locs, s - 1), y);
      EvalOnePlus(F, locs[s - 1], y);
      FactorNonzero(F, locs[s - 1], locs[o]);
    }
  }

  lemma EvaluatorStep(F: Field, base: nat, locs: seq<Elem>, mags: seq<Elem>, s: nat, y: Elem)
    requires IsField(F) && 0 < s <= |locs| == |mags|
    ensures Eval(F, Evaluator(F, base, locs, mags, s), y)
            == F.add(F.mul(F.add(F.mul(locs[s - 1], y), 1), Eval(F, Evaluator(F, base, locs, mags, s - 1), y)),
                     F.mul(Weight(F, base, locs, mags, s - 1), Eval(F, Locator(F, locs, s - 1), y)))
  {
    hide Mul, Eval, Add, Scale, Weight, Locator;
    var w, x := Weight(F, base, locs, mags, s - 1), OnePlus(locs[s - 1]);
    var omega, sigma := Evaluator(F, base, locs, mags, s - 1), Locator(F, locs, s - 1);
    EvalAdd(F, Mul(F, x, omega), Scale(F, w, sigma), y);
    EvalMul(F, x, omega, y);
    EvalScale(F, w, sigma, y);
    EvalOnePlus(F, locs[s - 1], y);
  }

  /** The evaluator at 1 / X_o: the weight of error o times the denominator. */
  lemma {:induction false} EvaluatorAt(F: Field, base: nat, locs: seq<Elem>, mags: seq<Elem>,
                                       o: nat, s: nat)
    requires IsField(F) && o < s <= |locs| == |mags| && locs[o] != 0
    ensures Eval(F, Evaluator(F, base, locs, mags, s), F.inv(locs[o]))
            == F.mul(Weight(F, base, locs, mags, o), Denominator(F, locs, o, s))
    decreases s
  {
    hide Eval, Weight, Locator, Evaluator;
    var y := F.inv(locs[o]);
    EvaluatorStep(F, base, locs, mags, s, y);
    LocatorAt(F, locs, o, s - 1);
    FactorNonzero(F, locs[s - 1], locs[o]);
    if o < s - 1 {
      EvaluatorAt(F, base, locs, mags, o, s - 1);
      MulAssoc(F, Weight(F, base, locs, mags, o), Denominator(F, locs, o, s - 1),
               F.add(F.mul(locs[s - 1], y), 1));
    }
  }

  lemma {:induction false} PowerNonzero(F: Field, x: Elem, k: nat)
    requires IsField(F) && x != 0
    ensures Power(F, x, k) != 0
    decreases k
  {
    if k != 0 {
      PowerNonzero(F, x, k - 1);
      MulNonzero(F, x, Power(F, x, k - 1));
    }
  }

  /** At the roots of the locator the evaluator does not vanish. */
  lemma EvaluatorNonzero(F: Field, base: nat, locs: seq<Elem>, mags: seq<Elem>, o: nat)
    requires IsField(F) && IsErrors(locs, mags) && o < |locs|
    ensures Eval(F, Evaluator(F, base, locs, mags, |locs|), F.inv(locs[o])) != 0
  {
    hide Eval, Evaluator;
    EvaluatorAt(F, base, locs, mags, o, |locs|);
    PowerNonzero(F, locs[o], base);
    MulNonzero(F, mags[o], Power(F, locs[o], base));
    DenominatorNonzero(F, locs, o, |locs|);
    MulNonzero(F, Weight(F, base, locs, mags, o), Denominator(F, locs, o, |locs|));
  }

  /** The decoder's formula gives back the magnitude, for codes whose roots start at the
      power 0 or 1. */
  lemma MagnitudeCorrect(F: Field, base: nat, locs: seq<Elem>, mags: seq<Elem>, o: nat)
    requires IsField(F) && IsErrors(locs, mags) && o < |locs| && base <= 1
    ensures Magnitude(F, base, Evaluator(F, base, locs, mags, |locs|), locs, o) == mags[o]
  {
    hide Eval, Evaluator, Denominator;
    var y, w, d := F.inv(locs[o]), Weight(F, base, locs, mags, o), Denominator(F, locs, o, |locs|);
    EvaluatorAt(F, base, locs, mags, o, |locs|);
    DenominatorNonzero(F, locs, o, |locs|);
    MulAssoc(F, w, d, F.inv(d));
    if base == 1 {
      assert Power(F, locs[o], 1) == F.mul(locs[o], Power(F, locs[o], 0));
      MulAssoc(F, mags[o], locs[o], y);
    }
  }

  /** The locator vanishes exactly at the inverses of the locations. */
  lemma {:induction false} LocatorRoots(F: Field, locs: seq<Elem>, s: nat, y: Elem)
    requires IsField(F) && s <= |locs| && y != 0
    requires forall i :: 0 <= i < |locs| ==> locs[i] != 0
    ensures Eval(F, Locator(F, locs, s), y) == 0 <==> exists i :: 0 <= i < s && F.inv(locs[i]) == y
    decreases s
  {
    hide Mul, Eval;
    if s == 0 {
      EvalConst(F, 1, y);
    } else {
      var x, v := locs[s - 1], Eval(F, Locator(F, locs, s - 1), y);
      LocatorRoots(F, locs, s - 1, y);
      EvalMul(F, OnePlus(x), Locator(F, locs, s - 1), y);
      EvalOnePlus(F, x, y);
      InverseInverse(F, y);
      FactorNonzero(F, x, F.inv(y));
      InverseInverse(F, x);
      assert F.inv(x) == y <==> x == F.inv(y);
      if F.add(F.mul(x, y), 1) != 0 && v != 0 {
        MulNonzero(F, F.add(F.mul(x, y), 1), v);
      }
    }
  }
}
