/** The extended Euclidean algorithm of the decoder: what every turn of its loop keeps,
    and why it stops at the locator and the evaluator when the errors are few enough. */
module EuclideanAlgorithm {
  import opened GaloisField
  import opened Polynomials
  import opened ReedSolomonCode
  import opened KeyEquation

  /** Both remainders are combinations u x^T + t S, where the program computes only the t;
      the two pairs of cofactors have determinant one, and the degrees of the t are bounded
      by what the remainders have lost. */
  ghost predicate Meets(F: Field, S: Poly, T: nat, rLast: Poly, r: Poly,
                        tLast: Poly, t: Poly, uLast: Poly, u: Poly)
  {
    && |r| < |rLast|
    && |t| + |rLast| <= T + 2
    && |tLast| + |rLast| <= T + 2
    && rLast == Add(F, Shift(uLast, T), Mul(F, tLast, S))
    && r == Add(F, Shift(u, T), Mul(F, t, S))
    && Add(F, Mul(F, tLast, u), Mul(F, t, uLast)) == Const(1)
  }

  lemma Start(F: Field, S: Poly, T: nat)
    requires IsField(F) && |S| <= T
    ensures Meets(F, S, T, Shift(Const(1), T), S, [], Const(1), Const(1), [])
  {
    hide Add, Mul;
    var one := Const(1);
    MulPolyComm(F, [], S);
    MulZero(F, S);
    AddNil(F, Shift(one, T));
    MulConst(F, 1, S);
    ScaleOne(F, S);
    AddNil(F, S);
    MulZero(F, []);
    MulConst(F, 1, one);
    ScaleOne(F, one);
    AddNil(F, one);
  }

  /** A combination of combinations is one. */
  lemma Combine(F: Field, S: Poly, T: nat, q: Poly, tLast: Poly, t: Poly, uLast: Poly, u: Poly)
    requires IsField(F)
    ensures Add(F, Mul(F, q, Add(F, Shift(u, T), Mul(F, t, S))), Add(F, Shift(uLast, T), Mul(F, tLast, S)))
            == Add(F, Shift(Add(F, Mul(F, q, u), uLast), T), Mul(F, Add(F, Mul(F, q, t), tLast), S))
  {
    hide Add, Mul, Shift;
    MulAddRight(F, q, Shift(u, T), Mul(F, t, S));
    ShiftMul(F, u, T, q);
    MulPolyAssoc(F, q, t, S);
    AddPolySwap(F, Shift(Mul(F, q, u), T), Mul(F, Mul(F, q, t), S), Shift(uLast, T), Mul(F, tLast, S));
    ShiftAdd(F, Mul(F, q, u), uLast, T);
    MulAddLeft(F, Mul(F, q, t), tLast, S);
  }

  lemma Determinant(F: Field, q: Poly, tLast: Poly, t: Poly, uLast: Poly, u: Poly)
    requires IsField(F)
    ensures Add(F, Mul(F, t, Add(F, Mul(F, q, u), uLast)), Mul(F, Add(F, Mul(F, q, t), tLast), u))
            == Add(F, Mul(F, tLast, u), Mul(F, t, uLast))
  {
    hide Add, Mul;
    var tqu := Mul(F, t, Mul(F, q, u));
    MulAddRight(F, t, Mul(F, q, u), uLast);
    MulAddLeft(F, Mul(F, q, t), tLast, u);
    MulPolyAssoc(F, q, t, u);
    MulLeftSwap(F, q, t, u);
    AddPolySwap(F, tqu, Mul(F, t, uLast), tqu, Mul(F, tLast, u));
    AddPolySelf(F, tqu);
    AddNil(F, Add(F, Mul(F, t, uLast), Mul(F, tLast, u)));
    AddPolyComm(F, Mul(F, t, uLast), Mul(F, tLast, u));
  }

  /** The degree of the quotient is what the division took off. */
  lemma QuotientLen(F: Field, p: Poly, d: Poly)
    requires IsField(F) && d != [] && |d| <= |p|
    ensures |Divide(F, p, d).0| == |p| - |d| + 1
  {
    hide Add, Mul, Divide;
    DivideCorrect(F, p, d);
    var q, r := Divide(F, p, d).0, Divide(F, p, d).1;
    if q == [] {
      MulPolyComm(F, q, d);
      MulZero(F, d);
      AddNil(F, r);
    } else {
      MulLen(F, q, d);
      AddLen(F, Mul(F, q, d), r);
    }
  }

  /** One turn of the loop keeps the invariant. */
  lemma Turn(F: Field, S: Poly, T: nat, rLast: Poly, r: Poly, tLast: Poly, t: Poly, uLast: Poly, u: Poly)
    requires IsField(F) && r != [] && Meets(F, S, T, rLast, r, tLast, t, uLast, u)
    ensures var q, r' := Divide(F, rLast, r).0, Divide(F, rLast, r).1;
            Meets(F, S, T, r, r', t, Add(F, Mul(F, q, t), tLast), u, Add(F, Mul(F, q, u), uLast))
  {
    hide Add, Mul, Divide, Shift;
    var q, r' := Divide(F, rLast, r).0, Divide(F, rLast, r).1;
    DivideCorrect(F, rLast, r);
    QuotientLen(F, rLast, r);
    AddPolyComm(F, Mul(F, q, r), r');
    AddMove(F, r', Mul(F, q, r), rLast);
    AddPolyComm(F, Mul(F, q, r), rLast);
    Combine(F, S, T, q, tLast, t, uLast, u);
    Determinant(F, q, tLast, t, uLast, u);
    if t == [] {
      MulZero(F, q);
    } else {
      MulLen(F, q, t);
    }
    AddLen(F, Mul(F, q, t), tLast);
  }

  /** Whatever the received word, a returned pair satisfies sigma * S == omega modulo x^T,
      sigma is one at zero, of degree at most T, and the degree of omega is below half. */
  lemma {:induction false} LoopMeetsKeyEquation(F: Field, S: Poly, T: nat, rLast: Poly, r: Poly,
      tLast: Poly, t: Poly, uLast: Poly, u: Poly, half: nat) returns (a: Poly)
    requires IsField(F) && Meets(F, S, T, rLast, r, tLast, t, uLast, u)
    requires EuclidLoop(F, rLast, r, tLast, t, half).Stopped?
    ensures var Stopped(sigma, omega) := EuclidLoop(F, rLast, r, tLast, t, half);
            && Mul(F, sigma, S) == Add(F, omega, Shift(a, T))
            && Hd(sigma) == 1 && Degree(omega) < half && |sigma| <= T + 1
    decreases Degree(r)
  {
    hide Add, Mul, Shift, Divide, Scale;
    if Degree(r) < half {
      var c := F.inv(Hd(t));
      a := Scale(F, c, u);
      AddPolyComm(F, Shift(u, T), Mul(F, t, S));
      AddMove(F, Mul(F, t, S), Shift(u, T), r);
      MulScale(F, c, t, S);
      ScaleAdd(F, c, r, Shift(u, T));
      MulConst(F, c, Shift(u, T));
      ShiftMul(F, u, T, Const(c));
      MulConst(F, c, u);
      ScaleParts(F, c, t);
      ScaleLen(F, c, r);
      ScaleLen(F, c, t);
    } else {
      var q, r' := Divide(F, rLast, r).0, Divide(F, rLast, r).1;
      Turn(F, S, T, rLast, r, tLast, t, uLast, u);
      a := LoopMeetsKeyEquation(F, S, T, r, r', t, Add(F, Mul(F, q, t), tLast),
                                u, Add(F, Mul(F, q, u), uLast), half);
    }
  }

  lemma RunMeetsKeyEquation(F: Field, S: Poly, T: nat) returns (a: Poly)
    requires IsField(F) && 0 < T && |S| <= T
    requires RunEuclid(F, Shift(Const(1), T), S, T).Stopped?
    ensures var Stopped(sigma, omega) := RunEuclid(F, Shift(Const(1), T), S, T);
            && Mul(F, sigma, S) == Add(F, omega, Shift(a, T))
            && Hd(sigma) == 1 && Degree(omega) < T / 2 && |sigma| <= T + 1
  {
    Start(F, S, T);
    a := LoopMeetsKeyEquation(F, S, T, Shift(Const(1), T), S, [], Const(1), Const(1), [], T / 2);
  }

  // ---- Few errors

  /** The locator divides every polynomial that vanishes at its roots. */
  lemma LocatorDivides(F: Field, locs: seq<Elem>, p: Poly) returns (m: Poly)
    requires IsField(F) && Distinct(locs)
    requires forall i :: 0 <= i < |locs| ==> locs[i] != 0 && Eval(F, p, F.inv(locs[i])) == 0
    ensures p == Mul(F, m, Locator(F, locs, |locs|))
  {
    hide Mul, Eval, Scale, RootProduct, Locator;
    var sigma := Locator(F, locs, |locs|);
    var roots := seq<Elem>(|locs|, i requires 0 <= i < |locs| => F.inv(locs[i]));
    forall i, j | 0 <= i < j < |roots| ensures roots[i] != roots[j] {
      InverseInverse(F, locs[i]);
      InverseInverse(F, locs[j]);
    }
    forall i | 0 <= i < |roots| ensures Eval(F, sigma, roots[i]) == 0 {
      LocatorAt(F, locs, i, |locs|);
    }
    var m0 := RootsDivide(F, p, roots);
    var k := RootsDivide(F, sigma, roots);
    LocatorShape(F, locs, |locs|);
    RootProductLen(F, roots);
    if k == [] {
      MulPolyComm(F, k, RootProduct(F, roots));
      MulZero(F, RootProduct(F, roots));
    } else {
      MulLen(F, k, RootProduct(F, roots));
    }
    // k is a nonzero constant, so the root product is the locator scaled
    var c := F.inv(k[0]);
    assert k == Const(k[0]);
    MulConst(F, k[0], RootProduct(F, roots));
    ScaleScale(F, c, k[0], RootProduct(F, roots));
    ScaleOne(F, RootProduct(F, roots));
    m := Scale(F, c, m0);
    MulScale(F, c, m0, sigma);
    MulPolyComm(F, m0, sigma);
    MulScale(F, c, sigma, m0);
    MulPolyComm(F, Scale(F, c, sigma), m0);
  }

  /** What the key equation and a remainder imply: sigma r + t omega is a multiple of x^T. */
  lemma CrossProduct(F: Field, S: Poly, T: nat, sigma: Poly, omega: Poly, a: Poly, r: Poly, t: Poly, u: Poly)
    requires IsField(F)
    requires Mul(F, sigma, S) == Add(F, omega, Shift(a, T))
    requires r == Add(F, Shift(u, T), Mul(F, t, S))
    ensures Add(F, Mul(F, sigma, r), Mul(F, t, omega))
            == Shift(Add(F, Mul(F, sigma, u), Mul(F, t, a)), T)
  {
    hide Add, Mul, Shift;
    var x, y, z := Shift(Mul(F, sigma, u), T), Mul(F, t, omega), Shift(Mul(F, t, a), T);
    MulAddRight(F, sigma, Shift(u, T), Mul(F, t, S));
    ShiftMul(F, u, T, sigma);
    MulLeftSwap(F, sigma, t, S);
    MulAddRight(F, t, omega, Shift(a, T));
    ShiftMul(F, a, T, t);
    AddDrop(F, x, y, z);
    ShiftAdd(F, Mul(F, sigma, u), Mul(F, t, a), T);
  }

  lemma ProductLenBound(F: Field, p: Poly, q: Poly, n: nat)
    requires IsField(F) && |p| + |q| <= n + 1
    ensures |Mul(F, p, q)| <= n
  {
    hide Mul;
    if p == [] {
      MulPolyComm(F, p, q);
      MulZero(F, q);
    } else if q == [] {
      MulZero(F, p);
    } else {
      MulLen(F, p, q);
    }
  }

  /** At the end of the loop the cofactor is the locator up to a constant. */
  lemma Endpoint(F: Field, base: nat, locs: seq<Elem>, mags: seq<Elem>, S: Poly, a: Poly, T: nat,
                 rLast: Poly, r: Poly, tLast: Poly, t: Poly, uLast: Poly, u: Poly) returns (c: Elem)
    requires IsField(F) && IsErrors(locs, mags) && |locs| <= T / 2
    requires Mul(F, Locator(F, locs, |locs|), S)
             == Add(F, Evaluator(F, base, locs, mags, |locs|), Shift(a, T))
    requires Meets(F, S, T, rLast, r, tLast, t, uLast, u)
    requires |r| <= T / 2 < |rLast|
    ensures c != 0
    ensures t == Scale(F, c, Locator(F, locs, |locs|))
    ensures r == Scale(F, c, Evaluator(F, base, locs, mags, |locs|))
  {
    hide Add, Mul, Shift, Scale, Eval, Locator, Evaluator;
    var n := |locs|;
    var sigma, omega := Locator(F, locs, n), Evaluator(F, base, locs, mags, n);
    LocatorShape(F, locs, n);
    EvaluatorLen(F, base, locs, mags, n);
    CrossProduct(F, S, T, sigma, omega, a, r, t, u);
    ProductLenBound(F, sigma, r, T);
    ProductLenBound(F, t, omega, T);
    AddLen(F, Mul(F, sigma, r), Mul(F, t, omega));
    var rest := Add(F, Mul(F, sigma, u), Mul(F, t, a));
    assert rest == [];
    AddZero(F, Mul(F, sigma, r), Mul(F, t, omega));
    AddZero(F, Mul(F, sigma, u), Mul(F, t, a));
    forall i | 0 <= i < n ensures Eval(F, t, F.inv(locs[i])) == 0 {
      var y := F.inv(locs[i]);
      EvalMul(F, sigma, r, y);
      EvalMul(F, t, omega, y);
      LocatorAt(F, locs, i, n);
      EvaluatorNonzero(F, base, locs, mags, i);
      if Eval(F, t, y) != 0 {
        MulNonzero(F, Eval(F, t, y), Eval(F, omega, y));
      }
    }
    var m := LocatorDivides(F, locs, t);
    MulPolyComm(F, m, sigma);
    MulPolyAssoc(F, sigma, m, omega);
    MulCancel(F, sigma, r, Mul(F, m, omega));
    MulPolyAssoc(F, sigma, m, a);
    MulCancel(F, sigma, u, Mul(F, m, a));
    c := UnitFactor(F, m, sigma, a, tLast, t, uLast, u);
    MulConst(F, c, sigma);
    MulConst(F, c, omega);
  }

  /** A common factor of t and u divides the determinant, so it is a constant. */
  lemma UnitFactor(F: Field, m: Poly, sigma: Poly, a: Poly, tLast: Poly, t: Poly, uLast: Poly, u: Poly)
    returns (c: Elem)
    requires IsField(F) && t == Mul(F, m, sigma) && u == Mul(F, m, a)
    requires Add(F, Mul(F, tLast, u), Mul(F, t, uLast)) == Const(1)
    ensures c != 0 && m == Const(c)
  {
    hide Add, Mul;
    var rest := Add(F, Mul(F, tLast, a), Mul(F, sigma, uLast));
    MulLeftSwap(F, tLast, m, a);
    MulPolyAssoc(F, m, sigma, uLast);
    MulAddRight(F, m, Mul(F, tLast, a), Mul(F, sigma, uLast));
    assert Mul(F, m, rest) == Const(1);
    if m == [] {
      MulPolyComm(F, m, rest);
      MulZero(F, rest);
    } else if rest == [] {
      MulZero(F, m);
    } else {
      MulLen(F, m, rest);
    }
    c := m[0];
    assert m == Const(c);
  }

  /** With at most T / 2 errors, and at least one, the loop ends with exactly the locator
      and the evaluator. */
  lemma {:induction false} LoopFindsErrors(F: Field, base: nat, locs: seq<Elem>, mags: seq<Elem>, S: Poly,
      a: Poly, T: nat, rLast: Poly, r: Poly, tLast: Poly, t: Poly, uLast: Poly, u: Poly)
    requires IsField(F) && IsErrors(locs, mags) && 1 <= |locs| <= T / 2
    requires Mul(F, Locator(F, locs, |locs|), S)
             == Add(F, Evaluator(F, base, locs, mags, |locs|), Shift(a, T))
    requires Meets(F, S, T, rLast, r, tLast, t, uLast, u)
    requires T / 2 < |rLast|
    ensures EuclidLoop(F, rLast, r, tLast, t, T / 2)
            == Stopped(Locator(F, locs, |locs|), Evaluator(F, base, locs, mags, |locs|))
    decreases Degree(r)
  {
    hide Add, Mul, Shift, Divide, Scale, Locator, Evaluator;
    if Degree(r) < T / 2 {
      var sigma, omega := Locator(F, locs, |locs|), Evaluator(F, base, locs, mags, |locs|);
      var c := Endpoint(F, base, locs, mags, S, a, T, rLast, r, tLast, t, uLast, u);
      LocatorShape(F, locs, |locs|);
      ScaleParts(F, c, sigma);
      ScaleScale(F, F.inv(c), c, sigma);
      ScaleScale(F, F.inv(c), c, omega);
      ScaleOne(F, sigma);
      ScaleOne(F, omega);
    } else {
      var q, r' := Divide(F, rLast, r).0, Divide(F, rLast, r).1;
      Turn(F, S, T, rLast, r, tLast, t, uLast, u);
      LoopFindsErrors(F, base, locs, mags, S, a, T, r, r', t, Add(F, Mul(F, q, t), tLast),
                      u, Add(F, Mul(F, q, u), uLast));
    }
  }

  lemma RunFindsErrors(F: Field, base: nat, locs: seq<Elem>, mags: seq<Elem>, T: nat, S: Poly)
    requires IsField(F) && IsErrors(locs, mags) && 1 <= |locs| <= T / 2
    requires |S| <= T && S == SyndromePoly(F, base, locs, mags, |locs|, T)
    ensures RunEuclid(F, Shift(Const(1), T), S, T)
            == Stopped(Locator(F, locs, |locs|), Evaluator(F, base, locs, mags, |locs|))
  {
    hide Add, Mul, Locator, Evaluator, SyndromePoly, EuclidLoop;
    var a := KeyEquationHolds(F, base, locs, mags, |locs|, T);
    Start(F, S, T);
    LoopFindsErrors(F, base, locs, mags, S, a, T, Shift(Const(1), T), S, [], Const(1), Const(1), []);
  }
}
