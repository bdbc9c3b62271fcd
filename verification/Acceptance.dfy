/** What it means that the decoder accepts a word.  It does not mean that the result is a
    word of the code: the program never checks its repair.  The repair is right exactly when
    the evaluator is of smaller degree than the locator, which the program does not test. */
module Acceptance {
  import opened GaloisField
  import opened Polynomials
  import opened ReedSolomonCode
  import opened SystematicCode
  import opened KeyEquation
  import opened EuclideanAlgorithm
  import opened ErrorCorrection

  /** The syndromes vanish, or the evaluator has fewer coefficients than the locator. */
  predicate EvaluatorFits(F: Field, base: nat, w: seq<Elem>, t: nat)
    requires IsField(F)
  {
    var s := Syndromes(F, base, w, t);
    AllZero(s) ||
    match RunEuclid(F, Shift(Const(1), t), Val(s), t)
    case Stuck => false
    case Stopped(sigma, omega) => |omega| <= Degree(sigma)
  }

  // ---- The locations found

  ghost predicate AreRoots(F: Field, sigma: Poly, locs: seq<Elem>, o: nat) {
    && Distinct(locs)
    && (forall i :: 0 <= i < |locs| ==>
          locs[i] != 0 && Eval(F, sigma, F.inv(locs[i])) == 0 && F.inv(locs[i]) < o)
  }

  lemma {:induction false} ScanSound(F: Field, sigma: Poly, o: nat, want: nat, found: seq<Elem>)
    requires IsField(F) && 1 <= o <= 256 && AreRoots(F, sigma, found, o)
    ensures AreRoots(F, sigma, RootScan(F, sigma, o, want, found), 256)
    decreases 256 - o
  {
    hide Eval;
    if o < 256 && |found| < want {
      if Eval(F, sigma, o) == 0 {
        InverseInverse(F, o);
        var next := found + [F.inv(o)];
        forall i, j | 0 <= i < j < |next| ensures next[i] != next[j] {
          assert F.inv(next[i]) < o;
        }
        ScanSound(F, sigma, o + 1, want, next);
      } else {
        ScanSound(F, sigma, o + 1, want, found);
      }
    }
  }

  /** Located errors determine the locator. */
  lemma LocatedGivesLocator(F: Field, sigma: Poly, locs: seq<Elem>)
    requires IsField(F) && Hd(sigma) == 1 && ErrorLocations(F, sigma) == Located(locs)
    ensures Distinct(locs) && |locs| == Degree(sigma)
    ensures forall i :: 0 <= i < |locs| ==> locs[i] != 0
    ensures sigma == Locator(F, locs, |locs|)
  {
    hide Mul, Eval, Locator, Scale;
    if Degree(sigma) == 1 {
      assert sigma == OnePlus(locs[0]);
      assert Locator(F, locs, 1) == Mul(F, OnePlus(locs[0]), Const(1)) by { LocatorOfOne(F, locs); }
      MulConst(F, 1, OnePlus(locs[0]));
      ScaleOne(F, OnePlus(locs[0]));
    } else {
      ScanSound(F, sigma, 1, Degree(sigma), []);
      var m := LocatorDivides(F, locs, sigma);
      LocatorShape(F, locs, |locs|);
      var l := Locator(F, locs, |locs|);
      if m == [] {
        MulPolyComm(F, m, l);
        MulZero(F, l);
      } else {
        MulLen(F, m, l);
      }
      assert m == Const(m[0]);
      MulConst(F, m[0], l);
      ScaleParts(F, m[0], l);
      ScaleOne(F, l);
    }
  }

  lemma LocatorOfOne(F: Field, locs: seq<Elem>)
    requires 1 <= |locs|
    ensures Locator(F, locs, 1) == Mul(F, OnePlus(locs[0]), Const(1))
  {
  }

  // ---- The repaired word

  lemma {:induction false} EvalAddAt(F: Field, w: seq<Elem>, p: nat, v: Elem, x: Elem)
    requires IsField(F) && p < |w|
    ensures Eval(F, Val(w[p := F.add(w[p], v)]), x)
            == F.add(Eval(F, Val(w), x), F.mul(v, Power(F, x, |w| - 1 - p)))
  {
    hide Eval, Val;
    var z := w[p := 0];
    var q := Power(F, x, |w| - 1 - p);
    assert z[p := w[p]] == w;
    EvalSet(F, z, p, w[p], x);
    assert z[p := F.add(w[p], v)] == w[p := F.add(w[p], v)];
    EvalSet(F, z, p, F.add(w[p], v), x);
    Distribute(F, q, w[p], v);
    AddAssoc(F, Eval(F, Val(z), x), F.mul(w[p], q), F.mul(v, q));
  }

  lemma {:induction false} ErrorSumShift(F: Field, locs: seq<Elem>, mags: seq<Elem>, s: nat, m: nat)
    requires IsField(F) && 0 < s <= |locs| == |mags|
    ensures ErrorSum(F, locs, mags, s, m)
            == F.add(F.mul(mags[0], Power(F, locs[0], m)), ErrorSum(F, locs[1..], mags[1..], s - 1, m))
    decreases s
  {
    hide Power;
    if s > 1 {
      ErrorSumShift(F, locs, mags, s - 1, m);
      AddAssoc(F, F.mul(mags[0], Power(F, locs[0], m)), ErrorSum(F, locs[1..], mags[1..], s - 2, m),
               F.mul(mags[s - 1], Power(F, locs[s - 1], m)));
    }
  }

  /** A completed repair adds to every value of the word what the errors account for. */
  lemma {:induction false} RepairAdds(F: Field, w: seq<Elem>, locs: seq<Elem>, mags: seq<Elem>, m: nat)
    requires IsField(F) && |locs| == |mags| && Repair(F, w, locs, mags).ok
    requires forall i :: 0 <= i < |locs| ==> locs[i] != 0
    ensures Eval(F, Val(Repair(F, w, locs, mags).word), F.exp(m))
            == F.add(Eval(F, Val(w), F.exp(m)), ErrorSum(F, locs, mags, |locs|, m))
    decreases |locs|
  {
    hide Eval, Val, Power;
    if locs != [] {
      var p := Position(F, |w|, locs[0]);
      LocationInverse(F, |w|, locs[0]);
      var w' := w[p := F.add(w[p], mags[0])];
      RepairAdds(F, w', locs[1..], mags[1..], m);
      EvalAddAt(F, w, p, mags[0], F.exp(m));
      PowerExp(F, m, |w| - 1 - p);
      PowerExp(F, |w| - 1 - p, m);
      assert m * (|w| - 1 - p) == (|w| - 1 - p) * m;
      ErrorSumShift(F, locs, mags, |locs|, m);
      AddAssoc(F, Eval(F, Val(w), F.exp(m)), F.mul(mags[0], Power(F, locs[0], m)),
               ErrorSum(F, locs[1..], mags[1..], |locs| - 1, m));
    }
  }

  /** The result is a codeword exactly when the supposed errors have the syndromes received. */
  lemma CodewordWhenSyndromesAgree(F: Field, base: nat, w: seq<Elem>, locs: seq<Elem>, mags: seq<Elem>, t: nat)
    requires IsField(F) && |locs| == |mags| && Repair(F, w, locs, mags).ok
    requires forall i :: 0 <= i < |locs| ==> locs[i] != 0
    ensures IsCodeword(F, base, Repair(F, w, locs, mags).word, t)
            <==> Syndromes(F, base, w, t) == ErrorSyndromes(F, base, locs, mags, |locs|, t)
  {
    hide Eval, Val, Repair, ErrorSum, IsField;
    var w' := Repair(F, w, locs, mags).word;
    var s, r := Syndromes(F, base, w, t), ErrorSyndromes(F, base, locs, mags, |locs|, t);
    forall k: nat | k < t ensures HasRoot(F, base, w', k) <==> s[t - 1 - k] == r[t - 1 - k] {
      RepairAdds(F, w, locs, mags, k + base);
      SumZeroIff(F, Eval(F, Val(w), F.exp(k + base)), ErrorSum(F, locs, mags, |locs|, k + base));
      assert t - 1 - (t - 1 - k) == k;
    }
    if IsCodeword(F, base, w', t) {
      forall i | 0 <= i < t ensures s[i] == r[i] {
        assert HasRoot(F, base, w', t - 1 - i);
      }
    }
  }

  lemma SumZeroIff(F: Field, a: Elem, b: Elem)
    requires IsField(F)
    ensures F.add(a, b) == 0 <==> a == b
  {
    AddCancel(F, a, b);
  }

  // ---- Comparing the two key equations

  lemma HdMul(F: Field, p: Poly, q: Poly)
    requires IsField(F)
    ensures Hd(Mul(F, p, q)) == F.mul(Hd(p), Hd(q))
  {
    hide Mul, Eval;
    EvalMul(F, p, q, 0);
    EvalAtZero(F, p);
    EvalAtZero(F, q);
    EvalAtZero(F, Mul(F, p, q));
  }

  lemma ShiftParts(a: Poly, t: nat)
    requires 0 < t
    ensures Hd(Shift(a, t)) == 0 && Tl(Shift(a, t)) == Shift(a, t - 1)
  {
  }

  /** A factor that is not zero at zero cannot supply powers of x. */
  lemma {:induction false} NoPowersOfX(F: Field, sigma: Poly, p: Poly, a: Poly, t: nat)
    requires IsField(F) && Hd(sigma) != 0 && |p| <= t && Mul(F, sigma, p) == Shift(a, t)
    ensures p == []
    decreases t
  {
    hide Mul, Shift, IsField;
    if p != [] {
      HdMul(F, sigma, p);
      ShiftParts(a, t);
      if Hd(p) != 0 {
        MulNonzero(F, Hd(sigma), Hd(p));
      }
      Rebuild(p);
      MulX(F, Tl(p), sigma);
      NoPowersOfX(F, sigma, Tl(p), a, t - 1);
    }
  }

  lemma {:induction false} ValInjective(v: seq<Elem>, w: seq<Elem>)
    requires |v| == |w| && Val(v) == Val(w)
    ensures v == w
  {
    DigitsVal(v);
    DigitsVal(w);
  }

  /** The difference of two solutions of one key equation. */
  lemma KeyDifference(F: Field, sigma: Poly, S: Poly, S': Poly, x: Poly, y: Poly, a: Poly, b: Poly, t: nat)
    requires IsField(F)
    requires Mul(F, sigma, S) == Add(F, x, Shift(a, t))
    requires Mul(F, sigma, S') == Add(F, y, Shift(b, t))
    ensures Mul(F, sigma, Add(F, S, S')) == Add(F, Add(F, x, y), Shift(Add(F, a, b), t))
  {
    hide Mul, Add, Shift, IsField;
    MulAddRight(F, sigma, S, S');
    AddPolySwap(F, x, Shift(a, t), y, Shift(b, t));
    ShiftAdd(F, a, b, t);
  }

  lemma ZeroTogether(F: Field, sigma: Poly, e: Poly, z: Poly, c: Poly, t: nat)
    requires IsField(F) && Hd(sigma) != 0 && |e| <= t && |z| <= t
    requires Mul(F, sigma, e) == Add(F, z, Shift(c, t))
    ensures e == [] <==> z == []
  {
    hide Mul, Add, Shift, IsField;
    if e == [] {
      MulZero(F, sigma);
      AddZero(F, z, Shift(c, t));
    } else if z == [] {
      AddNil(F, Shift(c, t));
      NoPowersOfX(F, sigma, e, c, t);
    }
  }

  lemma EqualWhenSumZero(F: Field, p: Poly, q: Poly)
    requires IsField(F)
    ensures p == q <==> Add(F, p, q) == []
  {
    hide Add, IsField;
    if p == q {
      AddPolySelf(F, p);
    } else if Add(F, p, q) == [] {
      AddZero(F, p, q);
    }
  }

  lemma DifferencesVanish(F: Field, sigma: Poly, S: Poly, S': Poly, x: Poly, y: Poly, a: Poly, b: Poly, t: nat)
    requires IsField(F) && Hd(sigma) != 0 && |S| <= t && |S'| <= t && |x| <= t && |y| <= t
    requires Mul(F, sigma, S) == Add(F, x, Shift(a, t))
    requires Mul(F, sigma, S') == Add(F, y, Shift(b, t))
    ensures Add(F, S, S') == [] <==> Add(F, x, y) == []
  {
    hide *;
    KeyDifference(F, sigma, S, S', x, y, a, b, t);
    AddWithin(F, S, S', t);
    AddWithin(F, x, y, t);
    ZeroTogether(F, sigma, Add(F, S, S'), Add(F, x, y), Add(F, a, b), t);
  }

  /** Two solutions of one key equation, x and y, agree exactly when their syndromes do. */
  lemma SameSyndromes(F: Field, sigma: Poly, S: Poly, S': Poly, x: Poly, y: Poly, a: Poly, b: Poly, t: nat)
    requires IsField(F) && Hd(sigma) != 0 && |S| <= t && |S'| <= t && |x| <= t && |y| <= t
    requires Mul(F, sigma, S) == Add(F, x, Shift(a, t))
    requires Mul(F, sigma, S') == Add(F, y, Shift(b, t))
    ensures S == S' <==> x == y
  {
    hide *;
    DifferencesVanish(F, sigma, S, S', x, y, a, b, t);
    EqualWhenSumZero(F, S, S');
    EqualWhenSumZero(F, x, y);
  }

  /** The evaluator rebuilt from the computed magnitudes takes the values of omega at the
      inverse locations, whatever omega is. */
  lemma RebuiltEvaluatorAt(F: Field, base: nat, omega: Poly, locs: seq<Elem>, o: nat)
    requires IsField(F) && base <= 1 && Distinct(locs) && o < |locs|
    requires forall i :: 0 <= i < |locs| ==> locs[i] != 0
    ensures Eval(F, Evaluator(F, base, locs, Magnitudes(F, base, omega, locs), |locs|), F.inv(locs[o]))
            == Eval(F, omega, F.inv(locs[o]))
  {
    hide Eval, Evaluator, Denominator;
    var mags := Magnitudes(F, base, omega, locs);
    var xi, d := F.inv(locs[o]), Denominator(F, locs, o, |locs|);
    var e := Eval(F, omega, xi);
    EvaluatorAt(F, base, locs, mags, o, |locs|);
    DenominatorNonzero(F, locs, o, |locs|);
    var w := Weight(F, base, locs, mags, o);
    assert w == F.mul(e, F.inv(d)) by {
      if base == 1 {
        assert Power(F, locs[o], 1) == F.mul(locs[o], Power(F, locs[o], 0));
        MulAssoc(F, F.mul(e, F.inv(d)), xi, locs[o]);
      }
    }
    MulAssoc(F, e, F.inv(d), d);
  }

  /** omega is the rebuilt evaluator exactly when it is short enough to be one. */
  lemma RebuiltEvaluator(F: Field, base: nat, omega: Poly, locs: seq<Elem>)
    requires IsField(F) && base <= 1 && Distinct(locs)
    requires forall i :: 0 <= i < |locs| ==> locs[i] != 0
    ensures omega == Evaluator(F, base, locs, Magnitudes(F, base, omega, locs), |locs|)
            <==> |omega| <= |locs|
  {
    hide Eval, Evaluator, Magnitudes, Add;
    var ev := Evaluator(F, base, locs, Magnitudes(F, base, omega, locs), |locs|);
    EvaluatorLen(F, base, locs, Magnitudes(F, base, omega, locs), |locs|);
    if |omega| <= |locs| {
      var e := Add(F, omega, ev);
      var roots := seq<Elem>(|locs|, i requires 0 <= i < |locs| => F.inv(locs[i]));
      forall i, j | 0 <= i < j < |roots| ensures roots[i] != roots[j] {
        InverseInverse(F, locs[i]);
        InverseInverse(F, locs[j]);
      }
      forall i | 0 <= i < |roots| ensures Eval(F, e, roots[i]) == 0 {
        RebuiltEvaluatorAt(F, base, omega, locs, i);
        EvalAdd(F, omega, ev, roots[i]);
      }
      AddLen(F, omega, ev);
      if e != [] {
        RootsBounded(F, e, roots);
      }
      AddZero(F, omega, ev);
    }
  }

  /** An accepted word is a word of the code if and only if the evaluator fits. */
  lemma AcceptedIsCodeword(F: Field, base: nat, w: seq<Elem>, t: nat)
    requires IsField(F) && base <= 1 && Decode(F, base, w, t).ok
    ensures IsCodeword(F, base, Decode(F, base, w, t).word, t) <==> EvaluatorFits(F, base, w, t)
  {
    hide Eval, Val, Locator, Evaluator, RunEuclid, Repair, SyndromePoly, Magnitudes, ErrorLocations, Mul, Add, ErrorSum;
    var s := Syndromes(F, base, w, t);
    SyndromesDecide(F, base, w, t);
    if !AllZero(s) {
      var Stopped(sigma, omega) := RunEuclid(F, Shift(Const(1), t), Val(s), t);
      var Located(locs) := ErrorLocations(F, sigma);
      var mags := Magnitudes(F, base, omega, locs);
      ValLen(s);
      var a := RunMeetsKeyEquation(F, Val(s), t);
      LocatedGivesLocator(F, sigma, locs);
      CodewordWhenSyndromesAgree(F, base, w, locs, mags, t);
      var r := ErrorSyndromes(F, base, locs, mags, |locs|, t);
      ValErrorSyndromes(F, base, locs, mags, |locs|, t);
      ValLen(r);
      var b := KeyEquationHolds(F, base, locs, mags, |locs|, t);
      EvaluatorLen(F, base, locs, mags, |locs|);
      SameSyndromes(F, sigma, Val(s), Val(r), omega, Evaluator(F, base, locs, mags, |locs|), a, b, t);
      RebuiltEvaluator(F, base, omega, locs);
      if Val(s) == Val(r) {
        ValInjective(s, r);
      }
    }
  }

  /** A word that is accepted unchanged although it is no word of the code: its polynomial
      has all the roots of the code but the first.  There is one of every length. */
  lemma AcceptedWrongly(F: Field, base: nat, t: nat, n: nat)
    requires IsField(F) && 2 <= t <= n <= 255
    ensures var w := Digits(Generator(F, base + 1, t - 1), n);
            Decode(F, base, w, t) == Outcome(true, w) && !IsCodeword(F, base, w, t)
            && !EvaluatorFits(F, base, w, t)
  {
    hide Eval, Val, Generator, Digits, Mul, Add, Scale;
    var g := Generator(F, base + 1, t - 1);
    var w := Digits(g, n);
    GeneratorLen(F, base + 1, t - 1);
    ValDigits(g, n);
    var s := Syndromes(F, base, w, t);
    forall i | 0 <= i < t - 1 ensures s[i] == 0 {
      GeneratorRoots(F, base + 1, t - 1, t - 2 - i);
      assert (t - 2 - i) + (base + 1) == t - 1 - i + base;
    }
    if s[t - 1] == 0 {
      MoreRootsThanDegree(F, g, base, t);
    }
    ValOfLast(s);
    ScaleOne(F, Const(1));
    assert Scale(F, F.inv(1), Const(1)) == Const(1) by { InverseUnique(F, 1, 1); }
    assert RunEuclid(F, Shift(Const(1), t), Const(s[t - 1]), t)
        == Finish(F, Const(s[t - 1]), Const(1)) == Stopped(Const(1), Scale(F, F.inv(1), Const(s[t - 1])));
    ScaleLen(F, F.inv(1), Const(s[t - 1]));
    SyndromesDecide(F, base, w, t);
  }

  lemma {:induction false} ValOfLast(s: seq<Elem>)
    requires s != [] && forall i :: 0 <= i < |s| - 1 ==> s[i] == 0
    ensures Val(s) == Const(s[|s| - 1])
  {
    var n := |s| - 1;
    assert s[..n] == Zeros(n);
    ValZeros(n);
  }

  /** A polynomial of degree t - 1 cannot have the t roots of the code. */
  lemma MoreRootsThanDegree(F: Field, g: Poly, base: nat, t: nat)
    requires IsField(F) && 1 <= t <= 255 && |g| == t && g == Generator(F, base + 1, t - 1)
    ensures Eval(F, g, F.exp(base)) != 0
  {
    hide Eval, Generator;
    if Eval(F, g, F.exp(base)) == 0 {
      var r := ConsecutivePowers(F, base, t);
      PowersDistinct(F, base, t);
      forall i | 0 <= i < t ensures Eval(F, g, r[i]) == 0 {
        if i > 0 {
          GeneratorRoots(F, base + 1, t - 1, i - 1);
          assert (i - 1) + (base + 1) == i + base;
        }
      }
      RootsBounded(F, g, r);
    }
  }

  // ---- How far a repair goes

  /** The degree of the locator is what the loop took off, which is at most half of T rounded up. */
  lemma {:induction false} LoopBoundsLocator(F: Field, S: Poly, T: nat, rLast: Poly, r: Poly,
      tLast: Poly, t: Poly, uLast: Poly, u: Poly, half: nat)
    requires IsField(F) && Meets(F, S, T, rLast, r, tLast, t, uLast, u) && half < |rLast|
    requires EuclidLoop(F, rLast, r, tLast, t, half).Stopped?
    ensures |EuclidLoop(F, rLast, r, tLast, t, half).sigma| + half <= T + 1
    decreases Degree(r)
  {
    hide Add, Mul, Shift, Divide, Scale;
    if Degree(r) < half {
      ScaleLen(F, F.inv(Hd(t)), t);
    } else {
      var q, r' := Divide(F, rLast, r).0, Divide(F, rLast, r).1;
      Turn(F, S, T, rLast, r, tLast, t, uLast, u);
      LoopBoundsLocator(F, S, T, r, r', t, Add(F, Mul(F, q, t), tLast), u, Add(F, Mul(F, q, u), uLast), half);
    }
  }

  /** A repair changes no more places than there are locations. */
  lemma {:induction false} RepairChanges(F: Field, w: seq<Elem>, locs: seq<Elem>, mags: seq<Elem>)
    requires |locs| == |mags|
    ensures |Differing(w, Repair(F, w, locs, mags).word)| <= |locs|
    decreases |locs|
  {
    if locs == [] {
      assert Differing(w, w) == {};
    } else {
      var p := |w| - 1 - F.log(locs[0]);
      if p < 0 {
        assert Differing(w, w) == {};
      } else {
        var w' := w[p := F.add(w[p], mags[0])];
        var r := Repair(F, w', locs[1..], mags[1..]).word;
        RepairChanges(F, w', locs[1..], mags[1..]);
        MoreDiffer(w, w', r, p);
      }
    }
  }

  lemma MoreDiffer(w: seq<Elem>, v: seq<Elem>, r: seq<Elem>, p: nat)
    requires |w| == |v| == |r| && forall i :: 0 <= i < |w| && i != p ==> w[i] == v[i]
    ensures |Differing(w, r)| <= |Differing(v, r)| + 1
  {
    SmallerSet(Differing(w, r), Differing(v, r) + {p});
  }

  lemma SmallerSet(a: set<nat>, b: set<nat>)
    requires a <= b
    ensures |a| <= |b|
    decreases a
  {
    if x :| x in a {
      SmallerSet(a - {x}, b - {x});
    }
  }

  /** Whatever was received: an accepted word differs from it in at most half as many places as
      there are check symbols, rounded up. */
  lemma AcceptedIsNear(F: Field, base: nat, w: seq<Elem>, t: nat)
    requires IsField(F) && Decode(F, base, w, t).ok
    ensures |Differing(w, Decode(F, base, w, t).word)| <= t - t / 2
  {
    hide Eval, Val, EuclidLoop, Repair, Magnitudes, ErrorLocations, Mul, Add, Shift;
    var s := Syndromes(F, base, w, t);
    if AllZero(s) {
      assert Differing(w, w) == {};
    } else {
      ValLen(s);
      Start(F, Val(s), t);
      RunStarts(F, Val(s), t);
      var Stopped(sigma, omega) := RunEuclid(F, Shift(Const(1), t), Val(s), t);
      var Located(locs) := ErrorLocations(F, sigma);
      LoopBoundsLocator(F, Val(s), t, Shift(Const(1), t), Val(s), [], Const(1), Const(1), [], t / 2);
      LocatedCount(F, sigma);
      RepairChanges(F, w, locs, Magnitudes(F, base, omega, locs));
    }
  }

  lemma RunStarts(F: Field, S: Poly, t: nat)
    requires IsField(F) && |S| <= t && 0 < t
    ensures |Shift(Const(1), t)| == t + 1
    ensures RunEuclid(F, Shift(Const(1), t), S, t)
         == EuclidLoop(F, Shift(Const(1), t), S, [], Const(1), t / 2)
  {
    hide EuclidLoop;
  }

  lemma LocatedCount(F: Field, sigma: Poly)
    ensures ErrorLocations(F, sigma).Located? ==> |ErrorLocations(F, sigma).locs| == Degree(sigma)
  {
    hide RootScan;
  }

  /** For an even number of check symbols the decoder repairs a word to a word of the code exactly
      when there is one within half that number of places. */
  lemma RepairedExactly(F: Field, base: nat, w: seq<Elem>, t: nat)
    requires IsField(F) && base <= 1 && |w| <= 255 && t % 2 == 0
    ensures Decode(F, base, w, t).ok && IsCodeword(F, base, Decode(F, base, w, t).word, t)
       <==> exists c :: |c| == |w| && IsCodeword(F, base, c, t) && |Differing(w, c)| <= t / 2
  {
    hide Decode, IsCodeword, Differing, IsField;
    if Decode(F, base, w, t).ok {
      AcceptedIsNear(F, base, w, t);
    }
    if c :| |c| == |w| && IsCodeword(F, base, c, t) && |Differing(w, c)| <= t / 2 {
      DecodeRestores(F, base, w, c, t);
    }
  }
}
