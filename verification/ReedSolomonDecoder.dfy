/** The decoder object: it repairs the array it is given in place. */
module ReedSolomonDecoding {
  import opened GaloisField
  import opened Polynomials
  import opened ReedSolomonCode
  import opened Bytes
  import opened GenericField
  import opened GenericPolynomials
  import KeyEquation
  import Acceptance

  class ReedSolomonDecoder {
    const field: GenericGF

    ghost predicate Valid() {
      field.Valid()
    }

    constructor (field: GenericGF)
      requires field.Valid()
      ensures Valid() && this.field == field
    {
      this.field := field;
    }

    /** The loop of the extended Euclidean algorithm.  It throws when a remainder is zero too
        early, when a division does not reduce the degree, and when the locator is zero at
        zero. */
    method RunEuclideanAlgorithm(a: seq<Elem>, b: seq<Elem>, t: nat)
      returns (ok: bool, sigma: seq<Elem>, omega: seq<Elem>)
      requires Valid() && Normal(a) && Normal(b)
      ensures match RunEuclid(field.F, Val(a), Val(b), t)
              case Stuck => !ok
              case Stopped(s, o) => ok && Normal(sigma) && Normal(omega) && Val(sigma) == s && Val(omega) == o
    {
      hide Val, IsField, Divide, Add, Mul, Scale;
      ghost var F := field.F;
      ok, sigma, omega := false, [0], [0];
      NormalVal(a);
      NormalVal(b);
      var rLast, r := a, b;
      if DegreeOf(a) < DegreeOf(b) {
        rLast, r := b, a;
      }
      var tLast, tt := [0], [1];
      ValOfZero();
      ValOfOne();
      ghost var result := RunEuclid(F, Val(a), Val(b), t);
      while DegreeOf(r) >= t / 2
        invariant Normal(rLast) && Normal(r) && Normal(tLast) && Normal(tt)
        invariant EuclidLoop(F, Val(rLast), Val(r), Val(tLast), Val(tt), t / 2) == result
        decreases DegreeOf(r)
      {
        NormalVal(r);
        if IsZero(r) { return; }
        var q, next := DivideBy(field, rLast, r);
        NormalVal(next);
        if DegreeOf(next) >= DegreeOf(r) { return; }
        var product := GenericPolynomials.Multiply(field, q, tt);
        var tNext := GenericPolynomials.AddOrSubtract(field, product, tLast);
        rLast, r := r, next;
        tLast, tt := tt, tNext;
      }
      NormalVal(r);
      NormalVal(tt);
      var sigmaTildeAtZero := tt[|tt| - 1];
      if sigmaTildeAtZero == 0 { return; }
      var inverse := field.Inverse(sigmaTildeAtZero);
      sigma := MultiplyScalar(field, tt, inverse);
      omega := MultiplyScalar(field, r, inverse);
      ok := true;
    }

    /** Chien's search by brute force, with the short cut for one error. */
    method FindErrorLocations(errorLocator: seq<Elem>) returns (ok: bool, locs: seq<Elem>)
      requires Valid() && Normal(errorLocator) && !IsZero(errorLocator)
      ensures match ErrorLocations(field.F, Val(errorLocator))
              case Unlocated => !ok
              case Located(l) => ok && locs == l
    {
      hide Val, Eval, IsField;
      NormalVal(errorLocator);
      var numErrors := DegreeOf(errorLocator);
      if numErrors == 1 {
        ValCoef(errorLocator, 1);
        return true, [errorLocator[0]];
      }
      var result := new Elem[numErrors](_ => 0);
      var e, i := 0, 1;
      assert result[..0] == [];
      while i < 256 && e < numErrors
        invariant 1 <= i <= 256 && e <= numErrors
        invariant RootScan(field.F, Val(errorLocator), i, numErrors, result[..e])
                  == RootScan(field.F, Val(errorLocator), 1, numErrors, [])
      {
        var v := EvaluateAt(field, errorLocator, i);
        if v == 0 {
          result[e] := field.Inverse(i);
          assert result[..e + 1] == result[..e] + [field.Inverse(i)];
          e := e + 1;
        }
        i := i + 1;
      }
      if e != numErrors {
        return false, [];
      }
      assert result[..e] == result[..];
      return true, result[..];
    }

    /** The product of the factors 1 + X / X_i, with the low bit flipped to add one. */
    method ErrorDenominator(locs: seq<Elem>, i: nat) returns (denominator: Elem)
      requires Valid() && i < |locs| && locs[i] != 0
      ensures denominator == Denominator(field.F, locs, i, |locs|)
    {
      hide IsField, Denominator, Xor;
      var xiInverse := field.Inverse(locs[i]);
      denominator := 1;
      DenominatorStart(field.F, locs, i);
      for j := 0 to |locs|
        invariant denominator == Denominator(field.F, locs, i, j)
      {
        DenominatorStep(field.F, locs, i, j);
        if i != j {
          var term := field.Multiply(locs[j], xiInverse);
          FlipLowBit(term);
          var termPlus1 := if term % 2 == 0 then term + 1 else term - 1;
          denominator := field.Multiply(denominator, termPlus1);
        }
      }
    }

    /** Forney's formula for one location. */
    method ErrorMagnitude(errorEvaluator: seq<Elem>, locs: seq<Elem>, i: nat) returns (m: Elem)
      requires Valid() && Normal(errorEvaluator) && Distinct(locs) && i < |locs| && locs[i] != 0
      ensures m == Magnitude(field.F, field.generatorBase, Val(errorEvaluator), locs, i)
    {
      hide Val, Eval, IsField, Denominator, Xor;
      var xiInverse := field.Inverse(locs[i]);
      var denominator := ErrorDenominator(locs, i);
      NonzeroDenominator(field.F, locs, i);
      var value := EvaluateAt(field, errorEvaluator, xiInverse);
      m := field.Multiply(value, field.Inverse(denominator));
      if field.generatorBase != 0 {
        m := field.Multiply(m, xiInverse);
      }
    }

    method FindErrorMagnitudes(errorEvaluator: seq<Elem>, locs: seq<Elem>) returns (mags: seq<Elem>)
      requires Valid() && Normal(errorEvaluator) && Distinct(locs)
      requires forall i :: 0 <= i < |locs| ==> locs[i] != 0
      ensures mags == Magnitudes(field.F, field.generatorBase, Val(errorEvaluator), locs)
    {
      hide Val, IsField, Magnitude, Xor;
      var result := new Elem[|locs|](_ => 0);
      for i := 0 to |locs|
        invariant forall k :: 0 <= k < i ==>
                    result[k] == Magnitude(field.F, field.generatorBase, Val(errorEvaluator), locs, k)
      {
        var m := ErrorMagnitude(errorEvaluator, locs, i);
        result[i] := m;
      }
      mags := result[..];
    }

    /** The syndromes, filled in from the last index down, and whether all are zero. */
    method ComputeSyndromes(w: seq<Elem>, t: nat) returns (noError: bool, s: seq<Elem>)
      requires Valid() && |w| > 0 && t + field.generatorBase <= 256
      ensures s == Syndromes(field.F, field.generatorBase, w, t)
      ensures noError <==> AllZero(s)
    {
      hide Val, Eval, IsField, Xor;
      var poly := Construct(w);
      var syndromeCoefficients := new Elem[t](_ => 0);
      noError := true;
      ghost var nonzero := 0;
      for i := 0 to t
        invariant forall p :: t - i <= p < t ==>
                    syndromeCoefficients[p]
                    == Eval(field.F, Val(w), field.F.exp(t - 1 - p + field.generatorBase))
        invariant noError ==> forall p :: t - i <= p < t ==> syndromeCoefficients[p] == 0
        invariant !noError ==> t - i <= nonzero < t && syndromeCoefficients[nonzero] != 0
      {
        var v := EvaluateAt(field, poly, field.Exp(i + field.generatorBase));
        var p := t - 1 - i;
        assert t - 1 - p + field.generatorBase == i + field.generatorBase;
        syndromeCoefficients[p] := v;
        if v != 0 {
          noError, nonzero := false, p;
        }
      }
      s := syndromeCoefficients[..];
    }

    /** Repairs the received word in place.  The program throws where the result is false; a
        location outside the word is noticed only after the repairs before it. */
    method DecodeInPlace(received: array<Elem>, t: nat) returns (ok: bool)
      requires Valid() && received.Length > 0 && t + field.generatorBase <= 256
      modifies received
      ensures Outcome(ok, received[..]) == Decode(field.F, field.generatorBase, old(received[..]), t)
    {
      hide Val, Eval, IsField, RunEuclid, ErrorLocations, Magnitudes, Syndromes, Repair, Xor;
      ghost var F := field.F;
      var noError, s := ComputeSyndromes(received[..], t);
      if noError {
        return true;
      }
      var syndrome := Construct(s);
      var monomial := BuildMonomial(t, 1);
      var stopped, sigma, omega := RunEuclideanAlgorithm(monomial, syndrome, t);
      if !stopped {
        return false;
      }
      SigmaNonzero(F, Val(monomial), Val(syndrome), t);
      NormalVal(sigma);
      var located, locs := FindErrorLocations(sigma);
      if !located {
        return false;
      }
      LocationsDistinct(F, Val(sigma));
      var mags := FindErrorMagnitudes(omega, locs);
      ok := RepairInPlace(received, locs, mags);
    }

    method RepairInPlace(received: array<Elem>, locs: seq<Elem>, mags: seq<Elem>) returns (ok: bool)
      requires Valid() && |locs| == |mags| && forall i :: 0 <= i < |locs| ==> locs[i] != 0
      modifies received
      ensures Outcome(ok, received[..]) == Repair(field.F, old(received[..]), locs, mags)
    {
      hide IsField;
      for i := 0 to |locs|
        invariant Repair(field.F, received[..], locs[i..], mags[i..])
                  == Repair(field.F, old(received[..]), locs, mags)
      {
        var position := received.Length - 1 - field.Log(locs[i]);
        if position < 0 {
          return false;
        }
        ghost var before := received[..];
        received[position] := GenericGF.AddOrSubtract(received[position], mags[i]);
        assert received[..] == before[position := field.F.add(before[position], mags[i])];
        assert locs[i..][1..] == locs[i + 1..] && mags[i..][1..] == mags[i + 1..];
      }
      ok := true;
    }
  }

  lemma ValOfOne()
    ensures Normal([1]) && Val([1]) == Const(1)
  {
    var w: seq<Elem> := [1];
    assert w[..0] == [];
  }

  lemma DenominatorStart(F: Field, locs: seq<Elem>, o: nat)
    requires o < |locs|
    ensures Denominator(F, locs, o, 0) == 1
  {
  }

  lemma DenominatorStep(F: Field, locs: seq<Elem>, o: nat, s: nat)
    requires o < |locs| && s < |locs|
    ensures Denominator(F, locs, o, s + 1)
            == if s == o then Denominator(F, locs, o, s)
               else F.mul(Denominator(F, locs, o, s), F.add(F.mul(locs[s], F.inv(locs[o])), 1))
  {
  }

  lemma NonzeroDenominator(F: Field, locs: seq<Elem>, o: nat)
    requires IsField(F) && o < |locs| && Distinct(locs) && locs[o] != 0
    ensures Denominator(F, locs, o, |locs|) != 0
  {
    KeyEquation.DenominatorNonzero(F, locs, o, |locs|);
  }

  /** Setting or clearing the lowest bit, as the magnitudes do, is adding one. */
  lemma FlipLowBit(x: Elem)
    ensures Xor(x, 1) == if x % 2 == 0 then x + 1 else x - 1
  {
    hide ToBits;
    var a := ToBits(x);
    ValueToBits(x);
    assert ToBits(1) == Bits(true, false, false, false, false, false, false, false) by { BitsOfOne(); }
    FlipFirst(a);
  }

  lemma BitsOfOne()
    ensures ToBits(1) == Bits(true, false, false, false, false, false, false, false)
  {
  }

  lemma FlipFirst(a: Bits)
    ensures Value(XorBits(a, Bits(true, false, false, false, false, false, false, false)))
            == if a.b0 then Value(a) - 1 else Value(a) + 1
    ensures a.b0 <==> Value(a) % 2 == 1
  {
    assert XorBits(a, Bits(true, false, false, false, false, false, false, false)) == a.(b0 := !a.b0);
    hide XorBits, Value;
    ValueParts(a);
    ValueParts(a.(b0 := !a.b0));
    assert Half(a.(b0 := !a.b0)) == Half(a);
    hide Half;
  }

  function Half(a: Bits): nat {
    One(a.b1) + 2 * One(a.b2) + 4 * One(a.b3) + 8 * One(a.b4) + 16 * One(a.b5) + 32 * One(a.b6) + 64 * One(a.b7)
  }

  lemma ValueParts(a: Bits)
    ensures Value(a) == One(a.b0) + 2 * Half(a)
  {
  }

  /** The scaled locator is never the zero polynomial. */
  lemma {:induction false} SigmaNonzeroLoop(F: Field, rLast: Poly, r: Poly, tLast: Poly, t: Poly, half: nat)
    requires IsField(F) && EuclidLoop(F, rLast, r, tLast, t, half).Stopped?
    ensures EuclidLoop(F, rLast, r, tLast, t, half).sigma != []
    decreases Degree(r)
  {
    hide Divide, Add, Mul, Scale;
    if Degree(r) < half {
      ScaleLen(F, F.inv(Hd(t)), t);
    } else {
      var (q, r') := Divide(F, rLast, r);
      SigmaNonzeroLoop(F, r, r', t, Add(F, Mul(F, q, t), tLast), half);
    }
  }

  lemma SigmaNonzero(F: Field, a: Poly, b: Poly, t: nat)
    requires IsField(F)
    ensures match RunEuclid(F, a, b, t) case Stuck => true case Stopped(sigma, _) => sigma != []
  {
    hide EuclidLoop;
    if Degree(a) < Degree(b) {
      if EuclidLoop(F, b, a, [], Const(1), t / 2).Stopped? {
        SigmaNonzeroLoop(F, b, a, [], Const(1), t / 2);
      }
    } else if EuclidLoop(F, a, b, [], Const(1), t / 2).Stopped? {
      SigmaNonzeroLoop(F, a, b, [], Const(1), t / 2);
    }
  }

  lemma LocationsDistinct(F: Field, sigma: Poly)
    requires IsField(F) && sigma != []
    ensures match ErrorLocations(F, sigma)
            case Unlocated => true
            case Located(locs) => Distinct(locs) && forall i :: 0 <= i < |locs| ==> locs[i] != 0
  {
    if Degree(sigma) != 1 {
      Acceptance.ScanSound(F, sigma, 1, Degree(sigma), []);
    }
  }
}
