/** Reed-Solomon coding as a function of words, with the branches, failures and order of
    the program's encoder and decoder.  A word lists coefficients from the highest power
    down, the data first and the check symbols last; `base` is the power at which the
    consecutive roots of the code start. */
module ReedSolomonCode {
  import opened GaloisField
  import opened Polynomials

  // ---- Words and polynomials

  /** The polynomial whose coefficients are listed from the highest power down. */
  function Val(w: seq<Elem>): Poly {
    if w == [] then [] else Cons(w[|w| - 1], Val(w[..|w| - 1]))
  }

  lemma ValStep(w: seq<Elem>)
    requires w != []
    ensures Val(w) == Cons(w[|w| - 1], Val(w[..|w| - 1]))
  {
  }

  function Coef(p: Poly, k: nat): Elem {
    if k < |p| then p[k] else 0
  }

  /** The lowest n coefficients, the highest power first. */
  function Digits(p: Poly, n: nat): (w: seq<Elem>)
    ensures |w| == n
  {
    seq(n, i requires 0 <= i < n => Coef(p, n - 1 - i))
  }

  function Degree(p: Poly): nat {
    if p == [] then 0 else |p| - 1
  }

  // ---- Encoding

  /** (x + a^base) (x + a^(base+1)) ... for t factors. */
  function Generator(F: Field, base: nat, t: nat): Poly {
    if t == 0 then Const(1)
    else Mul(F, Generator(F, base, t - 1), Linear(F.exp(t - 1 + base)))
  }

  /** The factor of one division step: lead(p) / lead(d). */
  function StepFactor(F: Field, p: Poly, d: Poly): Elem {
    F.mul(Lead(p), F.inv(Lead(d)))
  }

  /** What one division step adds to p: d scaled and shifted so as to cancel lead(p). */
  function StepTerm(F: Field, p: Poly, d: Poly): Poly
    requires |d| <= |p|
  {
    Shift(Scale(F, StepFactor(F, p, d), d), |p| - |d|)
  }

  lemma StepShrinks(F: Field, p: Poly, d: Poly)
    requires IsField(F) && d != [] && |d| <= |p|
    ensures StepFactor(F, p, d) != 0
    ensures |Add(F, p, StepTerm(F, p, d))| < |p|
  {
    var u := StepFactor(F, p, d);
    MulNonzero(F, Lead(p), F.inv(Lead(d)));
    ScaleLen(F, u, d);
    MulAssoc(F, Lead(p), F.inv(Lead(d)), Lead(d));
    ShiftLead(Scale(F, u, d), |p| - |d|);
    AddLenCancel(F, p, StepTerm(F, p, d));
  }

  /** Long division: quotient and remainder. */
  function Divide(F: Field, p: Poly, d: Poly): (Poly, Poly)
    requires IsField(F) && d != []
    decreases |p|
  {
    if |p| < |d| then ([], p) else
    StepShrinks(F, p, d);
    var (q, r) := Divide(F, Add(F, p, StepTerm(F, p, d)), d);
    (Add(F, Shift(Const(StepFactor(F, p, d)), |p| - |d|), q), r)
  }

  /** u x^f d, as the program builds the monomial and as it builds the term. */
  lemma MonomialMul(F: Field, u: Elem, f: nat, d: Poly)
    requires IsField(F)
    ensures Mul(F, Shift(Const(u), f), d) == Shift(Scale(F, u, d), f)
  {
    ShiftMul(F, Const(u), f, d);
    MulConst(F, u, d);
  }

  lemma AddExchange(F: Field, p: Poly, s: Poly, a: Poly, r: Poly)
    requires IsField(F) && Add(F, p, s) == Add(F, a, r)
    ensures p == Add(F, Add(F, s, a), r)
  {
    AddMove(F, p, s, Add(F, a, r));
    AddPolyComm(F, Add(F, a, r), s);
    AddPolyAssoc(F, s, a, r);
  }

  /** One step forward in the quotient undoes one step down in the dividend. */
  lemma DivideStep(F: Field, p: Poly, d: Poly, q: Poly, r: Poly)
    requires IsField(F) && d != [] && |d| <= |p|
    requires Add(F, p, StepTerm(F, p, d)) == Add(F, Mul(F, q, d), r)
    ensures p == Add(F, Mul(F, Add(F, Shift(Const(StepFactor(F, p, d)), |p| - |d|), q), d), r)
  {
    hide Add, Mul, Scale, Shift, StepFactor;
    var m := Shift(Const(StepFactor(F, p, d)), |p| - |d|);
    MonomialMul(F, StepFactor(F, p, d), |p| - |d|, d);
    MulAddLeft(F, m, q, d);
    AddExchange(F, p, StepTerm(F, p, d), Mul(F, q, d), r);
  }

  lemma {:induction false} DivideCorrect(F: Field, p: Poly, d: Poly)
    requires IsField(F) && d != []
    ensures p == Add(F, Mul(F, Divide(F, p, d).0, d), Divide(F, p, d).1)
    ensures |Divide(F, p, d).1| < |d|
    decreases |p|
  {
    if |d| <= |p| {
      StepShrinks(F, p, d);
      var p' := Add(F, p, StepTerm(F, p, d));
      DivideCorrect(F, p', d);
      DivideStep(F, p, d, Divide(F, p', d).0, Divide(F, p', d).1);
    }
  }

  /** Quotient and remainder are the only ones: p = q d + r with r of smaller degree. */
  lemma DivideUnique(F: Field, p: Poly, d: Poly, q: Poly, r: Poly)
    requires IsField(F) && d != [] && p == Add(F, Mul(F, q, d), r) && |r| < |d|
    ensures Divide(F, p, d) == (q, r)
  {
    DivideCorrect(F, p, d);
    var (q', r') := Divide(F, p, d);
    var e := Add(F, q, q');
    // e d == r + r'
    AddPolySwap(F, Mul(F, q, d), r, Mul(F, q', d), r');
    AddPolySelf(F, p);
    MulAddLeft(F, q, q', d);
    AddZero(F, Mul(F, e, d), Add(F, r, r'));
    AddLen(F, r, r');
    if e != [] {
      MulLen(F, e, d);
      assert false;
    }
    AddZero(F, q, q');
    AddZero(F, r, r');
  }

  /** The check symbols for the data: the remainder of data * x^t by the generator. */
  function CheckSymbols(F: Field, base: nat, data: seq<Elem>, t: nat): (ec: seq<Elem>)
    requires IsField(F)
    ensures |ec| == t
  {
    GeneratorLen(F, base, t);
    Digits(Divide(F, Shift(Val(data), t), Generator(F, base, t)).1, t)
  }

  lemma {:induction false} GeneratorLen(F: Field, base: nat, t: nat)
    requires IsField(F)
    ensures |Generator(F, base, t)| == t + 1 && Lead(Generator(F, base, t)) == 1
    decreases t
  {
    if t != 0 {
      GeneratorLen(F, base, t - 1);
      MulLen(F, Generator(F, base, t - 1), Linear(F.exp(t - 1 + base)));
    }
  }

  // ---- Decoding

  /** The syndromes, the last first. */
  function Syndromes(F: Field, base: nat, w: seq<Elem>, t: nat): (s: seq<Elem>)
    ensures |s| == t
  {
    seq<Elem>(t, i requires 0 <= i < t => Eval(F, Val(w), F.exp(t - 1 - i + base)))
  }

  predicate AllZero(s: seq<Elem>) {
    forall i :: 0 <= i < |s| ==> s[i] == 0
  }

  ghost predicate HasRoot(F: Field, base: nat, w: seq<Elem>, i: nat) {
    Eval(F, Val(w), F.exp(i + base)) == 0
  }

  /** A word of the code: the polynomial vanishes at a^base, ..., a^(base+t-1). */
  ghost predicate IsCodeword(F: Field, base: nat, w: seq<Elem>, t: nat) {
    forall i: nat :: i < t ==> HasRoot(F, base, w, i)
  }

  /** The decoder's test for a word of the code. */
  lemma SyndromesDecide(F: Field, base: nat, w: seq<Elem>, t: nat)
    ensures AllZero(Syndromes(F, base, w, t)) <==> IsCodeword(F, base, w, t)
  {
    hide Eval, Val;
    var s := Syndromes(F, base, w, t);
    if AllZero(s) {
      forall i: nat | i < t ensures HasRoot(F, base, w, i) {
        assert s[t - 1 - i] == 0;
      }
    } else {
      var k :| 0 <= k < |s| && s[k] != 0;
      assert !HasRoot(F, base, w, t - 1 - k);
    }
  }

  datatype Euclid = Stopped(sigma: Poly, omega: Poly) | Stuck

  /** The loop of the extended Euclidean algorithm: two successive remainders and the
      cofactors that go with them, until the degree falls below half. */
  function EuclidLoop(F: Field, rLast: Poly, r: Poly, tLast: Poly, t: Poly, half: nat): Euclid
    requires IsField(F)
    decreases Degree(r)
  {
    if Degree(r) < half then Finish(F, r, t) else
    if r == [] then Stuck else
    var (q, r') := Divide(F, rLast, r);
    if Degree(r') >= Degree(r) then Stuck else
    EuclidLoop(F, r, r', t, Add(F, Mul(F, q, t), tLast), half)
  }

  /** Scales the locator so that its constant coefficient is one. */
  function Finish(F: Field, r: Poly, t: Poly): Euclid {
    if Hd(t) == 0 then Stuck else
    Stopped(Scale(F, F.inv(Hd(t)), t), Scale(F, F.inv(Hd(t)), r))
  }

  function RunEuclid(F: Field, a: Poly, b: Poly, t: nat): Euclid
    requires IsField(F)
  {
    if Degree(a) < Degree(b) then EuclidLoop(F, b, a, [], Const(1), t / 2)
    else EuclidLoop(F, a, b, [], Const(1), t / 2)
  }

  /** The search for roots among o, o+1, ..., 255, stopping once `want` locations are known. */
  function RootScan(F: Field, sigma: Poly, o: nat, want: nat, found: seq<Elem>): seq<Elem>
    requires 1 <= o <= 256
    decreases 256 - o
  {
    if o == 256 || |found| >= want then found
    else if Eval(F, sigma, o) == 0 then RootScan(F, sigma, o + 1, want, found + [F.inv(o)])
    else RootScan(F, sigma, o + 1, want, found)
  }

  datatype Locations = Located(locs: seq<Elem>) | Unlocated

  function ErrorLocations(F: Field, sigma: Poly): Locations {
    if Degree(sigma) == 1 then Located([Coef(sigma, 1)]) else
    var found := RootScan(F, sigma, 1, Degree(sigma), []);
    if |found| == Degree(sigma) then Located(found) else Unlocated
  }

  /** The product of 1 + X / X_o over the locations below s other than the o-th. */
  function Denominator(F: Field, locs: seq<Elem>, o: nat, s: nat): Elem
    requires o < |locs| && s <= |locs|
  {
    if s == 0 then 1
    else if s - 1 == o then Denominator(F, locs, o, s - 1)
    else F.mul(Denominator(F, locs, o, s - 1), F.add(F.mul(locs[s - 1], F.inv(locs[o])), 1))
  }

  function Magnitude(F: Field, base: nat, omega: Poly, locs: seq<Elem>, o: nat): Elem
    requires o < |locs|
  {
    var xi := F.inv(locs[o]);
    var m := F.mul(Eval(F, omega, xi), F.inv(Denominator(F, locs, o, |locs|)));
    if base != 0 then F.mul(m, xi) else m
  }

  function Magnitudes(F: Field, base: nat, omega: Poly, locs: seq<Elem>): (v: seq<Elem>)
    ensures |v| == |locs|
  {
    seq(|locs|, o requires 0 <= o < |locs| => Magnitude(F, base, omega, locs, o))
  }

  /** The word after the repair and whether the repair went through. */
  datatype Outcome = Outcome(ok: bool, word: seq<Elem>)

  /** Repairs the positions in turn; a location beyond the word stops the repair half done. */
  function Repair(F: Field, w: seq<Elem>, locs: seq<Elem>, mags: seq<Elem>): (r: Outcome)
    requires |locs| == |mags|
    ensures |r.word| == |w|
    decreases |locs|
  {
    if locs == [] then Outcome(true, w) else
    var x := |w| - 1 - F.log(locs[0]);
    if x < 0 then Outcome(false, w)
    else Repair(F, w[x := F.add(w[x], mags[0])], locs[1..], mags[1..])
  }

  function Decode(F: Field, base: nat, w: seq<Elem>, t: nat): (r: Outcome)
    requires IsField(F)
    ensures |r.word| == |w|
  {
    var s := Syndromes(F, base, w, t);
    if AllZero(s) then Outcome(true, w) else
    match RunEuclid(F, Shift(Const(1), t), Val(s), t)
    case Stuck => Outcome(false, w)
    case Stopped(sigma, omega) =>
      match ErrorLocations(F, sigma)
      case Unlocated => Outcome(false, w)
      case Located(locs) => Repair(F, w, locs, Magnitudes(F, base, omega, locs))
  }
}
