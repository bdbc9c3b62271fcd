/** The decoder repairs every word that differs from a codeword in at most half as many
    places as there are check symbols. */
module ErrorCorrection {
  import opened GaloisField
  import opened Polynomials
  import opened ReedSolomonCode
  import opened SystematicCode
  import opened KeyEquation
  import opened EuclideanAlgorithm

  /** The symbolwise difference, which is also the sum. */
  function Difference(F: Field, w: seq<Elem>, c: seq<Elem>): (d: seq<Elem>)
    requires |w| == |c|
    ensures |d| == |w|
  {
    seq<Elem>(|w|, i requires 0 <= i < |w| => F.add(w[i], c[i]))
  }

  lemma DifferenceParts(F: Field, w: seq<Elem>, c: seq<Elem>)
    requires |w| == |c| && w != []
    ensures var n := |w| - 1;
            && Difference(F, w, c)[n] == F.add(w[n], c[n])
            && Difference(F, w, c)[..n] == Difference(F, w[..n], c[..n])
  {
  }

  lemma {:induction false} ValDifference(F: Field, w: seq<Elem>, c: seq<Elem>)
    requires IsField(F) && |w| == |c|
    ensures Val(Difference(F, w, c)) == Add(F, Val(w), Val(c))
    decreases |w|
  {
    hide Add, Difference, IsField;
    if w == [] {
      AddNil(F, []);
    } else {
      var n := |w| - 1;
      ValDifference(F, w[..n], c[..n]);
      DifferenceParts(F, w, c);
      AddCons(F, w[n], Val(w[..n]), c[n], Val(c[..n]));
    }
  }

  // ---- Positions and locations

  /** The position in a word of n symbols that a location names; negative if there is none. */
  function Position(F: Field, n: nat, x: Elem): int {
    n - 1 - F.log(x)
  }

  /** The location of a position: the power of x it is the coefficient of, at the generator. */
  function Location(F: Field, n: nat, p: nat): Elem
    requires p < n
  {
    F.exp(n - 1 - p)
  }

  lemma PositionInverse(F: Field, n: nat, p: nat)
    requires IsField(F) && p < n <= 255
    ensures Location(F, n, p) != 0 && Position(F, n, Location(F, n, p)) == p
  {
    assert F.log(F.exp(n - 1 - p)) == n - 1 - p;
  }

  lemma LocationInverse(F: Field, n: nat, x: Elem)
    requires IsField(F) && x != 0 && 0 <= Position(F, n, x)
    ensures Position(F, n, x) < n && Location(F, n, Position(F, n, x)) == x
  {
  }

  /** The locations of the nonzero symbols of d whose inverse is at most k, in the order in
      which the root search meets them. */
  function LocationsUpTo(F: Field, d: seq<Elem>, k: nat): (locs: seq<Elem>)
    requires IsField(F) && k <= 255
    ensures forall i :: 0 <= i < |locs| ==>
              locs[i] != 0 && F.inv(locs[i]) <= k && 0 <= Position(F, |d|, locs[i])
              && d[Position(F, |d|, locs[i])] != 0
  {
    if k == 0 then [] else
    var x := F.inv(k);
    InverseInverse(F, k);
    var p := Position(F, |d|, x);
    if 0 <= p && d[p] != 0 then LocationsUpTo(F, d, k - 1) + [x] else LocationsUpTo(F, d, k - 1)
  }

  function MagnitudesAt(F: Field, d: seq<Elem>, locs: seq<Elem>): (mags: seq<Elem>)
    requires forall i :: 0 <= i < |locs| ==> 0 <= Position(F, |d|, locs[i])
    ensures |mags| == |locs|
  {
    seq<Elem>(|locs|, i requires 0 <= i < |locs| => d[Position(F, |d|, locs[i])])
  }

  /** The inverses of the locations increase. */
  ghost predicate Ordered(F: Field, locs: seq<Elem>) {
    forall i, j :: 0 <= i < j < |locs| ==> F.inv(locs[i]) < F.inv(locs[j])
  }

  lemma {:induction false} LocationsOrdered(F: Field, d: seq<Elem>, k: nat)
    requires IsField(F) && k <= 255
    ensures Ordered(F, LocationsUpTo(F, d, k))
    decreases k
  {
    if k != 0 {
      LocationsOrdered(F, d, k - 1);
      InverseInverse(F, k);
    }
  }

  lemma {:induction false} LocationsComplete(F: Field, d: seq<Elem>, k: nat, p: nat)
    requires IsField(F) && k <= 255 && p < |d| <= 255 && d[p] != 0
    requires F.inv(Location(F, |d|, p)) <= k
    ensures Location(F, |d|, p) in LocationsUpTo(F, d, k)
    decreases k
  {
    var x := Location(F, |d|, p);
    PositionInverse(F, |d|, p);
    InverseInverse(F, x);
    if F.inv(x) == k {
    } else {
      LocationsComplete(F, d, k - 1, p);
    }
  }

  lemma OrderedDistinct(F: Field, locs: seq<Elem>)
    requires Ordered(F, locs)
    ensures Distinct(locs)
  {
  }

  // ---- Syndromes of a word that is zero but for the errors

  lemma {:induction false} PowerExp(F: Field, a: nat, k: nat)
    requires IsField(F)
    ensures Power(F, F.exp(a), k) == F.exp(a * k)
    decreases k
  {
    if k != 0 {
      PowerExp(F, a, k - 1);
      assert a * k == a + a * (k - 1);
      ExpAdd(F, a, a * (k - 1));
    } else {
      assert a * k == 0;
    }
  }

  lemma {:induction false} PowerAdd(F: Field, x: Elem, j: nat, k: nat)
    requires IsField(F)
    ensures Power(F, x, j + k) == F.mul(Power(F, x, j), Power(F, x, k))
    decreases j
  {
    if j != 0 {
      PowerAdd(F, x, j - 1, k);
      MulAssoc(F, x, Power(F, x, j - 1), Power(F, x, k));
    }
  }

  lemma EvalLast(F: Field, w: seq<Elem>, x: Elem)
    requires IsField(F) && w != []
    ensures Eval(F, Val(w), x) == F.add(w[|w| - 1], F.mul(x, Eval(F, Val(w[..|w| - 1]), x)))
  {
    EvalParts(F, Val(w), x);
  }

  /** Setting one zero symbol. */
  lemma {:induction false} EvalSet(F: Field, w: seq<Elem>, p: nat, v: Elem, x: Elem)
    requires IsField(F) && p < |w| && w[p] == 0
    ensures Eval(F, Val(w[p := v]), x) == F.add(Eval(F, Val(w), x), F.mul(v, Power(F, x, |w| - 1 - p)))
    decreases |w|
  {
    hide Eval, Val;
    var n := |w| - 1;
    var w' := w[p := v];
    EvalLast(F, w, x);
    EvalLast(F, w', x);
    if p == n {
      assert w'[..n] == w[..n];
    } else {
      assert w'[..n] == w[..n][p := v];
      EvalSet(F, w[..n], p, v, x);
      var e, q := Eval(F, Val(w[..n]), x), Power(F, x, n - 1 - p);
      Distribute(F, x, e, F.mul(v, q));
      MulAssoc(F, x, v, q);
      MulAssoc(F, v, x, q);
      AddAssoc(F, w[n], F.mul(x, e), F.mul(v, F.mul(x, q)));
    }
  }

  /** The sum of e X^m over the first s errors. */
  function ErrorSum(F: Field, locs: seq<Elem>, mags: seq<Elem>, s: nat, m: nat): Elem
    requires s <= |locs| && s <= |mags|
  {
    if s == 0 then 0
    else F.add(ErrorSum(F, locs, mags, s - 1, m), F.mul(mags[s - 1], Power(F, locs[s - 1], m)))
  }

  lemma {:induction false} ErrorSumPrefix(F: Field, locs: seq<Elem>, mags: seq<Elem>,
                                          locs': seq<Elem>, mags': seq<Elem>, s: nat, m: nat)
    requires s <= |locs| <= |locs'| && s <= |mags| <= |mags'|
    requires locs == locs'[..|locs|] && mags == mags'[..|mags|]
    ensures ErrorSum(F, locs, mags, s, m) == ErrorSum(F, locs', mags', s, m)
    decreases s
  {
    if s != 0 {
      ErrorSumPrefix(F, locs, mags, locs', mags', s - 1, m);
    }
  }

  /** d with the symbols zeroed whose location has an inverse above k. */
  function Restrict(F: Field, d: seq<Elem>, k: nat): (r: seq<Elem>)
    ensures |r| == |d|
  {
    seq<Elem>(|d|, p requires 0 <= p < |d| => if Place(F, |d|, p) <= k then d[p] else 0)
  }

  /** The place of position q in the root search. */
  function Place(F: Field, n: nat, q: nat): Elem
    requires q < n
  {
    F.inv(Location(F, n, q))
  }

  lemma PlaceUnique(F: Field, n: nat, q: nat, k: Elem)
    requires IsField(F) && q < n <= 255 && k != 0
    ensures Place(F, n, q) == k <==> q == Position(F, n, F.inv(k))
  {
    InverseInverse(F, k);
    PositionInverse(F, n, q);
    InverseInverse(F, Location(F, n, q));
    if q == Position(F, n, F.inv(k)) {
      LocationInverse(F, n, F.inv(k));
    }
  }

  lemma RestrictStep(F: Field, d: seq<Elem>, k: nat)
    requires IsField(F) && 0 < k <= 255 && |d| <= 255
    ensures var p := Position(F, |d|, F.inv(k));
            if 0 <= p then p < |d| && Restrict(F, d, k - 1)[p] == 0
                           && Restrict(F, d, k) == Restrict(F, d, k - 1)[p := d[p]]
            else Restrict(F, d, k) == Restrict(F, d, k - 1)
  {
    hide IsField;
    var p := Position(F, |d|, F.inv(k));
    forall q: nat | q < |d| ensures Place(F, |d|, q) == k <==> q == p {
      PlaceUnique(F, |d|, q, k);
    }
    assert p < |d| by { PositionBelow(F, |d|, F.inv(k)); }
  }

  lemma PositionBelow(F: Field, n: nat, x: Elem)
    ensures Position(F, n, x) < n
  {
  }

  lemma {:induction false} RestrictSum(F: Field, d: seq<Elem>, k: nat, m: nat)
    requires IsField(F) && k <= 255 && |d| <= 255
    ensures var locs := LocationsUpTo(F, d, k);
            Eval(F, Val(Restrict(F, d, k)), F.exp(m)) == ErrorSum(F, locs, MagnitudesAt(F, d, locs), |locs|, m)
    decreases k
  {
    hide Eval, Val, IsField;
    if k == 0 {
      assert Restrict(F, d, 0) == Zeros(|d|) by { RestrictNone(F, d); }
      EvalZeros(F, |d|, F.exp(m));
    } else {
      var locs0 := LocationsUpTo(F, d, k - 1);
      var locs := LocationsUpTo(F, d, k);
      var x := F.inv(k);
      var p := Position(F, |d|, x);
      RestrictSum(F, d, k - 1, m);
      RestrictStep(F, d, k);
      if 0 <= p {
        RestrictSumStep(F, d, k, m, p, x);
        if d[p] != 0 {
          ErrorSumPrefix(F, locs0, MagnitudesAt(F, d, locs0), locs, MagnitudesAt(F, d, locs), |locs0|, m);
        }
      }
    }
  }

  lemma RestrictSumStep(F: Field, d: seq<Elem>, k: nat, m: nat, p: nat, x: Elem)
    requires IsField(F) && 0 < k <= 255 && |d| <= 255 && x == F.inv(k) && p == Position(F, |d|, x)
    requires Restrict(F, d, k - 1)[p] == 0
    requires Restrict(F, d, k) == Restrict(F, d, k - 1)[p := d[p]]
    ensures Eval(F, Val(Restrict(F, d, k)), F.exp(m))
            == F.add(Eval(F, Val(Restrict(F, d, k - 1)), F.exp(m)), F.mul(d[p], Power(F, x, m)))
    ensures d[p] == 0 ==> Restrict(F, d, k) == Restrict(F, d, k - 1)
  {
    hide Eval, Val;
    EvalSet(F, Restrict(F, d, k - 1), p, d[p], F.exp(m));
    PowerExp(F, m, |d| - 1 - p);
    PowerExp(F, |d| - 1 - p, m);
    LocationInverse(F, |d|, x);
    assert m * (|d| - 1 - p) == (|d| - 1 - p) * m;
  }

  function Zeros(n: nat): (r: seq<Elem>)
    ensures |r| == n
  {
    seq<Elem>(n, i => 0)
  }

  lemma RestrictNone(F: Field, d: seq<Elem>)
    requires IsField(F)
    ensures Restrict(F, d, 0) == Zeros(|d|)
  {
  }

  lemma {:induction false} EvalZeros(F: Field, n: nat, x: Elem)
    requires IsField(F)
    ensures Eval(F, Val(Zeros(n)), x) == 0
    decreases n
  {
    if n != 0 {
      assert Zeros(n)[..n - 1] == Zeros(n - 1);
      EvalZeros(F, n - 1, x);
      EvalParts(F, Val(Zeros(n)), x);
    }
  }

  lemma RestrictAll(F: Field, d: seq<Elem>)
    requires IsField(F)
    ensures Restrict(F, d, 255) == d
  {
  }

  /** The syndromes of the first s errors, the last first. */
  function ErrorSyndromes(F: Field, base: nat, locs: seq<Elem>, mags: seq<Elem>, s: nat, t: nat): (r: seq<Elem>)
    requires s <= |locs| == |mags|
    ensures |r| == t
  {
    seq<Elem>(t, i requires 0 <= i < t => ErrorSum(F, locs, mags, s, t - 1 - i + base))
  }

  function GeometricSeq(F: Field, a: Elem, c: Elem, t: nat): (r: seq<Elem>)
    ensures |r| == t
  {
    seq<Elem>(t, i requires 0 <= i < t => F.mul(c, Power(F, a, t - 1 - i)))
  }

  lemma GeometricTerm(F: Field, a: Elem, c: Elem, k: nat)
    requires IsField(F) && 0 < k
    ensures F.mul(c, Power(F, a, k)) == F.mul(F.mul(c, a), Power(F, a, k - 1))
  {
    MulAssoc(F, c, a, Power(F, a, k - 1));
  }

  lemma GeometricFirst(F: Field, a: Elem, c: Elem)
    requires IsField(F)
    ensures F.mul(c, Power(F, a, 0)) == c
  {
  }

  lemma GeometricSeqStep(F: Field, a: Elem, c: Elem, t: nat)
    requires IsField(F) && t > 0
    ensures GeometricSeq(F, a, c, t) == GeometricSeq(F, a, F.mul(c, a), t - 1) + [c]
  {
    hide IsField, Power;
    var w, w' := GeometricSeq(F, a, c, t), GeometricSeq(F, a, F.mul(c, a), t - 1);
    forall i | 0 <= i < t - 1 ensures w[i] == w'[i] {
      GeometricTerm(F, a, c, t - 1 - i);
      assert w[i] == F.mul(c, Power(F, a, t - 1 - i));
      assert w'[i] == F.mul(F.mul(c, a), Power(F, a, t - 1 - 1 - i));
    }
    assert w[t - 1] == F.mul(c, Power(F, a, t - 1 - (t - 1)));
    GeometricFirst(F, a, c);
  }

  lemma {:induction false} ValGeometric(F: Field, a: Elem, c: Elem, t: nat)
    requires IsField(F)
    ensures Val(GeometricSeq(F, a, c, t)) == Geometric(F, a, c, t)
    decreases t
  {
    if t == 0 {
      assert GeometricSeq(F, a, c, t) == [];
    } else {
      hide IsField, Power, Val, GeometricSeq;
      var w := GeometricSeq(F, a, c, t);
      GeometricSeqStep(F, a, c, t);
      ValStep(w);
      assert w[..|w| - 1] == GeometricSeq(F, a, F.mul(c, a), t - 1);
      ValGeometric(F, a, F.mul(c, a), t - 1);
    }
  }

  lemma ErrorSumTerm(F: Field, base: nat, locs: seq<Elem>, mags: seq<Elem>, s: nat, k: nat)
    requires IsField(F) && 0 < s <= |locs| == |mags|
    ensures ErrorSum(F, locs, mags, s, k + base)
            == F.add(ErrorSum(F, locs, mags, s - 1, k + base),
                     F.mul(Weight(F, base, locs, mags, s - 1), Power(F, locs[s - 1], k)))
  {
    var x, e := locs[s - 1], mags[s - 1];
    PowerAdd(F, x, base, k);
    assert base + k == k + base;
    MulAssoc(F, e, Power(F, x, base), Power(F, x, k));
  }

  /** One more error adds its geometric sequence to the syndromes. */
  lemma ErrorSyndromesStep(F: Field, base: nat, locs: seq<Elem>, mags: seq<Elem>, s: nat, t: nat)
    requires IsField(F) && 0 < s <= |locs| == |mags|
    ensures ErrorSyndromes(F, base, locs, mags, s, t)
            == Difference(F, ErrorSyndromes(F, base, locs, mags, s - 1, t),
                          GeometricSeq(F, locs[s - 1], Weight(F, base, locs, mags, s - 1), t))
  {
    hide IsField, ErrorSum, Power, Weight;
    var r := ErrorSyndromes(F, base, locs, mags, s, t);
    var r' := ErrorSyndromes(F, base, locs, mags, s - 1, t);
    var g := GeometricSeq(F, locs[s - 1], Weight(F, base, locs, mags, s - 1), t);
    forall i | 0 <= i < t ensures r[i] == F.add(r'[i], g[i]) {
      ErrorSumTerm(F, base, locs, mags, s, t - 1 - i);
    }
  }

  lemma {:induction false} ValErrorSyndromes(F: Field, base: nat, locs: seq<Elem>, mags: seq<Elem>,
                                             s: nat, t: nat)
    requires IsField(F) && s <= |locs| == |mags|
    ensures Val(ErrorSyndromes(F, base, locs, mags, s, t)) == SyndromePoly(F, base, locs, mags, s, t)
    decreases s
  {
    hide Val, Add, Geometric, IsField, GeometricSeq, Weight, Difference;
    if s == 0 {
      var r := ErrorSyndromes(F, base, locs, mags, 0, t);
      forall i | 0 <= i < t ensures r[i] == 0 {
        assert r[i] == ErrorSum(F, locs, mags, 0, t - 1 - i + base);
      }
      assert r == Zeros(t);
      ValZeros(t);
    } else {
      var w := Weight(F, base, locs, mags, s - 1);
      ValErrorSyndromes(F, base, locs, mags, s - 1, t);
      ErrorSyndromesStep(F, base, locs, mags, s, t);
      ValGeometric(F, locs[s - 1], w, t);
      ValDifference(F, ErrorSyndromes(F, base, locs, mags, s - 1, t), GeometricSeq(F, locs[s - 1], w, t));
    }
  }

  lemma {:induction false} ValZeros(n: nat)
    ensures Val(Zeros(n)) == []
    decreases n
  {
    if n != 0 {
      assert Zeros(n)[..n - 1] == Zeros(n - 1);
      ValZeros(n - 1);
    }
  }

  /** The syndromes of a received word are those of its errors alone. */
  lemma SyndromesOfErrors(F: Field, base: nat, w: seq<Elem>, c: seq<Elem>, t: nat)
    requires IsField(F) && |w| == |c| <= 255 && IsCodeword(F, base, c, t)
    ensures var locs := LocationsUpTo(F, Difference(F, w, c), 255);
            Syndromes(F, base, w, t)
            == ErrorSyndromes(F, base, locs, MagnitudesAt(F, Difference(F, w, c), locs), |locs|, t)
  {
    hide Val, Eval, LocationsUpTo, Difference;
    var d := Difference(F, w, c);
    var locs := LocationsUpTo(F, d, 255);
    var mags := MagnitudesAt(F, d, locs);
    var s, r := Syndromes(F, base, w, t), ErrorSyndromes(F, base, locs, mags, |locs|, t);
    forall i | 0 <= i < t ensures s[i] == r[i] {
      var m := t - 1 - i + base;
      RestrictSum(F, d, 255, m);
      RestrictAll(F, d);
      ValDifference(F, w, c);
      EvalAdd(F, Val(w), Val(c), F.exp(m));
      assert HasRoot(F, base, c, t - 1 - i);
    }
  }

  // ---- Finding the locations

  lemma {:induction false} ScanFindsAll(F: Field, locs: seq<Elem>, o: nat, m: nat)
    requires IsField(F) && Ordered(F, locs) && 1 <= o <= 256 && m <= |locs|
    requires forall i :: 0 <= i < |locs| ==> locs[i] != 0
    requires forall i :: 0 <= i < m ==> F.inv(locs[i]) < o
    requires forall i :: m <= i < |locs| ==> o <= F.inv(locs[i])
    ensures RootScan(F, Locator(F, locs, |locs|), o, |locs|, locs[..m]) == locs
    decreases 256 - o
  {
    hide Eval, Locator;
    if m == |locs| {
      assert locs[..m] == locs;
    } else {
      assert o <= F.inv(locs[m]);
      LocatorRoots(F, locs, |locs|, o);
      if Eval(F, Locator(F, locs, |locs|), o) == 0 {
        var i :| 0 <= i < |locs| && F.inv(locs[i]) == o;
        assert i == m;
        InverseInverse(F, locs[m]);
        assert locs[..m] + [locs[m]] == locs[..m + 1];
        ScanFindsAll(F, locs, o + 1, m + 1);
      } else {
        assert F.inv(locs[m]) != o;
        ScanFindsAll(F, locs, o + 1, m);
      }
    }
  }

  /** The locator of at least one error yields its locations, in order. */
  lemma LocationsFound(F: Field, locs: seq<Elem>)
    requires IsField(F) && Ordered(F, locs) && 1 <= |locs|
    requires forall i :: 0 <= i < |locs| ==> locs[i] != 0
    ensures ErrorLocations(F, Locator(F, locs, |locs|)) == Located(locs)
  {
    hide Locator, RootScan, Mul, IsField, Coef;
    LocatorShape(F, locs, |locs|);
    if |locs| == 1 {
      OneLocator(F, locs);
      assert [locs[0]] == locs;
    } else {
      assert locs[..0] == [];
      forall i | 0 <= i < |locs| ensures F.inv(locs[i]) >= 1 {
        InverseNonzero(F, locs[i]);
      }
      ScanFindsAll(F, locs, 1, 0);
    }
  }

  lemma InverseNonzero(F: Field, x: Elem)
    requires IsField(F) && x != 0
    ensures F.inv(x) != 0
  {
  }

  lemma OneLocator(F: Field, locs: seq<Elem>)
    requires IsField(F) && |locs| == 1 && locs[0] != 0
    ensures Coef(Locator(F, locs, 1), 1) == locs[0]
  {
    assert Locator(F, locs, 1) == Mul(F, OnePlus(locs[0]), Locator(F, locs, 0));
    hide Mul, IsField;
    MulConst(F, 1, OnePlus(locs[0]));
    ScaleOne(F, OnePlus(locs[0]));
    assert Coef(OnePlus(locs[0]), 1) == locs[0];
  }

  // ---- Repairing

  lemma {:induction false} RepairRestores(F: Field, w: seq<Elem>, c: seq<Elem>, locs: seq<Elem>, mags: seq<Elem>)
    requires IsField(F) && |w| == |c| <= 255 && |locs| == |mags| && Distinct(locs)
    requires forall i :: 0 <= i < |locs| ==> locs[i] != 0 && 0 <= Position(F, |w|, locs[i])
    requires forall i :: 0 <= i < |locs| ==>
               w[Position(F, |w|, locs[i])] == F.add(c[Position(F, |w|, locs[i])], mags[i])
    requires forall p: nat :: p < |w| && w[p] != c[p] ==> Location(F, |w|, p) in locs
    ensures Repair(F, w, locs, mags) == Outcome(true, c)
    decreases |locs|
  {
    hide IsField;
    if locs == [] {
      assert w == c;
    } else {
      var x := Position(F, |w|, locs[0]);
      LocationInverse(F, |w|, locs[0]);
      AddCancel(F, c[x], mags[0]);
      var w' := w[x := F.add(w[x], mags[0])];
      forall i | 0 <= i < |locs[1..]|
        ensures w'[Position(F, |w|, locs[1..][i])]
                == F.add(c[Position(F, |w|, locs[1..][i])], mags[1..][i])
      {
        LocationInverse(F, |w|, locs[i + 1]);
        assert locs[0] != locs[i + 1];
      }
      forall p: nat | p < |w| && w'[p] != c[p] ensures Location(F, |w|, p) in locs[1..] {
        PositionInverse(F, |w|, p);
        var i :| 0 <= i < |locs| && locs[i] == Location(F, |w|, p);
        assert i != 0;
        assert locs[i] == locs[1..][i - 1];
      }
      RepairRestores(F, w', c, locs[1..], mags[1..]);
    }
  }

  // ---- The main theorem

  /** The positions at which two words differ. */
  function Differing(w: seq<Elem>, c: seq<Elem>): set<nat>
    requires |w| == |c|
  {
    set p: nat | p < |w| && w[p] != c[p]
  }

  lemma {:induction false} LocationsCount(F: Field, n: nat, locs: seq<Elem>, ps: set<nat>)
    requires IsField(F) && Distinct(locs)
    requires forall i :: 0 <= i < |locs| ==> locs[i] != 0 && 0 <= Position(F, n, locs[i])
    requires forall i :: 0 <= i < |locs| ==> Position(F, n, locs[i]) in ps
    ensures |locs| <= |ps|
    decreases |locs|
  {
    if locs != [] {
      var k := |locs| - 1;
      forall i | 0 <= i < k ensures Position(F, n, locs[i]) in ps - {Position(F, n, locs[k])} {
        LocationInverse(F, n, locs[i]);
        LocationInverse(F, n, locs[k]);
      }
      LocationsCount(F, n, locs[..k], ps - {Position(F, n, locs[k])});
    }
  }

  /** What the error locations of a received word satisfy. */
  lemma ErrorsOf(F: Field, w: seq<Elem>, c: seq<Elem>)
    requires IsField(F) && |w| == |c| <= 255
    ensures var d := Difference(F, w, c);
            var locs := LocationsUpTo(F, d, 255);
            && Ordered(F, locs) && IsErrors(locs, MagnitudesAt(F, d, locs))
            && |locs| <= |Differing(w, c)|
            && (forall p: nat :: p < |w| && w[p] != c[p] ==> Location(F, |w|, p) in locs)
            && (forall i :: 0 <= i < |locs| ==>
                  w[Position(F, |w|, locs[i])]
                  == F.add(c[Position(F, |w|, locs[i])], MagnitudesAt(F, d, locs)[i]))
  {
    var d := Difference(F, w, c);
    var locs := LocationsUpTo(F, d, 255);
    LocationsOrdered(F, d, 255);
    OrderedDistinct(F, locs);
    forall i | 0 <= i < |locs|
      ensures Position(F, |w|, locs[i]) in Differing(w, c)
      ensures w[Position(F, |w|, locs[i])]
              == F.add(c[Position(F, |w|, locs[i])], MagnitudesAt(F, d, locs)[i])
    {
      var p := Position(F, |w|, locs[i]);
      AddCancel(F, w[p], c[p]);
    }
    LocationsCount(F, |w|, locs, Differing(w, c));
    forall p: nat | p < |w| && w[p] != c[p] ensures Location(F, |w|, p) in locs {
      AddCancel(F, w[p], c[p]);
      LocationsComplete(F, d, 255, p);
    }
  }

  /** Few errors are never mistaken for none. */
  lemma ErrorsShow(F: Field, base: nat, locs: seq<Elem>, mags: seq<Elem>, t: nat)
    requires IsField(F) && IsErrors(locs, mags) && 1 <= |locs| <= t / 2
    ensures !AllZero(ErrorSyndromes(F, base, locs, mags, |locs|, t))
  {
    hide Val, Eval, Locator, Evaluator, SyndromePoly;
    var r := ErrorSyndromes(F, base, locs, mags, |locs|, t);
    if AllZero(r) {
      var omega := Evaluator(F, base, locs, mags, |locs|);
      assert r == Zeros(t);
      ValZeros(t);
      ValErrorSyndromes(F, base, locs, mags, |locs|, t);
      var a := KeyEquationHolds(F, base, locs, mags, |locs|, t);
      MulZero(F, Locator(F, locs, |locs|));
      AddZero(F, omega, Shift(a, t));
      EvaluatorLen(F, base, locs, mags, |locs|);
      EvalNil(F, F.inv(locs[0]));
      EvaluatorNonzero(F, base, locs, mags, 0);
    }
  }

  lemma EvalNil(F: Field, x: Elem)
    ensures Eval(F, [], x) == 0
  {
  }

  /** Every received word that differs from a codeword in at most t / 2 places, t being the
      number of check symbols, is repaired to exactly that codeword. */
  lemma DecodeRestores(F: Field, base: nat, w: seq<Elem>, c: seq<Elem>, t: nat)
    requires IsField(F) && base <= 1
    requires |w| == |c| <= 255 && IsCodeword(F, base, c, t)
    requires |Differing(w, c)| <= t / 2
    ensures Decode(F, base, w, t) == Outcome(true, c)
  {
    hide Val, Locator, Evaluator, SyndromePoly, EuclidLoop, RunEuclid, Magnitude, Repair, IsErrors, LocationsUpTo, Difference;
    var d := Difference(F, w, c);
    var locs := LocationsUpTo(F, d, 255);
    var mags := MagnitudesAt(F, d, locs);
    ErrorsOf(F, w, c);
    SyndromesOfErrors(F, base, w, c, t);
    if locs == [] {
      assert w == c;
      SyndromesDecide(F, base, w, t);
    } else {
      ErrorsShow(F, base, locs, mags, t);
      ValErrorSyndromes(F, base, locs, mags, |locs|, t);
      ValLen(Syndromes(F, base, w, t));
      RunFindsErrors(F, base, locs, mags, t, Val(Syndromes(F, base, w, t)));
      LocationsFound(F, locs);
      var omega := Evaluator(F, base, locs, mags, |locs|);
      forall o | 0 <= o < |locs| ensures Magnitude(F, base, omega, locs, o) == mags[o] {
        MagnitudeCorrect(F, base, locs, mags, o);
      }
      assert Magnitudes(F, base, omega, locs) == mags;
      OrderedDistinct(F, locs);
      RepairRestores(F, w, c, locs, mags);
    }
  }

  /** A word of the code is left alone. */
  lemma DecodeKeepsCodewords(F: Field, base: nat, w: seq<Elem>, t: nat)
    requires IsField(F) && IsCodeword(F, base, w, t)
    ensures Decode(F, base, w, t) == Outcome(true, w)
  {
    SyndromesDecide(F, base, w, t);
  }
}
