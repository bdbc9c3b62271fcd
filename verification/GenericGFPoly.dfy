/** Polynomials as the program holds them: coefficient lists from the highest power down,
    with no leading zero unless the list is [0].  Every operation is a loop over such lists
    and is proved to compute the polynomial operation it stands for. */
module GenericPolynomials {
  import opened GaloisField
  import opened Polynomials
  import opened ReedSolomonCode
  import opened SystematicCode
  import opened ErrorCorrection
  import opened GenericField

  /** The constructor's normal form. */
  predicate Normal(cs: seq<Elem>) {
    |cs| > 0 && (|cs| == 1 || cs[0] != 0)
  }

  function DegreeOf(cs: seq<Elem>): nat
    requires |cs| > 0
  {
    |cs| - 1
  }

  function IsZero(cs: seq<Elem>): bool
    requires |cs| > 0
  {
    cs[0] == 0
  }

  // ---- Lists and the polynomials they denote

  lemma {:induction false} ValLeadingZero(cs: seq<Elem>)
    requires cs != [] && cs[0] == 0
    ensures Val(cs) == Val(cs[1..])
    decreases |cs|
  {
    var n := |cs| - 1;
    ValStep(cs);
    if n == 0 {
      assert cs[..0] == cs[1..] == [];
    } else {
      ValStep(cs[1..]);
      hide Val;
      ValLeadingZero(cs[..n]);
      assert cs[..n][1..] == cs[1..][..n - 1];
    }
  }

  lemma {:induction false} ValLead(cs: seq<Elem>)
    requires cs != [] && cs[0] != 0
    ensures |Val(cs)| == |cs| && Lead(Val(cs)) == cs[0]
    decreases |cs|
  {
    var n := |cs| - 1;
    if n == 0 {
      assert cs[..0] == [];
    } else {
      ValLead(cs[..n]);
      ConsLead(cs[n], Val(cs[..n]));
    }
  }

  /** What a normal list says about its polynomial. */
  lemma NormalVal(cs: seq<Elem>)
    requires Normal(cs)
    ensures IsZero(cs) <==> Val(cs) == []
    ensures IsZero(cs) ==> cs == [0]
    ensures !IsZero(cs) ==> |Val(cs)| == |cs| && Lead(Val(cs)) == cs[0]
    ensures Degree(Val(cs)) == |cs| - 1
    ensures Hd(Val(cs)) == cs[|cs| - 1]
  {
    if cs[0] == 0 {
      assert cs == [0];
      assert cs[..0] == [];
    } else {
      ValLead(cs);
    }
  }

  /** Every coefficient of the list is the one of its power. */
  lemma ValCoef(cs: seq<Elem>, k: nat)
    requires k < |cs|
    ensures Coef(Val(cs), k) == cs[|cs| - 1 - k]
  {
    hide Val;
    DigitsVal(cs);
    assert Digits(Val(cs), |cs|)[|cs| - 1 - k] == Coef(Val(cs), |cs| - 1 - (|cs| - 1 - k));
  }

  lemma ValPad(F: Field, k: nat, cs: seq<Elem>)
    requires IsField(F)
    ensures Val(Zeros(k) + cs) == Val(cs)
  {
    hide Add;
    ValAppend(F, Zeros(k), cs);
    ValZeros(k);
    AddNil(F, Val(cs));
  }

  lemma ValTrail(F: Field, cs: seq<Elem>, k: nat)
    requires IsField(F)
    ensures Val(cs + Zeros(k)) == Shift(Val(cs), k)
  {
    hide Add;
    ValAppend(F, cs, Zeros(k));
    ValZeros(k);
    AddNil(F, Shift(Val(cs), k));
  }

  function Scaled(F: Field, c: Elem, cs: seq<Elem>): (r: seq<Elem>)
    ensures |r| == |cs|
  {
    seq<Elem>(|cs|, i requires 0 <= i < |cs| => F.mul(cs[i], c))
  }

  lemma {:induction false} ValScaled(F: Field, c: Elem, cs: seq<Elem>)
    requires IsField(F)
    ensures Val(Scaled(F, c, cs)) == Scale(F, c, Val(cs))
    decreases |cs|
  {
    hide Scale, IsField;
    if cs == [] {
      ScaleNil(F, c);
    } else {
      var n := |cs| - 1;
      ValScaled(F, c, cs[..n]);
      assert Scaled(F, c, cs)[..n] == Scaled(F, c, cs[..n]);
      ScaleCons(F, c, cs[n], Val(cs[..n]));
      MulCommutes(F, c, cs[n]);
    }
  }

  lemma MulCommutes(F: Field, a: Elem, b: Elem)
    requires IsField(F)
    ensures F.mul(a, b) == F.mul(b, a)
  {
  }

  lemma ScaleNil(F: Field, c: Elem)
    ensures Scale(F, c, []) == []
  {
  }

  // ---- Construction

  /** The constructor: strips leading zeros.  It throws for an empty list, which no caller
      passes. */
  method Construct(cs: seq<Elem>) returns (r: seq<Elem>)
    requires |cs| > 0
    ensures Normal(r) && Val(r) == Val(cs)
  {
    hide Val;
    if |cs| > 1 && cs[0] == 0 {
      var firstNonZero := 1;
      ValLeadingZero(cs);
      while firstNonZero < |cs| && cs[firstNonZero] == 0
        invariant 1 <= firstNonZero <= |cs|
        invariant Val(cs) == Val(cs[firstNonZero..])
      {
        ValLeadingZero(cs[firstNonZero..]);
        assert cs[firstNonZero..][1..] == cs[firstNonZero + 1..];
        firstNonZero := firstNonZero + 1;
      }
      if firstNonZero == |cs| {
        r := [0];
        ValOfNothing(cs[firstNonZero..]);
      } else {
        r := cs[firstNonZero..];
      }
    } else {
      r := cs;
    }
  }

  lemma ValOfNothing(cs: seq<Elem>)
    requires cs == []
    ensures Val(cs) == Val([0])
  {
    assert [0][..0] == [];
  }

  /** c x^degree */
  method BuildMonomial(degree: nat, c: Elem) returns (r: seq<Elem>)
    ensures Normal(r) && Val(r) == Shift(Const(c), degree)
  {
    if c == 0 {
      r := [0];
      assert r[..0] == [];
    } else {
      var cs := new Elem[degree + 1](_ => 0);
      cs[0] := c;
      assert cs[..] == [c] + Zeros(degree);
      MonomialVal(c, degree);
      r := cs[..];
    }
  }

  lemma {:induction false} MonomialVal(c: Elem, degree: nat)
    ensures Val([c] + Zeros(degree)) == Shift(Const(c), degree)
    decreases degree
  {
    var w := [c] + Zeros(degree);
    if degree == 0 {
      assert w[..0] == [];
    } else {
      assert w[..degree] == [c] + Zeros(degree - 1);
      MonomialVal(c, degree - 1);
    }
  }

  // ---- Evaluation

  /** Horner's rule, with the short cuts for 0 and 1. */
  method EvaluateAt(field: GenericGF, cs: seq<Elem>, x: Elem) returns (r: Elem)
    requires field.Valid() && |cs| > 0
    ensures r == Eval(field.F, Val(cs), x)
  {
    ghost var F := field.F;
    hide Eval, Val, IsField;
    if x == 0 {
      r := cs[|cs| - 1];
      EvalLast(F, cs, 0);
      EvalFirst(F, Eval(F, Val(cs[..|cs| - 1]), 0), r);
    } else if x == 1 {
      r := SumAll(field, cs);
    } else {
      r := Horner(field, cs, x);
    }
  }

  method SumAll(field: GenericGF, cs: seq<Elem>) returns (r: Elem)
    requires field.Valid() && |cs| > 0
    ensures r == Eval(field.F, Val(cs), 1)
  {
    ghost var F := field.F;
    hide Eval, Val, IsField;
    r := 0;
    assert cs[..0] == [];
    EvalEmpty(F, 1);
    for i := 0 to |cs|
      invariant r == Eval(F, Val(cs[..i]), 1)
    {
      assert cs[..i + 1][..i] == cs[..i];
      EvalLast(F, cs[..i + 1], 1);
      EvalUnit(F, r, cs[i]);
      r := GenericGF.AddOrSubtract(r, cs[i]);
    }
    assert cs[..|cs|] == cs;
  }

  method Horner(field: GenericGF, cs: seq<Elem>, x: Elem) returns (r: Elem)
    requires field.Valid() && |cs| > 0
    ensures r == Eval(field.F, Val(cs), x)
  {
    ghost var F := field.F;
    hide Eval, Val, IsField;
    r := cs[0];
    assert cs[..1][..0] == [];
    EvalLast(F, cs[..1], x);
    EvalEmpty(F, x);
    EvalFirst(F, 0, r);
    EvalZeroTimes(F, x, r);
    for i := 1 to |cs|
      invariant r == Eval(F, Val(cs[..i]), x)
    {
      assert cs[..i + 1][..i] == cs[..i];
      EvalLast(F, cs[..i + 1], x);
      AddCommutes(F, cs[i], F.mul(x, r));
      r := GenericGF.AddOrSubtract(field.Multiply(x, r), cs[i]);
    }
    assert cs[..|cs|] == cs;
  }

  lemma EvalEmpty(F: Field, x: Elem)
    ensures Eval(F, Val([]), x) == 0
  {
  }

  lemma EvalFirst(F: Field, e: Elem, c: Elem)
    requires IsField(F)
    ensures F.add(c, F.mul(0, e)) == c
  {
  }

  lemma EvalZeroTimes(F: Field, x: Elem, c: Elem)
    requires IsField(F)
    ensures F.add(c, F.mul(x, 0)) == c
  {
  }

  lemma EvalUnit(F: Field, e: Elem, c: Elem)
    requires IsField(F)
    ensures F.add(c, F.mul(1, e)) == F.add(e, c)
  {
  }

  lemma AddCommutes(F: Field, a: Elem, b: Elem)
    requires IsField(F)
    ensures F.add(a, b) == F.add(b, a)
  {
  }

  // ---- Addition and multiplication

  method AddOrSubtract(field: GenericGF, a: seq<Elem>, b: seq<Elem>) returns (r: seq<Elem>)
    requires field.Valid() && Normal(a) && Normal(b)
    ensures Normal(r) && Val(r) == Add(field.F, Val(a), Val(b))
  {
    hide Add, Val, IsField;
    ghost var F := field.F;
    NormalVal(a);
    NormalVal(b);
    AddNil(F, Val(a));
    AddNil(F, Val(b));
    AddPolyComm(F, Val(a), Val(b));
    if IsZero(a) { return b; }
    if IsZero(b) { return a; }
    var smaller, larger := a, b;
    if |smaller| > |larger| {
      smaller, larger := larger, smaller;
    }
    AddPolyComm(F, Val(smaller), Val(larger));
    var sumDiff := PaddedSum(field, smaller, larger);
    r := Construct(sumDiff);
  }

  /** The sum of two lists, the smaller one taken from the end. */
  method PaddedSum(field: GenericGF, smaller: seq<Elem>, larger: seq<Elem>) returns (r: seq<Elem>)
    requires field.Valid() && 0 < |smaller| <= |larger|
    ensures |r| == |larger| && Val(r) == Add(field.F, Val(smaller), Val(larger))
  {
    hide Add, Val, IsField;
    ghost var F := field.F;
    var sumDiff := new Elem[|larger|](_ => 0);
    var lengthDiff := |larger| - |smaller|;
    for i := 0 to lengthDiff
      invariant forall k :: 0 <= k < i ==> sumDiff[k] == larger[k]
    {
      sumDiff[i] := larger[i];
    }
    for i := lengthDiff to |larger|
      invariant forall k :: 0 <= k < lengthDiff ==> sumDiff[k] == larger[k]
      invariant forall k :: lengthDiff <= k < i ==> sumDiff[k] == F.add(smaller[k - lengthDiff], larger[k])
    {
      sumDiff[i] := GenericGF.AddOrSubtract(smaller[i - lengthDiff], larger[i]);
    }
    SumVal(F, smaller, larger, sumDiff[..]);
    r := sumDiff[..];
  }

  lemma AddZeroElem(F: Field, a: Elem)
    requires IsField(F)
    ensures F.add(0, a) == a
  {
  }

  lemma SumVal(F: Field, smaller: seq<Elem>, larger: seq<Elem>, sum: seq<Elem>)
    requires IsField(F) && |smaller| <= |larger| == |sum|
    requires forall k :: 0 <= k < |larger| - |smaller| ==> sum[k] == larger[k]
    requires forall k :: |larger| - |smaller| <= k < |larger| ==>
               sum[k] == F.add(smaller[k - (|larger| - |smaller|)], larger[k])
    ensures Val(sum) == Add(F, Val(smaller), Val(larger))
  {
    hide Val, Add, IsField;
    var m := |larger| - |smaller|;
    var pad := Zeros(m) + smaller;
    ValPad(F, m, smaller);
    forall k | 0 <= k < |sum| ensures sum[k] == F.add(pad[k], larger[k]) {
      if k < m {
        AddZeroElem(F, larger[k]);
      }
    }
    assert sum == Difference(F, pad, larger);
    ValDifference(F, pad, larger);
  }

  /** A list with c times b added in from index i on. */
  function WithRow(F: Field, before: seq<Elem>, i: nat, c: Elem, b: seq<Elem>, j: nat): (r: seq<Elem>)
    requires j <= |b| && i + |b| <= |before|
    ensures |r| == |before|
  {
    seq<Elem>(|before|, k requires 0 <= k < |before| =>
      if i <= k < i + j then F.add(before[k], F.mul(c, b[k - i])) else before[k])
  }

  lemma WithRowStep(F: Field, before: seq<Elem>, i: nat, c: Elem, b: seq<Elem>, j: nat)
    requires j < |b| && i + |b| <= |before|
    ensures WithRow(F, before, i, c, b, j)[i + j] == before[i + j]
    ensures WithRow(F, before, i, c, b, j + 1)
            == WithRow(F, before, i, c, b, j)[i + j := F.add(before[i + j], F.mul(c, b[j]))]
  {
  }

  /** The inner loop of the multiplication. */
  method AddRow(field: GenericGF, product: array<Elem>, i: nat, c: Elem, b: seq<Elem>)
    requires field.Valid() && i + |b| <= product.Length
    modifies product
    ensures product[..] == WithRow(field.F, old(product[..]), i, c, b, |b|)
  {
    hide IsField, WithRow;
    ghost var before := product[..];
    assert before == WithRow(field.F, before, i, c, b, 0) by { WithRowNone(field.F, before, i, c, b); }
    for j := 0 to |b|
      invariant product[..] == WithRow(field.F, before, i, c, b, j)
    {
      WithRowStep(field.F, before, i, c, b, j);
      product[i + j] := GenericGF.AddOrSubtract(product[i + j], field.Multiply(c, b[j]));
    }
  }

  lemma WithRowNone(F: Field, before: seq<Elem>, i: nat, c: Elem, b: seq<Elem>)
    requires i + |b| <= |before|
    ensures WithRow(F, before, i, c, b, 0) == before
  {
  }

  method Multiply(field: GenericGF, a: seq<Elem>, b: seq<Elem>) returns (r: seq<Elem>)
    requires field.Valid() && Normal(a) && Normal(b)
    ensures Normal(r) && Val(r) == Mul(field.F, Val(a), Val(b))
  {
    hide Mul, Val, IsField, Add, Scale, Shift;
    ghost var F := field.F;
    NormalVal(a);
    NormalVal(b);
    if IsZero(a) || IsZero(b) {
      MulPolyComm(F, Val(a), Val(b));
      MulZero(F, Val(a));
      MulZero(F, Val(b));
      r := [0];
      ValOfZero();
      return;
    }
    var product := new Elem[|a| + |b| - 1](_ => 0);
    assert product[..] == Zeros(|a| + |b| - 1);
    ProductStart(F, a, b);
    for i := 0 to |a|
      invariant Val(product[..]) == Shift(Mul(F, Val(a[..i]), Val(b)), |a| - i)
    {
      ghost var before := product[..];
      AddRow(field, product, i, a[i], b);
      RowVal(F, a, b, i, before, product[..]);
    }
    assert a[..|a|] == a;
    ShiftNone(Mul(F, Val(a), Val(b)));
    r := Construct(product[..]);
  }

  lemma ValOfZero()
    ensures Val([0]) == []
  {
    var w: seq<Elem> := [0];
    assert w[..0] == [];
  }

  lemma ShiftNone(p: Poly)
    ensures Shift(p, 0) == p
  {
  }

  lemma ProductStart(F: Field, a: seq<Elem>, b: seq<Elem>)
    requires |a| > 0 && |b| > 0
    ensures Val(Zeros(|a| + |b| - 1)) == Shift(Mul(F, Val(a[..0]), Val(b)), |a|)
  {
    ValZeros(|a| + |b| - 1);
    assert a[..0] == [];
  }

  /** One row of the product: b scaled by a[i] and shifted to its place. */
  lemma RowVal(F: Field, a: seq<Elem>, b: seq<Elem>, i: nat, before: seq<Elem>, after: seq<Elem>)
    requires IsField(F) && i < |a| && |b| > 0 && |before| == |after| == |a| + |b| - 1
    requires Val(before) == Shift(Mul(F, Val(a[..i]), Val(b)), |a| - i)
    requires after == WithRow(F, before, i, a[i], b, |b|)
    ensures Val(after) == Shift(Mul(F, Val(a[..i + 1]), Val(b)), |a| - (i + 1))
  {
    hide Val, Mul, Shift, Add, Scale;
    var row := Zeros(i) + Scaled(F, a[i], b) + Zeros(|a| - 1 - i);
    forall k | 0 <= k < |after| ensures after[k] == F.add(before[k], row[k]) {
    }
    assert after == Difference(F, before, row);
    ValDifference(F, before, row);
    ValTrail(F, Zeros(i) + Scaled(F, a[i], b), |a| - 1 - i);
    ValPad(F, i, Scaled(F, a[i], b));
    ValScaled(F, a[i], b);
    RowAlgebra(F, Val(a[..i]), a[i], Val(b), |a| - 1 - i);
    assert a[..i + 1][..i] == a[..i];
    assert Val(a[..i + 1]) == Cons(a[i], Val(a[..i])) by { ValStep(a[..i + 1]); }
  }

  lemma RowAlgebra(F: Field, p: Poly, c: Elem, q: Poly, k: nat)
    requires IsField(F)
    ensures Shift(Mul(F, Cons(c, p), q), k) == Add(F, Shift(Mul(F, p, q), k + 1), Shift(Scale(F, c, q), k))
  {
    hide Mul, Add, Scale, Shift;
    MulCons(F, c, p, q);
    AddPolyComm(F, Scale(F, c, q), Cons(0, Mul(F, p, q)));
    ShiftAdd(F, Cons(0, Mul(F, p, q)), Scale(F, c, q), k);
    ShiftOne(Mul(F, p, q), k);
  }

  lemma {:induction false} ShiftOne(p: Poly, k: nat)
    ensures Shift(Cons(0, p), k) == Shift(p, k + 1)
    decreases k
  {
    if k != 0 {
      ShiftOne(p, k - 1);
    }
  }

  method MultiplyScalar(field: GenericGF, cs: seq<Elem>, c: Elem) returns (r: seq<Elem>)
    requires field.Valid() && Normal(cs)
    ensures Normal(r) && Val(r) == Scale(field.F, c, Val(cs))
  {
    hide Val, IsField, Scale;
    ghost var F := field.F;
    ScaleZero(F, Val(cs));
    ScaleOne(F, Val(cs));
    ValOfZero();
    if c == 0 { return [0]; }
    if c == 1 { return cs; }
    var product := new Elem[|cs|](_ => 0);
    for i := 0 to |cs|
      invariant forall k :: 0 <= k < i ==> product[k] == F.mul(cs[k], c)
    {
      product[i] := field.Multiply(cs[i], c);
    }
    assert product[..] == Scaled(F, c, cs);
    ValScaled(F, c, cs);
    r := Construct(product[..]);
  }

  method MultiplyByMonomial(field: GenericGF, cs: seq<Elem>, degree: nat, c: Elem) returns (r: seq<Elem>)
    requires field.Valid() && Normal(cs)
    ensures Normal(r) && Val(r) == Shift(Scale(field.F, c, Val(cs)), degree)
  {
    hide Val, IsField, Scale;
    ghost var F := field.F;
    if c == 0 {
      ScaleZero(F, Val(cs));
      ValOfZero();
      return [0];
    }
    var product := new Elem[|cs| + degree](_ => 0);
    for i := 0 to |cs|
      invariant forall k :: 0 <= k < product.Length ==> product[k] == if k < i then F.mul(cs[k], c) else 0
    {
      product[i] := field.Multiply(cs[i], c);
    }
    assert product[..] == Scaled(F, c, cs) + Zeros(degree);
    ValTrail(F, Scaled(F, c, cs), degree);
    ValScaled(F, c, cs);
    r := Construct(product[..]);
  }

  // ---- Division

  /** The step of long division as the loop takes it. */
  method DivideStepDown(field: GenericGF, dividend: seq<Elem>, divisor: seq<Elem>)
    returns (scale: Elem, next: seq<Elem>)
    requires field.Valid() && Normal(dividend) && Normal(divisor) && !IsZero(dividend) && !IsZero(divisor)
    requires |divisor| <= |dividend|
    ensures scale == StepFactor(field.F, Val(dividend), Val(divisor))
    ensures Normal(next) && |Val(divisor)| <= |Val(dividend)|
    ensures Val(next) == Add(field.F, Val(dividend), StepTerm(field.F, Val(dividend), Val(divisor)))
  {
    hide Val, IsField, Add, Scale, Shift;
    NormalVal(dividend);
    NormalVal(divisor);
    var degreeDifference := DegreeOf(dividend) - DegreeOf(divisor);
    scale := field.Multiply(dividend[0], field.Inverse(divisor[0]));
    var term := MultiplyByMonomial(field, divisor, degreeDifference, scale);
    next := AddOrSubtract(field, dividend, term);
  }

  /** Long division.  It throws for a zero divisor, which no caller passes. */
  method DivideBy(field: GenericGF, a: seq<Elem>, d: seq<Elem>) returns (quotient: seq<Elem>, remainder: seq<Elem>)
    requires field.Valid() && Normal(a) && Normal(d) && !IsZero(d)
    ensures Val(d) != [] && Normal(quotient) && Normal(remainder)
    ensures (Val(quotient), Val(remainder)) == Divide(field.F, Val(a), Val(d))
  {
    hide Val, IsField, Add, Scale, Shift, StepTerm, StepFactor;
    ghost var F := field.F;
    NormalVal(d);
    quotient, remainder := [0], a;
    ValOfZero();
    ghost var (q, r) := Divide(F, Val(a), Val(d));
    AddNil(F, q);
    while DegreeOf(remainder) >= DegreeOf(d) && !IsZero(remainder)
      invariant Normal(quotient) && Normal(remainder)
      invariant q == Add(F, Val(quotient), Divide(F, Val(remainder), Val(d)).0)
      invariant r == Divide(F, Val(remainder), Val(d)).1
      decreases |Val(remainder)|
    {
      NormalVal(remainder);
      StepShrinks(F, Val(remainder), Val(d));
      var degreeDifference := DegreeOf(remainder) - DegreeOf(d);
      var scale, next := DivideStepDown(field, remainder, d);
      var iterationQuotient := BuildMonomial(degreeDifference, scale);
      AddPolyAssoc(F, Val(quotient), Val(iterationQuotient), Divide(F, Val(next), Val(d)).0);
      quotient := AddOrSubtract(field, quotient, iterationQuotient);
      remainder := next;
    }
    NormalVal(remainder);
    AddNil(F, Val(quotient));
  }
}
