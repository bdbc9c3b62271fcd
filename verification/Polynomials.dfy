/** Polynomials over a field, in canonical form: the coefficient of x^i at index i and no
    zero at the top, so that equal polynomials are equal sequences.  The program keeps the
    coefficients the other way round; GenericGFPoly.dfy connects the two. */
module Polynomials {
  import opened GaloisField

  type Poly = p: seq<Elem> | p == [] || p[|p| - 1] != 0 witness []

  function Hd(p: Poly): Elem {
    if p == [] then 0 else p[0]
  }

  function Tl(p: Poly): Poly {
    if p == [] then [] else p[1..]
  }

  /** c + x * p */
  function Cons(c: Elem, p: Poly): (r: Poly)
    ensures Hd(r) == c && Tl(r) == p
  {
    if c == 0 && p == [] then [] else [c] + p
  }

  function Add(F: Field, p: Poly, q: Poly): Poly {
    if p == [] then q else if q == [] then p
    else Cons(F.add(p[0], q[0]), Add(F, Tl(p), Tl(q)))
  }

  function Scale(F: Field, c: Elem, p: Poly): Poly {
    if p == [] then [] else Cons(F.mul(c, p[0]), Scale(F, c, Tl(p)))
  }

  function Mul(F: Field, p: Poly, q: Poly): Poly {
    if p == [] then [] else Add(F, Scale(F, p[0], q), Cons(0, Mul(F, Tl(p), q)))
  }

  function Eval(F: Field, p: Poly, x: Elem): Elem {
    if p == [] then 0 else F.add(p[0], F.mul(x, Eval(F, Tl(p), x)))
  }

  /** The constant polynomial c. */
  function Const(c: Elem): Poly {
    Cons(c, [])
  }

  /** x^k * p */
  function Shift(p: Poly, k: nat): (r: Poly)
    ensures p != [] ==> |r| == |p| + k
    ensures p == [] ==> r == []
  {
    if k == 0 then p else Cons(0, Shift(p, k - 1))
  }

  /** The coefficient of the highest power. */
  function Lead(p: Poly): (c: Elem)
    ensures p != [] ==> c != 0
  {
    if p == [] then 0 else p[|p| - 1]
  }

  lemma Rebuild(p: Poly)
    ensures Cons(Hd(p), Tl(p)) == p
  {
  }

  // ---- Addition

  lemma AddParts(F: Field, p: Poly, q: Poly)
    requires IsField(F)
    ensures Hd(Add(F, p, q)) == F.add(Hd(p), Hd(q))
    ensures Tl(Add(F, p, q)) == Add(F, Tl(p), Tl(q))
  {
  }

  lemma {:induction false} AddPolyComm(F: Field, p: Poly, q: Poly)
    requires IsField(F)
    ensures Add(F, p, q) == Add(F, q, p)
    decreases |p|
  {
    if p != [] && q != [] {
      AddPolyComm(F, Tl(p), Tl(q));
    }
  }

  lemma {:induction false} AddPolyAssoc(F: Field, p: Poly, q: Poly, r: Poly)
    requires IsField(F)
    ensures Add(F, Add(F, p, q), r) == Add(F, p, Add(F, q, r))
    decreases |p|
  {
    if p != [] && q != [] && r != [] {
      AddPolyAssoc(F, Tl(p), Tl(q), Tl(r));
      AddAssoc(F, p[0], q[0], r[0]);
      AddParts(F, p, q);
      AddParts(F, q, r);
      AddParts(F, Add(F, p, q), r);
      AddParts(F, p, Add(F, q, r));
      Rebuild(Add(F, Add(F, p, q), r));
      Rebuild(Add(F, p, Add(F, q, r)));
    }
  }

  lemma {:induction false} AddPolySelf(F: Field, p: Poly)
    requires IsField(F)
    ensures Add(F, p, p) == []
    decreases |p|
  {
    if p != [] {
      AddPolySelf(F, Tl(p));
    }
  }

  lemma AddPolySwap(F: Field, a: Poly, b: Poly, c: Poly, d: Poly)
    requires IsField(F)
    ensures Add(F, Add(F, a, b), Add(F, c, d)) == Add(F, Add(F, a, c), Add(F, b, d))
  {
    AddPolyAssoc(F, a, b, Add(F, c, d));
    AddPolyAssoc(F, b, c, d);
    AddPolyComm(F, b, c);
    AddPolyAssoc(F, c, b, d);
    AddPolyAssoc(F, a, c, Add(F, b, d));
  }

  lemma AddNil(F: Field, p: Poly)
    ensures Add(F, p, []) == p && Add(F, [], p) == p
  {
  }

  /** p + q == r exactly when p == r + q, signs not mattering. */
  lemma AddMove(F: Field, p: Poly, q: Poly, r: Poly)
    requires IsField(F) && Add(F, p, q) == r
    ensures p == Add(F, r, q)
  {
    AddPolyAssoc(F, p, q, q);
    AddPolySelf(F, q);
  }

  /** x + (y + z) + y == x + z */
  lemma AddDrop(F: Field, x: Poly, y: Poly, z: Poly)
    requires IsField(F)
    ensures Add(F, Add(F, x, Add(F, y, z)), y) == Add(F, x, z)
  {
    hide Add;
    AddPolyComm(F, y, z);
    AddPolyAssoc(F, x, Add(F, z, y), y);
    AddPolyAssoc(F, z, y, y);
    AddPolySelf(F, y);
    AddNil(F, z);
  }

  lemma AddZero(F: Field, p: Poly, q: Poly)
    requires IsField(F) && Add(F, p, q) == []
    ensures p == q
  {
    AddMove(F, p, q, []);
    AddNil(F, q);
  }

  // ---- Scaling

  lemma ScaleParts(F: Field, c: Elem, p: Poly)
    requires IsField(F)
    ensures Hd(Scale(F, c, p)) == F.mul(c, Hd(p))
    ensures Tl(Scale(F, c, p)) == Scale(F, c, Tl(p))
  {
  }

  lemma {:induction false} ScaleZero(F: Field, p: Poly)
    requires IsField(F)
    ensures Scale(F, 0, p) == []
    decreases |p|
  {
    if p != [] {
      ScaleZero(F, Tl(p));
    }
  }

  lemma {:induction false} ScaleOne(F: Field, p: Poly)
    requires IsField(F)
    ensures Scale(F, 1, p) == p
    decreases |p|
  {
    if p != [] {
      ScaleOne(F, Tl(p));
      Rebuild(p);
    }
  }

  lemma {:induction false} ScaleScale(F: Field, c: Elem, d: Elem, p: Poly)
    requires IsField(F)
    ensures Scale(F, c, Scale(F, d, p)) == Scale(F, F.mul(c, d), p)
    decreases |p|
  {
    if p != [] {
      ScaleScale(F, c, d, Tl(p));
      MulAssoc(F, c, d, p[0]);
      ScaleParts(F, d, p);
      ScaleParts(F, c, Scale(F, d, p));
      Rebuild(Scale(F, c, Scale(F, d, p)));
    }
  }

  lemma {:induction false} ScaleAdd(F: Field, c: Elem, p: Poly, q: Poly)
    requires IsField(F)
    ensures Scale(F, c, Add(F, p, q)) == Add(F, Scale(F, c, p), Scale(F, c, q))
    decreases |p|
  {
    if p != [] && q != [] {
      ScaleAdd(F, c, Tl(p), Tl(q));
      Distribute(F, c, p[0], q[0]);
      AddParts(F, p, q);
      ScaleParts(F, c, p);
      ScaleParts(F, c, q);
      ScaleParts(F, c, Add(F, p, q));
      AddParts(F, Scale(F, c, p), Scale(F, c, q));
      Rebuild(Scale(F, c, Add(F, p, q)));
      Rebuild(Add(F, Scale(F, c, p), Scale(F, c, q)));
    }
  }

  lemma {:induction false} AddScale(F: Field, c: Elem, d: Elem, p: Poly)
    requires IsField(F)
    ensures Scale(F, F.add(c, d), p) == Add(F, Scale(F, c, p), Scale(F, d, p))
    decreases |p|
  {
    if p != [] {
      AddScale(F, c, d, Tl(p));
      Distribute(F, p[0], c, d);
      ScaleParts(F, c, p);
      ScaleParts(F, d, p);
      ScaleParts(F, F.add(c, d), p);
      AddParts(F, Scale(F, c, p), Scale(F, d, p));
      Rebuild(Scale(F, F.add(c, d), p));
      Rebuild(Add(F, Scale(F, c, p), Scale(F, d, p)));
    }
  }

  lemma {:induction false} ScaleLen(F: Field, c: Elem, p: Poly)
    requires IsField(F) && c != 0
    ensures |Scale(F, c, p)| == |p|
    ensures Lead(Scale(F, c, p)) == F.mul(c, Lead(p))
    decreases |p|
  {
    if p != [] {
      ScaleLen(F, c, Tl(p));
      MulNonzero(F, c, p[|p| - 1]);
    }
  }

  // ---- Multiplication

  lemma MulParts(F: Field, p: Poly, q: Poly)
    requires IsField(F)
    ensures Mul(F, p, q) == Add(F, Scale(F, Hd(p), q), Cons(0, Mul(F, Tl(p), q)))
  {
    if p == [] {
      ScaleZero(F, q);
    }
  }

  lemma AddCons(F: Field, a: Elem, p: Poly, b: Elem, q: Poly)
    requires IsField(F)
    ensures Add(F, Cons(a, p), Cons(b, q)) == Cons(F.add(a, b), Add(F, p, q))
  {
    AddParts(F, Cons(a, p), Cons(b, q));
    Rebuild(Add(F, Cons(a, p), Cons(b, q)));
  }

  lemma ScaleCons(F: Field, c: Elem, a: Elem, p: Poly)
    requires IsField(F)
    ensures Scale(F, c, Cons(a, p)) == Cons(F.mul(c, a), Scale(F, c, p))
  {
    ScaleParts(F, c, Cons(a, p));
    Rebuild(Scale(F, c, Cons(a, p)));
  }

  lemma MulCons(F: Field, a: Elem, p: Poly, q: Poly)
    requires IsField(F)
    ensures Mul(F, Cons(a, p), q) == Add(F, Scale(F, a, q), Cons(0, Mul(F, p, q)))
  {
    MulParts(F, Cons(a, p), q);
  }

  lemma {:induction false} MulZero(F: Field, p: Poly)
    requires IsField(F)
    ensures Mul(F, p, []) == []
    decreases |p|
  {
    if p != [] {
      MulZero(F, Tl(p));
    }
  }

  lemma {:induction false} MulAddRight(F: Field, p: Poly, q: Poly, r: Poly)
    requires IsField(F)
    ensures Mul(F, p, Add(F, q, r)) == Add(F, Mul(F, p, q), Mul(F, p, r))
    decreases |p|
  {
    if p != [] {
      MulAddRight(F, Tl(p), q, r);
      ScaleAdd(F, p[0], q, r);
      AddCons(F, 0, Mul(F, Tl(p), q), 0, Mul(F, Tl(p), r));
      AddPolySwap(F, Scale(F, p[0], q), Scale(F, p[0], r),
                  Cons(0, Mul(F, Tl(p), q)), Cons(0, Mul(F, Tl(p), r)));
    }
  }

  lemma {:induction false} MulScale(F: Field, c: Elem, p: Poly, q: Poly)
    requires IsField(F)
    ensures Mul(F, Scale(F, c, p), q) == Scale(F, c, Mul(F, p, q))
    decreases |p|
  {
    if p != [] {
      MulScale(F, c, Tl(p), q);
      MulParts(F, Scale(F, c, p), q);
      ScaleParts(F, c, p);
      ScaleScale(F, c, p[0], q);
      ScaleCons(F, c, 0, Mul(F, Tl(p), q));
      ScaleAdd(F, c, Scale(F, p[0], q), Cons(0, Mul(F, Tl(p), q)));
    }
  }

  /** p * (c + x q) == c p + x (p q) */
  lemma {:induction false} MulConsRight(F: Field, p: Poly, c: Elem, q: Poly)
    requires IsField(F)
    ensures Mul(F, p, Cons(c, q)) == Add(F, Scale(F, c, p), Cons(0, Mul(F, p, q)))
    decreases |p|
  {
    if p != [] {
      var t := Tl(p);
      MulConsRight(F, t, c, q);
      ScaleCons(F, p[0], c, q);
      ScaleCons(F, c, p[0], t);
      Rebuild(p);
      AddCons(F, F.mul(p[0], c), Scale(F, p[0], q), 0, Mul(F, t, Cons(c, q)));
      AddCons(F, F.mul(c, p[0]), Scale(F, c, t), 0, Mul(F, p, q));
      AddPolyAssoc(F, Scale(F, p[0], q), Scale(F, c, t), Cons(0, Mul(F, t, q)));
      AddPolyAssoc(F, Scale(F, c, t), Scale(F, p[0], q), Cons(0, Mul(F, t, q)));
      AddPolyComm(F, Scale(F, p[0], q), Scale(F, c, t));
    }
  }

  lemma {:induction false} MulPolyComm(F: Field, p: Poly, q: Poly)
    requires IsField(F)
    ensures Mul(F, p, q) == Mul(F, q, p)
    decreases |p|
  {
    if p == [] {
      MulZero(F, q);
    } else {
      MulPolyComm(F, Tl(p), q);
      Rebuild(p);
      MulConsRight(F, q, p[0], Tl(p));
    }
  }

  lemma MulAddLeft(F: Field, p: Poly, q: Poly, r: Poly)
    requires IsField(F)
    ensures Mul(F, Add(F, p, q), r) == Add(F, Mul(F, p, r), Mul(F, q, r))
  {
    MulPolyComm(F, Add(F, p, q), r);
    MulPolyComm(F, p, r);
    MulPolyComm(F, q, r);
    MulAddRight(F, r, p, q);
  }

  /** (x p) * q == x (p q) */
  lemma MulX(F: Field, p: Poly, q: Poly)
    requires IsField(F)
    ensures Mul(F, Cons(0, p), q) == Cons(0, Mul(F, p, q))
    ensures Mul(F, q, Cons(0, p)) == Cons(0, Mul(F, q, p))
  {
    MulCons(F, 0, p, q);
    ScaleZero(F, q);
    MulConsRight(F, q, 0, p);
    ScaleZero(F, q);
  }

  lemma {:induction false} MulPolyAssoc(F: Field, p: Poly, q: Poly, r: Poly)
    requires IsField(F)
    ensures Mul(F, Mul(F, p, q), r) == Mul(F, p, Mul(F, q, r))
    decreases |p|
  {
    if p != [] {
      var t := Tl(p);
      MulPolyAssoc(F, t, q, r);
      MulAddLeft(F, Scale(F, p[0], q), Cons(0, Mul(F, t, q)), r);
      MulScale(F, p[0], q, r);
      MulX(F, Mul(F, t, q), r);
    }
  }

  lemma MulConst(F: Field, c: Elem, p: Poly)
    requires IsField(F)
    ensures Mul(F, Const(c), p) == Scale(F, c, p) && Mul(F, p, Const(c)) == Scale(F, c, p)
  {
    MulCons(F, c, [], p);
    MulPolyComm(F, p, Const(c));
  }

  /** a (b c) == b (a c) */
  lemma MulLeftSwap(F: Field, a: Poly, b: Poly, c: Poly)
    requires IsField(F)
    ensures Mul(F, a, Mul(F, b, c)) == Mul(F, b, Mul(F, a, c))
  {
    MulPolyAssoc(F, a, b, c);
    MulPolyAssoc(F, b, a, c);
    MulPolyComm(F, a, b);
  }

  // ---- Degrees

  lemma ConsLead(c: Elem, p: Poly)
    ensures Lead(Cons(c, p)) == if p == [] then c else Lead(p)
    ensures |Cons(c, p)| == if p == [] && c == 0 then 0 else |p| + 1
  {
  }

  lemma {:induction false} AddShorter(F: Field, p: Poly, q: Poly)
    requires IsField(F) && |p| < |q|
    ensures |Add(F, p, q)| == |q| && Lead(Add(F, p, q)) == Lead(q)
    decreases |p|
  {
    if p != [] {
      AddShorter(F, Tl(p), Tl(q));
      ConsLead(F.add(p[0], q[0]), Add(F, Tl(p), Tl(q)));
    }
  }

  lemma {:induction false} AddSame(F: Field, p: Poly, q: Poly)
    requires IsField(F) && |p| == |q|
    ensures |Add(F, p, q)| <= |q|
    decreases |p|
  {
    if p != [] {
      AddSame(F, Tl(p), Tl(q));
      ConsLead(F.add(p[0], q[0]), Add(F, Tl(p), Tl(q)));
    }
  }

  lemma AddLen(F: Field, p: Poly, q: Poly)
    requires IsField(F)
    ensures |Add(F, p, q)| <= if |p| < |q| then |q| else |p|
    ensures |p| != |q| ==> |Add(F, p, q)| == if |p| < |q| then |q| else |p|
    ensures |p| < |q| ==> Lead(Add(F, p, q)) == Lead(q)
    ensures |q| < |p| ==> Lead(Add(F, p, q)) == Lead(p)
  {
    hide Add, Lead;
    if |p| < |q| {
      AddShorter(F, p, q);
    } else if |q| < |p| {
      AddPolyComm(F, p, q);
      AddShorter(F, q, p);
    } else {
      AddSame(F, p, q);
    }
  }

  lemma AddWithin(F: Field, p: Poly, q: Poly, n: nat)
    requires IsField(F) && |p| <= n && |q| <= n
    ensures |Add(F, p, q)| <= n
  {
    hide Add, IsField;
    AddLen(F, p, q);
  }

  /** Two polynomials of the same degree and leading coefficient: their sum is shorter. */
  lemma {:induction false} AddLenCancel(F: Field, p: Poly, q: Poly)
    requires IsField(F) && |p| == |q| && p != [] && Lead(p) == Lead(q)
    ensures |Add(F, p, q)| < |p|
    decreases |p|
  {
    if |p| > 1 {
      AddLenCancel(F, Tl(p), Tl(q));
    }
  }

  lemma {:induction false} MulLen(F: Field, p: Poly, q: Poly)
    requires IsField(F) && p != [] && q != []
    ensures |Mul(F, p, q)| == |p| + |q| - 1
    ensures Lead(Mul(F, p, q)) == F.mul(Lead(p), Lead(q))
    decreases |p|
  {
    hide Add, Scale, Mul, Lead;
    var c, t := Hd(p), Tl(p);
    Rebuild(p);
    ConsLead(c, t);
    MulParts(F, p, q);
    if c == 0 {
      ScaleZero(F, q);
    } else {
      ScaleLen(F, c, q);
    }
    if t == [] {
      MulPolyComm(F, t, q);
      MulZero(F, q);
    } else {
      MulLen(F, t, q);
      ConsLead(0, Mul(F, t, q));
    }
    AddLen(F, Scale(F, c, q), Cons(0, Mul(F, t, q)));
  }

  lemma MulCancel(F: Field, p: Poly, q: Poly, r: Poly)
    requires IsField(F) && p != [] && Mul(F, p, q) == Mul(F, p, r)
    ensures q == r
  {
    var d := Add(F, q, r);
    MulAddRight(F, p, q, r);
    AddPolySelf(F, Mul(F, p, q));
    if d != [] {
      MulLen(F, p, d);
      assert false;
    }
    AddZero(F, q, r);
  }

  lemma {:induction false} ShiftMulLeft(F: Field, p: Poly, k: nat, q: Poly)
    requires IsField(F)
    ensures Mul(F, Shift(p, k), q) == Shift(Mul(F, p, q), k)
    decreases k
  {
    if k != 0 {
      ShiftMulLeft(F, p, k - 1, q);
      MulX(F, Shift(p, k - 1), q);
    }
  }

  lemma ShiftMul(F: Field, p: Poly, k: nat, q: Poly)
    requires IsField(F)
    ensures Mul(F, Shift(p, k), q) == Shift(Mul(F, p, q), k)
    ensures Mul(F, q, Shift(p, k)) == Shift(Mul(F, q, p), k)
  {
    ShiftMulLeft(F, p, k, q);
    MulPolyComm(F, Shift(p, k), q);
    MulPolyComm(F, p, q);
  }

  lemma {:induction false} ShiftAdd(F: Field, p: Poly, q: Poly, k: nat)
    requires IsField(F)
    ensures Shift(Add(F, p, q), k) == Add(F, Shift(p, k), Shift(q, k))
    decreases k
  {
    hide Add, Cons;
    if k != 0 {
      ShiftAdd(F, p, q, k - 1);
      AddCons(F, 0, Shift(p, k - 1), 0, Shift(q, k - 1));
      AddZeroRight(F, 0);
    }
  }

  lemma {:induction false} ShiftLead(p: Poly, k: nat)
    ensures Lead(Shift(p, k)) == Lead(p)
    decreases k
  {
    if k != 0 {
      ShiftLead(p, k - 1);
    }
  }

  // ---- Values

  lemma EvalParts(F: Field, p: Poly, x: Elem)
    requires IsField(F)
    ensures Eval(F, p, x) == F.add(Hd(p), F.mul(x, Eval(F, Tl(p), x)))
  {
  }

  lemma {:induction false} EvalAdd(F: Field, p: Poly, q: Poly, x: Elem)
    requires IsField(F)
    ensures Eval(F, Add(F, p, q), x) == F.add(Eval(F, p, x), Eval(F, q, x))
    decreases |p|
  {
    if p != [] && q != [] {
      EvalAdd(F, Tl(p), Tl(q), x);
      AddParts(F, p, q);
      EvalParts(F, Add(F, p, q), x);
      Distribute(F, x, Eval(F, Tl(p), x), Eval(F, Tl(q), x));
      AddSwap(F, p[0], q[0], F.mul(x, Eval(F, Tl(p), x)), F.mul(x, Eval(F, Tl(q), x)));
    }
  }

  lemma {:induction false} EvalScale(F: Field, c: Elem, p: Poly, x: Elem)
    requires IsField(F)
    ensures Eval(F, Scale(F, c, p), x) == F.mul(c, Eval(F, p, x))
    decreases |p|
  {
    if p != [] {
      EvalScale(F, c, Tl(p), x);
      ScaleParts(F, c, p);
      EvalParts(F, Scale(F, c, p), x);
      Distribute(F, c, p[0], F.mul(x, Eval(F, Tl(p), x)));
      MulAssoc(F, x, c, Eval(F, Tl(p), x));
      MulAssoc(F, c, x, Eval(F, Tl(p), x));
    }
  }

  lemma {:induction false} EvalMul(F: Field, p: Poly, q: Poly, x: Elem)
    requires IsField(F)
    ensures Eval(F, Mul(F, p, q), x) == F.mul(Eval(F, p, x), Eval(F, q, x))
    decreases |p|
  {
    if p != [] {
      var t := Tl(p);
      EvalMul(F, t, q, x);
      EvalAdd(F, Scale(F, p[0], q), Cons(0, Mul(F, t, q)), x);
      EvalScale(F, p[0], q, x);
      EvalParts(F, Cons(0, Mul(F, t, q)), x);
      MulAssoc(F, x, Eval(F, t, x), Eval(F, q, x));
      Distribute(F, Eval(F, q, x), p[0], F.mul(x, Eval(F, t, x)));
    }
  }

  lemma EvalConst(F: Field, c: Elem, x: Elem)
    requires IsField(F)
    ensures Eval(F, Const(c), x) == c
  {
    EvalParts(F, Const(c), x);
  }

  lemma EvalAtZero(F: Field, p: Poly)
    requires IsField(F)
    ensures Eval(F, p, 0) == Hd(p)
  {
  }

  // ---- Roots

  /** x + a */
  function Linear(a: Elem): (r: Poly)
    ensures |r| == 2
  {
    [a, 1]
  }

  lemma EvalLinear(F: Field, a: Elem, x: Elem)
    requires IsField(F)
    ensures Eval(F, Linear(a), x) == F.add(a, x)
  {
    assert Tl(Linear(a)) == [1];
    assert Eval(F, [1], x) == 1;
  }

  /** Division by x + a. */
  function Quotient(F: Field, p: Poly, a: Elem): Poly {
    if p == [] then [] else
    Cons(Eval(F, Tl(p), a), Quotient(F, Tl(p), a))
  }

  /** (x + a)(e + x q) == e a + x (e + (x + a) q) */
  lemma LinearTimes(F: Field, a: Elem, e: Elem, q: Poly)
    requires IsField(F)
    ensures Mul(F, Linear(a), Cons(e, q)) == Cons(F.mul(e, a), Add(F, Mul(F, Linear(a), q), Const(e)))
  {
    hide Mul, Add, Scale;
    MulConsRight(F, Linear(a), e, q);
    assert Linear(a) == Cons(a, Const(1));
    ScaleCons(F, e, a, Const(1));
    MulConst(F, e, Const(1));
    MulConst(F, 1, Const(e));
    ScaleOne(F, Const(e));
    AddCons(F, F.mul(e, a), Const(e), 0, Mul(F, Linear(a), q));
    AddPolyComm(F, Const(e), Mul(F, Linear(a), q));
  }

  lemma {:induction false} QuotientCorrect(F: Field, p: Poly, a: Elem)
    requires IsField(F)
    ensures p == Add(F, Mul(F, Linear(a), Quotient(F, p, a)), Const(Eval(F, p, a)))
    decreases |p|
  {
    hide Mul, Add, Linear;
    if p == [] {
      MulZero(F, Linear(a));
      AddNil(F, []);
    } else {
      var t, e := Tl(p), Eval(F, Tl(p), a);
      QuotientCorrect(F, t, a);
      LinearTimes(F, a, e, Quotient(F, t, a));
      AddCons(F, F.mul(e, a), t, Eval(F, p, a), []);
      AddNil(F, t);
      AddCancel(F, p[0], F.mul(a, e));
      Rebuild(p);
    }
  }

  lemma FactorTheorem(F: Field, p: Poly, a: Elem)
    requires IsField(F) && Eval(F, p, a) == 0
    ensures p == Mul(F, Linear(a), Quotient(F, p, a))
  {
    QuotientCorrect(F, p, a);
  }

  /** The product of (x + a) over the listed elements. */
  function RootProduct(F: Field, roots: seq<Elem>): Poly {
    if roots == [] then Const(1)
    else Mul(F, Linear(roots[0]), RootProduct(F, roots[1..]))
  }

  ghost predicate Distinct(s: seq<Elem>) {
    forall i, j :: 0 <= i < j < |s| ==> s[i] != s[j]
  }

  ghost predicate AllRoots(F: Field, p: Poly, roots: seq<Elem>) {
    forall i :: 0 <= i < |roots| ==> Eval(F, p, roots[i]) == 0
  }

  lemma {:induction false} RootProductLen(F: Field, roots: seq<Elem>)
    requires IsField(F)
    ensures |RootProduct(F, roots)| == |roots| + 1
    decreases |roots|
  {
    if roots != [] {
      RootProductLen(F, roots[1..]);
      MulLen(F, Linear(roots[0]), RootProduct(F, roots[1..]));
    }
  }

  /** A polynomial vanishing at distinct points is a multiple of their product. */
  lemma {:induction false} RootsDivide(F: Field, p: Poly, roots: seq<Elem>) returns (m: Poly)
    requires IsField(F) && Distinct(roots) && AllRoots(F, p, roots)
    ensures p == Mul(F, m, RootProduct(F, roots))
    decreases |roots|
  {
    if roots == [] {
      m := p;
      MulConst(F, 1, p);
      ScaleOne(F, p);
    } else {
      var a, rest := roots[0], roots[1..];
      FactorTheorem(F, p, a);
      var q := Quotient(F, p, a);
      forall i | 0 <= i < |rest| ensures Eval(F, q, rest[i]) == 0 {
        assert Eval(F, p, roots[i + 1]) == 0;
        EvalMul(F, Linear(a), q, rest[i]);
        EvalLinear(F, a, rest[i]);
        assert roots[0] != roots[i + 1];
        AddCancel(F, a, rest[i]);
        if Eval(F, q, rest[i]) != 0 {
          MulNonzero(F, F.add(a, rest[i]), Eval(F, q, rest[i]));
        }
      }
      m := RootsDivide(F, q, rest);
      MulLeftSwap(F, Linear(a), m, RootProduct(F, rest));
    }
  }

  /** A nonzero polynomial has no more roots than its degree. */
  lemma RootsBounded(F: Field, p: Poly, roots: seq<Elem>)
    requires IsField(F) && p != [] && Distinct(roots) && AllRoots(F, p, roots)
    ensures |roots| < |p|
  {
    var m := RootsDivide(F, p, roots);
    RootProductLen(F, roots);
    MulLen(F, m, RootProduct(F, roots));
  }
}
