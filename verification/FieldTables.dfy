/** The table-driven field arithmetic: how the tables are built, and that they make a field. */
module FieldTables {
  import opened GaloisField
  import opened Bytes

  /** A polynomial of degree eight over two elements, as the bits of a number. */
  type Primitive = p: int | 256 <= p < 512 witness 256

  /** The next power of the generator: twice x, reduced by the polynomial.  The program
      takes the exclusive or before it masks the ninth bit off; that bit cancels. */
  function NextPower(p: Primitive, x: Elem): Elem {
    if 2 * x < 256 then 2 * x else Xor(2 * x - 256, p - 256)
  }

  function Repeat(p: Primitive, x: Elem, k: nat): Elem {
    if k == 0 then x else NextPower(p, Repeat(p, x, k - 1))
  }

  /** The k-th power of the generator. */
  function Power(p: Primitive, k: nat): Elem {
    Repeat(p, 1, k)
  }

  /** The powers return to one after 255 steps and not before. */
  ghost predicate Generates(p: Primitive) {
    Power(p, 255) == 1 && NotOneBelow(p, 255)
  }

  ghost predicate NotOneBelow(p: Primitive, n: nat) {
    forall i :: 0 < i < n ==> Power(p, i) != 1
  }

  // ---- Doubling

  function DoubleBits(low: Bits, a: Bits): Bits {
    Bits(a.b7 && low.b0, a.b0 != (a.b7 && low.b1), a.b1 != (a.b7 && low.b2), a.b2 != (a.b7 && low.b3),
         a.b3 != (a.b7 && low.b4), a.b4 != (a.b7 && low.b5), a.b5 != (a.b7 && low.b6),
         a.b6 != (a.b7 && low.b7))
  }

  lemma DoubleBitsCases(low: Bits, a: Bits)
    ensures DoubleBits(low, a) == if a.b7 then XorBits(ShiftBits(a), low) else ShiftBits(a)
  {
  }

  lemma NextPowerBits(p: Primitive, x: Elem)
    ensures ToBits(NextPower(p, x)) == DoubleBits(ToBits(p - 256), ToBits(x))
  {
    hide ToBits, Value, DoubleBits, XorBits, ShiftBits;
    var a := ToBits(x);
    DoubleBitsCases(ToBits(p - 256), a);
    ValueToBits(x);
    ShiftValue(a);
    ToBitsValue(ShiftBits(a));
    if a.b7 {
      XorToBits(2 * x - 256, p - 256);
    }
  }

  lemma DoubleBitsXor(l: Bits, a: Bits, b: Bits)
    ensures DoubleBits(l, XorBits(a, b)) == XorBits(DoubleBits(l, a), DoubleBits(l, b))
  {
  }

  /** Doubling distributes over exclusive or. */
  lemma NextPowerXor(p: Primitive, x: Elem, y: Elem)
    ensures NextPower(p, Xor(x, y)) == Xor(NextPower(p, x), NextPower(p, y))
  {
    hide ToBits, Value, NextPower, DoubleBits, XorBits;
    var a, b, l := ToBits(x), ToBits(y), ToBits(p - 256);
    NextPowerBits(p, x);
    NextPowerBits(p, y);
    NextPowerBits(p, Xor(x, y));
    XorToBits(x, y);
    DoubleBitsXor(l, a, b);
    XorToBits(NextPower(p, x), NextPower(p, y));
    ValueToBits(NextPower(p, Xor(x, y)));
    ValueToBits(Xor(NextPower(p, x), NextPower(p, y)));
  }

  lemma {:induction false} RepeatXor(p: Primitive, x: Elem, y: Elem, k: nat)
    ensures Repeat(p, Xor(x, y), k) == Xor(Repeat(p, x, k), Repeat(p, y, k))
    decreases k
  {
    hide Xor, NextPower;
    if k != 0 {
      RepeatXor(p, x, y, k - 1);
      NextPowerXor(p, Repeat(p, x, k - 1), Repeat(p, y, k - 1));
    }
  }

  lemma {:induction false} RepeatZero(p: Primitive, k: nat)
    ensures Repeat(p, 0, k) == 0
    decreases k
  {
    if k != 0 {
      RepeatZero(p, k - 1);
    }
  }

  lemma {:induction false} RepeatAdd(p: Primitive, x: Elem, j: nat, k: nat)
    ensures Repeat(p, x, j + k) == Repeat(p, Repeat(p, x, j), k)
    decreases k
  {
    hide NextPower;
    if k != 0 {
      RepeatAdd(p, x, j, k - 1);
    }
  }

  // ---- The powers of a generator

  lemma PowerNonzero(p: Primitive, k: nat)
    requires Generates(p)
    ensures Power(p, k) != 0
  {
    hide NextPower;
    PowerPeriodic(p, k);
    RepeatAdd(p, 1, k % 255, 255 - k % 255);
    RepeatZero(p, 255 - k % 255);
  }

  lemma {:induction false} PowerPeriodic(p: Primitive, k: nat)
    requires Generates(p)
    ensures Power(p, k) == Power(p, k % 255)
    decreases k
  {
    hide NextPower, NotOneBelow;
    if k >= 255 {
      PowerPeriodic(p, k - 255);
      RepeatAdd(p, 1, 255, k - 255);
      assert (k - 255) % 255 == k % 255;
    }
  }

  lemma PowerInjective(p: Primitive, i: nat, j: nat)
    requires Generates(p) && i < 255 && j < 255 && Power(p, i) == Power(p, j)
    ensures i == j
  {
    if i < j {
      assert Power(p, i + (255 - j)) != 1;
      RepeatAdd(p, 1, i, 255 - j);
      RepeatAdd(p, 1, j, 255 - j);
    } else if j < i {
      PowerInjective(p, j, i);
    }
  }

  /** The set of the first n powers. */
  ghost function PowersBelow(p: Primitive, n: nat): set<Elem> {
    set i: nat | i < n :: Power(p, i)
  }

  lemma {:induction false} PowersCount(p: Primitive, n: nat)
    requires Generates(p) && n <= 255
    ensures |PowersBelow(p, n)| == n
    decreases n
  {
    if n != 0 {
      PowersCount(p, n - 1);
      assert PowersBelow(p, n) == PowersBelow(p, n - 1) + {Power(p, n - 1)};
      if Power(p, n - 1) in PowersBelow(p, n - 1) {
        var i: nat :| i < n - 1 && Power(p, i) == Power(p, n - 1);
        PowerInjective(p, i, n - 1);
      }
    }
  }

  ghost function NonzeroBelow(n: nat): (s: set<Elem>)
    requires n <= 256
    ensures forall x: Elem :: x in s <==> 0 < x < n
  {
    if n <= 1 then {} else NonzeroBelow(n - 1) + {n - 1}
  }

  lemma {:induction false} NonzeroCount(n: nat)
    requires 0 < n <= 256
    ensures |NonzeroBelow(n)| == n - 1
    decreases n
  {
    if n != 1 {
      NonzeroCount(n - 1);
    }
  }

  lemma SubsetOfSameSize(a: set<Elem>, b: set<Elem>)
    requires a <= b && |a| == |b|
    ensures a == b
  {
    assert b == a + (b - a);
    assert |b| == |a| + |b - a|;
    forall x | x in b ensures x in a {
      assert x in b - a || x in a;
    }
  }

  /** Every nonzero element is a power of the generator. */
  lemma PowersOnto(p: Primitive, x: Elem)
    requires Generates(p) && x != 0
    ensures exists i: nat :: i < 255 && Power(p, i) == x
  {
    PowersCount(p, 255);
    NonzeroCount(256);
    forall y | y in PowersBelow(p, 255) ensures y in NonzeroBelow(256) {
      var i: nat :| i < 255 && y == Power(p, i);
      PowerNonzero(p, i);
    }
    SubsetOfSameSize(PowersBelow(p, 255), NonzeroBelow(256));
    assert x in PowersBelow(p, 255);
  }

  ghost function Log(p: Primitive, x: Elem): (i: nat)
    requires Generates(p)
    ensures x != 0 ==> i < 255 && Power(p, i) == x
  {
    if x == 0 then 0 else
    PowersOnto(p, x);
    var i: nat :| i < 255 && Power(p, i) == x;
    i
  }

  // ---- Multiplication by logarithms

  ghost function Mul(p: Primitive, x: Elem, y: Elem): Elem
    requires Generates(p)
  {
    if x == 0 || y == 0 then 0 else Power(p, (Log(p, x) + Log(p, y)) % 255)
  }

  ghost function Inv(p: Primitive, x: Elem): Elem
    requires Generates(p)
  {
    if x == 0 then 0 else Power(p, 255 - Log(p, x))
  }

  /** Multiplying by the i-th power is doubling i times. */
  lemma MulIsRepeat(p: Primitive, x: Elem, y: Elem)
    requires Generates(p)
    ensures x != 0 ==> Mul(p, x, y) == Repeat(p, y, Log(p, x))
  {
    if x != 0 {
      if y == 0 {
        RepeatZero(p, Log(p, x));
      } else {
        PowerPeriodic(p, Log(p, x) + Log(p, y));
        RepeatAdd(p, 1, Log(p, y), Log(p, x));
      }
    }
  }

  lemma LogPower(p: Primitive, k: nat)
    requires Generates(p)
    ensures Power(p, k) != 0 && Log(p, Power(p, k)) == k % 255
  {
    PowerNonzero(p, k);
    PowerPeriodic(p, k);
    PowerInjective(p, Log(p, Power(p, k)), k % 255);
  }

  lemma SumModulo(i: nat, j: nat)
    ensures (i % 255 + j % 255) % 255 == (i + j) % 255
  {
  }

  lemma MulPowers(p: Primitive, i: nat, j: nat)
    requires Generates(p)
    ensures Mul(p, Power(p, i), Power(p, j)) == Power(p, i + j)
  {
    hide Power, Generates;
    LogPower(p, i);
    LogPower(p, j);
    PowerPeriodic(p, i + j);
    SumModulo(i, j);
  }

  lemma MulAssociative(p: Primitive, x: Elem, y: Elem, z: Elem)
    requires Generates(p)
    ensures Mul(p, Mul(p, x, y), z) == Mul(p, x, Mul(p, y, z))
  {
    hide Power;
    if x != 0 && y != 0 && z != 0 {
      var i, j, k := Log(p, x), Log(p, y), Log(p, z);
      MulPowers(p, i, j);
      MulPowers(p, j, k);
      MulPowers(p, i + j, k);
      MulPowers(p, i, j + k);
      assert (i + j) + k == i + (j + k);
    }
  }

  lemma MulDistributive(p: Primitive, x: Elem, y: Elem, z: Elem)
    requires Generates(p)
    ensures Mul(p, x, Xor(y, z)) == Xor(Mul(p, x, y), Mul(p, x, z))
  {
    hide Xor, Repeat;
    if x == 0 {
      XorBasics(0, 0);
    } else {
      MulIsRepeat(p, x, y);
      MulIsRepeat(p, x, z);
      MulIsRepeat(p, x, Xor(y, z));
      RepeatXor(p, y, z, Log(p, x));
    }
  }

  lemma MulUnits(p: Primitive, x: Elem)
    requires Generates(p)
    ensures Mul(p, x, 1) == x && Mul(p, 1, x) == x
    ensures Mul(p, x, 0) == 0 && Mul(p, 0, x) == 0
    ensures x != 0 ==> Inv(p, x) != 0 && Mul(p, x, Inv(p, x)) == 1
  {
    if x != 0 {
      var i := Log(p, x);
      MulPowers(p, i, 0);
      MulPowers(p, 0, i);
      assert Power(p, 0) == 1;
      MulPowers(p, i, 255 - i);
      PowerNonzero(p, 255 - i);
    }
  }

  /** The field of a generating polynomial. */
  ghost function TableField(p: Primitive): Field
    requires Generates(p)
  {
    Field((x, y) => Xor(x, y), (x, y) => Mul(p, x, y), x => Inv(p, x), k => Power(p, k), x => Log(p, x))
  }

  lemma TablesAdd(p: Primitive)
    requires Generates(p)
    ensures AdditiveLaws(TableField(p))
  {
    hide Xor, Mul, Inv, Power, Log, Generates;
    var F := TableField(p);
    forall x: Elem, y: Elem
      ensures F.add(x, y) == F.add(y, x) && F.add(x, x) == 0 && F.add(x, 0) == x && F.add(0, x) == x
    {
      XorBasics(x, y);
    }
    forall x: Elem, y: Elem, z: Elem ensures F.add(F.add(x, y), z) == F.add(x, F.add(y, z)) {
      XorAssoc(x, y, z);
    }
  }

  lemma TablesAssociate(p: Primitive)
    requires Generates(p)
    ensures MulAssociates(TableField(p))
  {
    hide Xor, Mul, Inv, Power, Log, Generates;
    var F := TableField(p);
    forall x: Elem, y: Elem, z: Elem ensures F.mul(F.mul(x, y), z) == F.mul(x, F.mul(y, z)) {
      MulAssociative(p, x, y, z);
    }
  }

  lemma TablesDistribute(p: Primitive)
    requires Generates(p)
    ensures MulDistributes(TableField(p))
  {
    hide Xor, Mul, Inv, Power, Log, Generates;
    var F := TableField(p);
    forall x: Elem, y: Elem, z: Elem ensures F.mul(x, F.add(y, z)) == F.add(F.mul(x, y), F.mul(x, z)) {
      MulDistributive(p, x, y, z);
    }
  }

  lemma TablesMultiply(p: Primitive)
    requires Generates(p)
    ensures MultiplicativeLaws(TableField(p))
  {
    hide Xor, Mul, Inv, Power, Log, Generates, MulAssociates, MulDistributes;
    var F := TableField(p);
    forall x: Elem, y: Elem ensures F.mul(x, y) == F.mul(y, x) {
      MulCommutative(p, x, y);
    }
    forall x: Elem
      ensures F.mul(x, 1) == x && F.mul(1, x) == x && F.mul(x, 0) == 0 && F.mul(0, x) == 0
      ensures x != 0 ==> F.inv(x) != 0 && F.mul(x, F.inv(x)) == 1
    {
      MulUnits(p, x);
    }
    TablesAssociate(p);
    TablesDistribute(p);
  }

  lemma TablesExpAdd(p: Primitive)
    requires Generates(p)
    ensures ExpAdds(TableField(p))
  {
    hide Xor, Mul, Inv, Power, Log, Generates;
    var F := TableField(p);
    forall i: nat, j: nat ensures F.exp(i + j) == F.mul(F.exp(i), F.exp(j)) {
      MulPowers(p, i, j);
    }
  }

  lemma TablesExponentiate(p: Primitive)
    requires Generates(p)
    ensures PowerLaws(TableField(p))
  {
    hide Xor, Mul, Inv, Power, Log, Generates, ExpAdds;
    var F := TableField(p);
    forall i: nat ensures F.exp(i) != 0 && (i < 255 ==> F.log(F.exp(i)) == i) {
      LogPower(p, i);
    }
    forall x: Elem | x != 0 ensures F.log(x) < 255 && F.exp(F.log(x)) == x {
      LogFound(p, x);
    }
    TablesExpAdd(p);
    PowerZero(p);
    PowerPeriodic(p, 255);
  }

  lemma LogFound(p: Primitive, x: Elem)
    requires Generates(p) && x != 0
    ensures Log(p, x) < 255 && Power(p, Log(p, x)) == x
  {
  }

  /** Logarithm tables make a field. */
  lemma TablesMakeField(p: Primitive)
    requires Generates(p)
    ensures IsField(TableField(p))
  {
    hide AdditiveLaws, MultiplicativeLaws, PowerLaws, TableField;
    TablesAdd(p);
    TablesMultiply(p);
    TablesExponentiate(p);
  }

  lemma PowerZero(p: Primitive)
    ensures Power(p, 0) == 1
  {
  }

  lemma MulCommutative(p: Primitive, x: Elem, y: Elem)
    requires Generates(p)
    ensures Mul(p, x, y) == Mul(p, y, x)
  {
    assert Log(p, x) + Log(p, y) == Log(p, y) + Log(p, x);
  }

  // ---- The polynomial of QR codes

  /** From a, seventeen doublings lead to b, none before the last through one. */
  ghost predicate Walk(l: Bits, a: Bits, b: Bits) {
    var o := Bits(true, false, false, false, false, false, false, false);
    var a1 := DoubleBits(l, a);
    var a2 := DoubleBits(l, a1);
    var a3 := DoubleBits(l, a2);
    var a4 := DoubleBits(l, a3);
    var a5 := DoubleBits(l, a4);
    var a6 := DoubleBits(l, a5);
    var a7 := DoubleBits(l, a6);
    var a8 := DoubleBits(l, a7);
    var a9 := DoubleBits(l, a8);
    var a10 := DoubleBits(l, a9);
    var a11 := DoubleBits(l, a10);
    var a12 := DoubleBits(l, a11);
    var a13 := DoubleBits(l, a12);
    var a14 := DoubleBits(l, a13);
    var a15 := DoubleBits(l, a14);
    var a16 := DoubleBits(l, a15);
    && o !in {a1, a2, a3, a4, a5, a6, a7, a8, a9, a10, a11, a12, a13, a14, a15, a16}
    && DoubleBits(l, a16) == b
  }

  /** Seventeen more powers. */
  lemma Advance(p: Primitive, k: nat, a: Elem, b: Elem)
    requires Power(p, k) == a && Walk(ToBits(p - 256), ToBits(a), ToBits(b))
    requires NotOneBelow(p, k) && (k == 0 || a != 1)
    ensures Power(p, k + 17) == b && NotOneBelow(p, k + 17)
  {
    BitsOfOne();
    hide NextPower, ToBits, DoubleBits;
    NextPowerBits(p, Power(p, k));
    NextPowerBits(p, Power(p, k + 1));
    NextPowerBits(p, Power(p, k + 2));
    NextPowerBits(p, Power(p, k + 3));
    NextPowerBits(p, Power(p, k + 4));
    NextPowerBits(p, Power(p, k + 5));
    NextPowerBits(p, Power(p, k + 6));
    NextPowerBits(p, Power(p, k + 7));
    NextPowerBits(p, Power(p, k + 8));
    NextPowerBits(p, Power(p, k + 9));
    NextPowerBits(p, Power(p, k + 10));
    NextPowerBits(p, Power(p, k + 11));
    NextPowerBits(p, Power(p, k + 12));
    NextPowerBits(p, Power(p, k + 13));
    NextPowerBits(p, Power(p, k + 14));
    NextPowerBits(p, Power(p, k + 15));
    NextPowerBits(p, Power(p, k + 16));
    ValueToBits(b);
    ValueToBits(Power(p, k + 17));
    forall i | k < i < k + 17 ensures Power(p, i) != 1 {
    }
  }

  lemma BitsOfOne()
    ensures ToBits(1) == Bits(true, false, false, false, false, false, false, false)
  {
  }

  lemma LowBits()
    ensures ToBits(285 - 256) == Bits(true, false, true, true, true, false, false, false)
  {
  }

  lemma Walk0()
    ensures Walk(ToBits(285 - 256), ToBits(1), ToBits(152))
  {
    LowBits();
    assert ToBits(1) == Bits(true, false, false, false, false, false, false, false);
    assert ToBits(152) == Bits(false, false, false, true, true, false, false, true);
  }

  lemma Walk1()
    ensures Walk(ToBits(285 - 256), ToBits(152), ToBits(78))
  {
    LowBits();
    assert ToBits(152) == Bits(false, false, false, true, true, false, false, true);
    assert ToBits(78) == Bits(false, true, true, true, false, false, true, false);
  }

  lemma Walk2()
    ensures Walk(ToBits(285 - 256), ToBits(78), ToBits(10))
  {
    LowBits();
    assert ToBits(78) == Bits(false, true, true, true, false, false, true, false);
    assert ToBits(10) == Bits(false, true, false, true, false, false, false, false);
  }

  lemma Walk3()
    ensures Walk(ToBits(285 - 256), ToBits(10), ToBits(153))
  {
    LowBits();
    assert ToBits(10) == Bits(false, true, false, true, false, false, false, false);
    assert ToBits(153) == Bits(true, false, false, true, true, false, false, true);
  }

  lemma Walk4()
    ensures Walk(ToBits(285 - 256), ToBits(153), ToBits(214))
  {
    LowBits();
    assert ToBits(153) == Bits(true, false, false, true, true, false, false, true);
    assert ToBits(214) == Bits(false, true, true, false, true, false, true, true);
  }

  lemma Walk5()
    ensures Walk(ToBits(285 - 256), ToBits(214), ToBits(68))
  {
    LowBits();
    assert ToBits(214) == Bits(false, true, true, false, true, false, true, true);
    assert ToBits(68) == Bits(false, false, true, false, false, false, true, false);
  }

  lemma Walk6()
    ensures Walk(ToBits(285 - 256), ToBits(68), ToBits(147))
  {
    LowBits();
    assert ToBits(68) == Bits(false, false, true, false, false, false, true, false);
    assert ToBits(147) == Bits(true, true, false, false, true, false, false, true);
  }

  lemma Walk7()
    ensures Walk(ToBits(285 - 256), ToBits(147), ToBits(79))
  {
    LowBits();
    assert ToBits(147) == Bits(true, true, false, false, true, false, false, true);
    assert ToBits(79) == Bits(true, true, true, true, false, false, true, false);
  }

  lemma Walk8()
    ensures Walk(ToBits(285 - 256), ToBits(79), ToBits(146))
  {
    LowBits();
    assert ToBits(79) == Bits(true, true, true, true, false, false, true, false);
    assert ToBits(146) == Bits(false, true, false, false, true, false, false, true);
  }

  lemma Walk9()
    ensures Walk(ToBits(285 - 256), ToBits(146), ToBits(215))
  {
    LowBits();
    assert ToBits(146) == Bits(false, true, false, false, true, false, false, true);
    assert ToBits(215) == Bits(true, true, true, false, true, false, true, true);
  }

  lemma Walk10()
    ensures Walk(ToBits(285 - 256), ToBits(215), ToBits(220))
  {
    LowBits();
    assert ToBits(215) == Bits(true, true, true, false, true, false, true, true);
    assert ToBits(220) == Bits(false, false, true, true, true, false, true, true);
  }

  lemma Walk11()
    ensures Walk(ToBits(285 - 256), ToBits(220), ToBits(221))
  {
    LowBits();
    assert ToBits(220) == Bits(false, false, true, true, true, false, true, true);
    assert ToBits(221) == Bits(true, false, true, true, true, false, true, true);
  }

  lemma Walk12()
    ensures Walk(ToBits(285 - 256), ToBits(221), ToBits(69))
  {
    LowBits();
    assert ToBits(221) == Bits(true, false, true, true, true, false, true, true);
    assert ToBits(69) == Bits(true, false, true, false, false, false, true, false);
  }

  lemma Walk13()
    ensures Walk(ToBits(285 - 256), ToBits(69), ToBits(11))
  {
    LowBits();
    assert ToBits(69) == Bits(true, false, true, false, false, false, true, false);
    assert ToBits(11) == Bits(true, true, false, true, false, false, false, false);
  }

  lemma Walk14()
    ensures Walk(ToBits(285 - 256), ToBits(11), ToBits(1))
  {
    LowBits();
    assert ToBits(11) == Bits(true, true, false, true, false, false, false, false);
    assert ToBits(1) == Bits(true, false, false, false, false, false, false, false);
  }

  /** x generates the field of x^8 + x^4 + x^3 + x^2 + 1. */
  lemma QrGenerates()
    ensures Generates(285)
  {
    hide Walk, Power, NotOneBelow, ToBits;
    Zeroth(285);
    Walk0();
    Advance(285, 0, 1, 152);
    Walk1();
    Advance(285, 17, 152, 78);
    Walk2();
    Advance(285, 34, 78, 10);
    Walk3();
    Advance(285, 51, 10, 153);
    Walk4();
    Advance(285, 68, 153, 214);
    Walk5();
    Advance(285, 85, 214, 68);
    Walk6();
    Advance(285, 102, 68, 147);
    Walk7();
    Advance(285, 119, 147, 79);
    Walk8();
    Advance(285, 136, 79, 146);
    Walk9();
    Advance(285, 153, 146, 215);
    Walk10();
    Advance(285, 170, 215, 220);
    Walk11();
    Advance(285, 187, 220, 221);
    Walk12();
    Advance(285, 204, 221, 69);
    Walk13();
    Advance(285, 221, 69, 11);
    Walk14();
    Advance(285, 238, 11, 1);
  }

  lemma Zeroth(p: Primitive)
    ensures Power(p, 0) == 1 && NotOneBelow(p, 0)
  {
  }

  // ---- The polynomial of Data Matrix and of eight-bit Aztec codes

  lemma OtherLowBits()
    ensures ToBits(301 - 256) == Bits(true, false, true, true, false, true, false, false)
  {
  }

  lemma Other0()
    ensures Walk(ToBits(301 - 256), ToBits(1), ToBits(231))
  {
    OtherLowBits();
    assert ToBits(1) == Bits(true, false, false, false, false, false, false, false);
    assert ToBits(231) == Bits(true, true, true, false, false, true, true, true);
  }

  lemma Other1()
    ensures Walk(ToBits(301 - 256), ToBits(231), ToBits(89))
  {
    OtherLowBits();
    assert ToBits(231) == Bits(true, true, true, false, false, true, true, true);
    assert ToBits(89) == Bits(true, false, false, true, true, false, true, false);
  }

  lemma Other2()
    ensures Walk(ToBits(301 - 256), ToBits(89), ToBits(220))
  {
    OtherLowBits();
    assert ToBits(89) == Bits(true, false, false, true, true, false, true, false);
    assert ToBits(220) == Bits(false, false, true, true, true, false, true, true);
  }

  lemma Other3()
    ensures Walk(ToBits(301 - 256), ToBits(220), ToBits(230))
  {
    OtherLowBits();
    assert ToBits(220) == Bits(false, false, true, true, true, false, true, true);
    assert ToBits(230) == Bits(false, true, true, false, false, true, true, true);
  }

  lemma Other4()
    ensures Walk(ToBits(301 - 256), ToBits(230), ToBits(190))
  {
    OtherLowBits();
    assert ToBits(230) == Bits(false, true, true, false, false, true, true, true);
    assert ToBits(190) == Bits(false, true, true, true, true, true, false, true);
  }

  lemma Other5()
    ensures Walk(ToBits(301 - 256), ToBits(190), ToBits(133))
  {
    OtherLowBits();
    assert ToBits(190) == Bits(false, true, true, true, true, true, false, true);
    assert ToBits(133) == Bits(true, false, true, false, false, false, false, true);
  }

  lemma Other6()
    ensures Walk(ToBits(301 - 256), ToBits(133), ToBits(58))
  {
    OtherLowBits();
    assert ToBits(133) == Bits(true, false, true, false, false, false, false, true);
    assert ToBits(58) == Bits(false, true, false, true, true, true, false, false);
  }

  lemma Other7()
    ensures Walk(ToBits(301 - 256), ToBits(58), ToBits(88))
  {
    OtherLowBits();
    assert ToBits(58) == Bits(false, true, false, true, true, true, false, false);
    assert ToBits(88) == Bits(false, false, false, true, true, false, true, false);
  }

  lemma Other8()
    ensures Walk(ToBits(301 - 256), ToBits(88), ToBits(59))
  {
    OtherLowBits();
    assert ToBits(88) == Bits(false, false, false, true, true, false, true, false);
    assert ToBits(59) == Bits(true, true, false, true, true, true, false, false);
  }

  lemma Other9()
    ensures Walk(ToBits(301 - 256), ToBits(59), ToBits(191))
  {
    OtherLowBits();
    assert ToBits(59) == Bits(true, true, false, true, true, true, false, false);
    assert ToBits(191) == Bits(true, true, true, true, true, true, false, true);
  }

  lemma Other10()
    ensures Walk(ToBits(301 - 256), ToBits(191), ToBits(98))
  {
    OtherLowBits();
    assert ToBits(191) == Bits(true, true, true, true, true, true, false, true);
    assert ToBits(98) == Bits(false, true, false, false, false, true, true, false);
  }

  lemma Other11()
    ensures Walk(ToBits(301 - 256), ToBits(98), ToBits(99))
  {
    OtherLowBits();
    assert ToBits(98) == Bits(false, true, false, false, false, true, true, false);
    assert ToBits(99) == Bits(true, true, false, false, false, true, true, false);
  }

  lemma Other12()
    ensures Walk(ToBits(301 - 256), ToBits(99), ToBits(132))
  {
    OtherLowBits();
    assert ToBits(99) == Bits(true, true, false, false, false, true, true, false);
    assert ToBits(132) == Bits(false, false, true, false, false, false, false, true);
  }

  lemma Other13()
    ensures Walk(ToBits(301 - 256), ToBits(132), ToBits(221))
  {
    OtherLowBits();
    assert ToBits(132) == Bits(false, false, true, false, false, false, false, true);
    assert ToBits(221) == Bits(true, false, true, true, true, false, true, true);
  }

  lemma Other14()
    ensures Walk(ToBits(301 - 256), ToBits(221), ToBits(1))
  {
    OtherLowBits();
    assert ToBits(1) == Bits(true, false, false, false, false, false, false, false);
    assert ToBits(221) == Bits(true, false, true, true, true, false, true, true);
  }

  /** x generates the field of x^8 + x^5 + x^3 + x^2 + 1. */
  lemma DataMatrixGenerates()
    ensures Generates(301)
  {
    hide Walk, Power, NotOneBelow, ToBits;
    Zeroth(301);
    Other0();
    Advance(301, 0, 1, 231);
    Other1();
    Advance(301, 17, 231, 89);
    Other2();
    Advance(301, 34, 89, 220);
    Other3();
    Advance(301, 51, 220, 230);
    Other4();
    Advance(301, 68, 230, 190);
    Other5();
    Advance(301, 85, 190, 133);
    Other6();
    Advance(301, 102, 133, 58);
    Other7();
    Advance(301, 119, 58, 88);
    Other8();
    Advance(301, 136, 88, 59);
    Other9();
    Advance(301, 153, 59, 191);
    Other10();
    Advance(301, 170, 191, 98);
    Other11();
    Advance(301, 187, 98, 99);
    Other12();
    Advance(301, 204, 99, 132);
    Other13();
    Advance(301, 221, 132, 221);
    Other14();
    Advance(301, 238, 221, 1);
  }
}
