/** Bytes and their bits: the exclusive or of two numbers below 256. */
module Bytes {
  import opened GaloisField

  /** The bits of a byte, b0 the lowest. */
  datatype Bits = Bits(b0: bool, b1: bool, b2: bool, b3: bool, b4: bool, b5: bool, b6: bool, b7: bool)

  function One(b: bool): int {
    if b then 1 else 0
  }

  function Value(a: Bits): Elem {
    One(a.b0) + 2 * One(a.b1) + 4 * One(a.b2) + 8 * One(a.b3)
    + 16 * One(a.b4) + 32 * One(a.b5) + 64 * One(a.b6) + 128 * One(a.b7)
  }

  /** x with the bit of weight w taken off. */
  function Below(x: int, w: int): int {
    if x >= w then x - w else x
  }

  function ToBits(x: Elem): Bits {
    var x6 := Below(x, 128);
    var x5 := Below(x6, 64);
    var x4 := Below(x5, 32);
    var x3 := Below(x4, 16);
    var x2 := Below(x3, 8);
    var x1 := Below(x2, 4);
    var x0 := Below(x1, 2);
    Bits(x0 >= 1, x1 >= 2, x2 >= 4, x3 >= 8, x4 >= 16, x5 >= 32, x6 >= 64, x >= 128)
  }

  function XorBits(a: Bits, b: Bits): Bits {
    Bits(a.b0 != b.b0, a.b1 != b.b1, a.b2 != b.b2, a.b3 != b.b3,
         a.b4 != b.b4, a.b5 != b.b5, a.b6 != b.b6, a.b7 != b.b7)
  }

  /** Exclusive or. */
  function Xor(x: Elem, y: Elem): Elem {
    Value(XorBits(ToBits(x), ToBits(y)))
  }

  lemma ValueToBits(x: Elem)
    ensures Value(ToBits(x)) == x
  {
  }

  function Nibble(b0: bool, b1: bool, b2: bool, b3: bool): (x: int)
    ensures 0 <= x < 16
  {
    One(b0) + 2 * One(b1) + 4 * One(b2) + 8 * One(b3)
  }

  lemma NibbleInjective(a0: bool, a1: bool, a2: bool, a3: bool, b0: bool, b1: bool, b2: bool, b3: bool)
    requires Nibble(a0, a1, a2, a3) == Nibble(b0, b1, b2, b3)
    ensures a0 == b0 && a1 == b1 && a2 == b2 && a3 == b3
  {
  }

  lemma Nibbles(a: Bits)
    ensures Value(a) == Nibble(a.b0, a.b1, a.b2, a.b3) + 16 * Nibble(a.b4, a.b5, a.b6, a.b7)
  {
  }

  lemma ValueInjective(a: Bits, b: Bits)
    requires Value(a) == Value(b)
    ensures a == b
  {
    hide Value, Nibble;
    Nibbles(a);
    Nibbles(b);
    NibbleInjective(a.b0, a.b1, a.b2, a.b3, b.b0, b.b1, b.b2, b.b3);
    NibbleInjective(a.b4, a.b5, a.b6, a.b7, b.b4, b.b5, b.b6, b.b7);
  }

  lemma ToBitsValue(a: Bits)
    ensures ToBits(Value(a)) == a
  {
    hide ToBits;
    ValueToBits(Value(a));
    ValueInjective(ToBits(Value(a)), a);
  }

  lemma XorToBits(x: Elem, y: Elem)
    ensures ToBits(Xor(x, y)) == XorBits(ToBits(x), ToBits(y))
  {
    ToBitsValue(XorBits(ToBits(x), ToBits(y)));
  }

  lemma XorAssoc(x: Elem, y: Elem, z: Elem)
    ensures Xor(Xor(x, y), z) == Xor(x, Xor(y, z))
  {
    hide ToBits, Value;
    XorToBits(x, y);
    XorToBits(y, z);
  }

  lemma XorBitsBasics(a: Bits, b: Bits)
    ensures XorBits(a, b) == XorBits(b, a)
    ensures XorBits(a, a) == Bits(false, false, false, false, false, false, false, false)
    ensures XorBits(a, Bits(false, false, false, false, false, false, false, false)) == a
  {
  }

  lemma XorBasics(x: Elem, y: Elem)
    ensures Xor(x, y) == Xor(y, x)
    ensures Xor(x, x) == 0
    ensures Xor(x, 0) == x && Xor(0, x) == x
  {
    hide ToBits, Value, XorBits;
    var o := Bits(false, false, false, false, false, false, false, false);
    ValueOfZero();
    ToBitsValue(o);
    ValueToBits(x);
    XorBitsBasics(ToBits(x), ToBits(y));
    XorBitsBasics(ToBits(x), o);
  }

  lemma ValueOfZero()
    ensures Value(Bits(false, false, false, false, false, false, false, false)) == 0
  {
  }

  /** The shift to the left by one place, within the byte. */
  function ShiftBits(a: Bits): Bits {
    Bits(false, a.b0, a.b1, a.b2, a.b3, a.b4, a.b5, a.b6)
  }

  lemma ShiftValue(a: Bits)
    ensures Value(ShiftBits(a)) == if a.b7 then 2 * Value(a) - 256 else 2 * Value(a)
    ensures a.b7 <==> Value(a) >= 128
  {
  }
}
