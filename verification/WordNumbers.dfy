/** The masks of the bit array as numbers: the arithmetic by which the program computes them. */
module WordNumbers {
  import opened BitArrays
  import opened BitStrings

  /** The number of some bits, the lowest first, without a sign. */
  function Number(b: seq<bool>): nat {
    if b == [] then 0 else Number(b[..|b| - 1]) + if b[|b| - 1] then Pow2(|b| - 1) else 0
  }

  lemma {:induction false} NumberBound(b: seq<bool>)
    ensures Number(b) < Pow2(|b|)
  {
    if b != [] {
      NumberBound(b[..|b| - 1]);
    }
  }

  /** Bits of the same length with the same number are the same. */
  lemma {:induction false} NumberInjective(a: seq<bool>, b: seq<bool>)
    requires |a| == |b| && Number(a) == Number(b)
    ensures a == b
  {
    if a != [] {
      var n := |a| - 1;
      NumberBound(a[..n]);
      NumberBound(b[..n]);
      NumberInjective(a[..n], b[..n]);
      assert a == a[..n] + [a[n]] && b == b[..n] + [b[n]];
    }
  }

  lemma NumberStep(w: seq<bool>, n: nat)
    requires n < |w|
    ensures Number(w[..n + 1]) == Number(w[..n]) + if w[n] then Pow2(n) else 0
  {
    assert w[..n + 1][..n] == w[..n];
  }

  lemma {:induction false} RangePrefix(f: nat, u: nat, n: nat)
    requires f <= u < 32 && n <= 32
    ensures Number(RangeMask(f, u)[..n])
         == if n <= f then 0 else if n <= u then Pow2(n) - Pow2(f) else Pow2(u + 1) - Pow2(f)
  {
    if n > 0 {
      RangePrefix(f, u, n - 1);
      NumberStep(RangeMask(f, u), n - 1);
    }
  }

  /** A number as the program's shifts and bit operations take it: modulo 2^32, with a sign. */
  function Signed(x: int): int {
    var r := x % 0x1_0000_0000;
    if r >= 0x8000_0000 then r - 0x1_0000_0000 else r
  }

  /** Without its sign it is the number of a word. */
  function Unsigned(x: int): nat {
    x % 0x1_0000_0000
  }

  /** The shift x << k. */
  function Shifted(x: nat, k: nat): int {
    Signed(x * Pow2(k))
  }

  lemma RangeNumber(f: nat, u: nat)
    requires f <= u < 32
    ensures Number(RangeMask(f, u)) == Pow2(u + 1) - Pow2(f)
  {
    RangePrefix(f, u, 32);
    assert RangeMask(f, u)[..32] == RangeMask(f, u);
  }

  /** Bits f to u are (2 << u) - (1 << f), where 2 << 31 is zero and 1 << 31 is negative. */
  lemma RangeMaskNumber(f: nat, u: nat)
    requires f <= u < 32
    ensures Number(RangeMask(f, u)) == Unsigned(Shifted(2, u) - Shifted(1, f))
    ensures Shifted(2, 31) == 0
  {
    RangeNumber(f, u);
    NumberBound(RangeMask(f, u));
    WholeWord();
    assert Pow2(u + 1) == 2 * Pow2(u);
    hide Pow2, Number, RangeMask;
    SignedDifference(2 * Pow2(u), Pow2(f));
  }

  lemma SignedDifference(x: nat, y: nat)
    requires 0 <= x - y < 0x1_0000_0000
    ensures Unsigned(Signed(x) - Signed(1 * y)) == x - y
  {
  }

  lemma WholeWord()
    ensures Pow2(32) == 0x1_0000_0000 && 2 * Pow2(31) == 0x1_0000_0000
  {
    Powers();
    PowerOfSum(16, 16);
  }

  lemma {:induction false} BelowPrefix(f: nat, n: nat)
    requires f < 32 && n <= 32
    ensures Number(RangeBelow(f)[..n]) == Pow2(if n <= f then n else f) - 1
  {
    if n > 0 {
      BelowPrefix(f, n - 1);
      NumberStep(RangeBelow(f), n - 1);
    }
  }

  /** The bits below f are (1 << f) - 1. */
  lemma RangeBelowNumber(f: nat)
    requires f < 32
    ensures Number(RangeBelow(f)) == Pow2(f) - 1 == Unsigned(Shifted(1, f) - 1)
  {
    BelowPrefix(f, 32);
    assert RangeBelow(f)[..32] == RangeBelow(f);
    NumberBound(RangeBelow(f));
    WholeWord();
    hide Pow2, Number, RangeBelow;
    SignedLess(Pow2(f));
  }

  lemma SignedLess(y: nat)
    requires 1 <= y <= 0x1_0000_0000
    ensures Unsigned(Signed(1 * y) - 1) == y - 1
  {
  }

  // ---- The masks of the reversal

  lemma {:induction false} PowerOfSum(a: nat, b: nat)
    ensures Pow2(a + b) == Pow2(a) * Pow2(b)
  {
    if a > 0 {
      PowerOfSum(a - 1, b);
      assert Pow2(a + b) == 2 * Pow2(a - 1 + b);
      assert 2 * (Pow2(a - 1) * Pow2(b)) == (2 * Pow2(a - 1)) * Pow2(b);
    }
  }

  lemma {:induction false} NumberJoin(a: seq<bool>, b: seq<bool>)
    ensures Number(a + b) == Number(a) + Pow2(|a|) * Number(b)
    decreases |b|
  {
    if b == [] {
      assert a + b == a;
    } else {
      var n := |b| - 1;
      assert (a + b)[..|a + b| - 1] == a + b[..n];
      NumberJoin(a, b[..n]);
      PowerOfSum(|a|, n);
      JoinStep(Pow2(|a|), Number(b[..n]), Pow2(n));
    }
  }

  lemma JoinStep(p: nat, x: nat, q: nat)
    ensures p * (x + q) == p * x + p * q
  {
  }

  /** A pattern written twice. */
  lemma NumberTwice(b: seq<bool>, p: nat, x: nat)
    requires Pow2(|b|) == p && Number(b) == x
    ensures Number(b + b) == x + p * x
  {
    NumberJoin(b, b);
  }

  lemma Powers()
    ensures Pow2(1) == 2 && Pow2(2) == 4 && Pow2(4) == 16 && Pow2(8) == 256 && Pow2(16) == 0x1_0000
  {
    PowerOfSum(8, 8);
  }

  /** k ones, then k zeros. */
  function Pattern(k: nat): (b: seq<bool>)
    ensures |b| == 2 * k
  {
    seq(2 * k, i => i < k)
  }

  lemma PatternNumber(k: nat)
    ensures Number(Pattern(k)) == Pow2(k) - 1
  {
    OnesNumber(k);
    ZerosNumber(k);
    NumberJoin(seq(k, i => true), seq(k, i => false));
    assert Pattern(k) == seq(k, i => true) + seq(k, i => false);
  }

  lemma {:induction false} OnesNumber(k: nat)
    ensures Number(seq(k, i => true)) == Pow2(k) - 1
  {
    if k > 0 {
      OnesNumber(k - 1);
      assert seq(k, i => true)[..k - 1] == seq(k - 1, i => true);
    }
  }

  lemma {:induction false} ZerosNumber(k: nat)
    ensures Number(seq(k, i => false)) == 0
  {
    if k > 0 {
      ZerosNumber(k - 1);
      assert seq(k, i => false)[..k - 1] == seq(k - 1, i => false);
    }
  }

  lemma Mask16()
    ensures Number(GroupMask(16)) == 0x0000_FFFF
  {
    Powers();
    PatternNumber(16);
    assert GroupMask(16) == Pattern(16);
  }

  lemma Mask8()
    ensures Number(GroupMask(8)) == 0x00FF_00FF
  {
    Powers();
    PatternNumber(8);
    NumberTwice(Pattern(8), 0x1_0000, 0xFF);
    assert GroupMask(8) == Pattern(8) + Pattern(8);
  }

  lemma Mask4()
    ensures Number(GroupMask(4)) == 0x0F0F_0F0F
  {
    Powers();
    PatternNumber(4);
    var b := Pattern(4);
    NumberTwice(b, 0x100, 0x0F);
    NumberTwice(b + b, 0x1_0000, 0x0F0F);
    assert GroupMask(4) == (b + b) + (b + b);
  }

  lemma Mask2()
    ensures Number(GroupMask(2)) == 0x3333_3333
  {
    Powers();
    PatternNumber(2);
    var b := Pattern(2);
    NumberTwice(b, 0x10, 0x3);
    NumberTwice(b + b, 0x100, 0x33);
    NumberTwice((b + b) + (b + b), 0x1_0000, 0x3333);
    assert GroupMask(2) == ((b + b) + (b + b)) + ((b + b) + (b + b));
  }

  lemma Mask1()
    ensures Number(GroupMask(1)) == 0x5555_5555
  {
    Mask1Is();
    hide Number, GroupMask, Pattern;
    Powers();
    PatternNumber(1);
    NumberTwice(Pattern(1), 4, 1);
    NumberTwice(Twice(Pattern(1)), 0x10, 0x5);
    NumberTwice(Twice(Twice(Pattern(1))), 0x100, 0x55);
    NumberTwice(Twice(Twice(Twice(Pattern(1)))), 0x1_0000, 0x5555);
  }

  function Twice(b: seq<bool>): (r: seq<bool>)
    ensures |r| == 2 * |b|
  {
    b + b
  }

  lemma Mask1Is()
    ensures GroupMask(1) == Twice(Twice(Twice(Twice(Pattern(1)))))
  {
    var w := Twice(Twice(Twice(Twice(Pattern(1)))));
    forall i | 0 <= i < 32 ensures GroupMask(1)[i] == w[i] {
    }
  }

  /** The hexadecimal constants of the reversal. */
  lemma GroupMaskNumbers()
    ensures Number(GroupMask(1)) == 0x5555_5555 && Number(GroupMask(2)) == 0x3333_3333
    ensures Number(GroupMask(4)) == 0x0F0F_0F0F && Number(GroupMask(8)) == 0x00FF_00FF
    ensures Number(GroupMask(16)) == 0x0000_FFFF
  {
    hide Number, GroupMask;
    Mask1();
    Mask2();
    Mask4();
    Mask8();
    Mask16();
  }
}
