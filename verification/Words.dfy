/** 32-bit words and the operations of the program on them, as their bits, the lowest first. */
module Words {
  type Word = w: seq<bool> | |w| == 32 witness seq(32, i => false)

  function Zero(): Word {
    seq(32, i => false)
  }

  /** The word 1 << k. */
  function Unit(k: nat): Word
    requires k < 32
  {
    seq(32, i => i == k)
  }

  function Or(a: Word, b: Word): Word {
    seq(32, i requires 0 <= i < 32 => a[i] || b[i])
  }

  function And(a: Word, b: Word): Word {
    seq(32, i requires 0 <= i < 32 => a[i] && b[i])
  }

  function Xor(a: Word, b: Word): Word {
    seq(32, i requires 0 <= i < 32 => a[i] != b[i])
  }

  function Not(a: Word): Word {
    seq(32, i requires 0 <= i < 32 => !a[i])
  }

  /** The shift that fills with zeros. */
  function ShiftRight(a: Word, k: nat): Word {
    seq(32, i requires 0 <= i < 32 => if i + k < 32 then a[i + k] else false)
  }

  /** The shift that fills with the sign. */
  function SignedShiftRight(a: Word, k: nat): Word {
    seq(32, i requires 0 <= i < 32 => if i + k < 32 then a[i + k] else a[31])
  }

  function ShiftLeft(a: Word, k: nat): Word {
    seq(32, i requires 0 <= i < 32 => if i < k then false else a[i - k])
  }

  // ---- Counting zeros

  /** Bits below k are clear and bit k is set. */
  predicate LowestIs(w: Word, k: nat) {
    k < 32 && w[k] && forall i :: 0 <= i < k ==> !w[i]
  }

  predicate HighestIs(w: Word, k: nat) {
    k < 32 && w[k] && forall i :: k < i < 32 ==> !w[i]
  }

  lemma AllClear(w: Word)
    requires forall k :: 0 <= k < 32 ==> !w[k]
    ensures w == Zero()
  {
  }

  lemma NotZero(w: Word)
    requires w != Zero()
    ensures exists k :: 0 <= k < 32 && w[k]
  {
    if forall k :: 0 <= k < 32 ==> !w[k] {
      AllClear(w);
    }
  }

  lemma ShiftLeftLowest(w: Word, p: nat, k: nat)
    requires LowestIs(w, p)
    ensures p < 32 && (ShiftLeft(w, k) == Zero() <==> p + k >= 32)
    ensures p + k < 32 ==> LowestIs(ShiftLeft(w, k), p + k)
  {
    if p + k < 32 {
      assert ShiftLeft(w, k)[p + k];
    }
  }

  lemma LastTwoPlaces(w: Word, p: nat)
    requires LowestIs(w, p) && p >= 30
    ensures ShiftRight(ShiftLeft(w, 1), 31)[0] <==> p == 30
  {
  }

  /** Four tests halve the range each, and the last bit decides between two places. */
  method NumberOfTrailingZeros(w: Word) returns (n: nat)
    ensures w == Zero() ==> n == 32
    ensures w != Zero() ==> LowestIs(w, n)
  {
    hide LowestIs, ShiftLeft, ShiftRight, Zero;
    if w == Zero() {
      return 32;
    }
    ghost var p := LowestOf(w);
    ghost var q := p;
    var e := w;
    n := 31;
    var t := ShiftLeft(e, 16);
    ShiftLeftLowest(e, q, 16);
    if t != Zero() {
      n, e, q := n - 16, t, q + 16;
    }
    t := ShiftLeft(e, 8);
    ShiftLeftLowest(e, q, 8);
    if t != Zero() {
      n, e, q := n - 8, t, q + 8;
    }
    t := ShiftLeft(e, 4);
    ShiftLeftLowest(e, q, 4);
    if t != Zero() {
      n, e, q := n - 4, t, q + 4;
    }
    t := ShiftLeft(e, 2);
    ShiftLeftLowest(e, q, 2);
    if t != Zero() {
      n, e, q := n - 2, t, q + 2;
    }
    LastTwoPlaces(e, q);
    n := n - if ShiftRight(ShiftLeft(e, 1), 31)[0] then 1 else 0;
  }

  ghost function LowestOf(w: Word): (k: nat)
    requires w != Zero()
    ensures LowestIs(w, k)
  {
    NotZero(w);
    var k :| 0 <= k < 32 && w[k];
    LowestBelow(w, k)
  }

  ghost function LowestBelow(w: Word, k: nat): (l: nat)
    requires k < 32 && w[k]
    ensures LowestIs(w, l)
    decreases k
  {
    if j :| 0 <= j < k && w[j] then LowestBelow(w, j) else k
  }

  lemma ShiftHighest(w: Word, p: nat, k: nat)
    requires HighestIs(w, p) && k < 32
    ensures p < 32 && (ShiftRight(w, 32 - k) == Zero() <==> p + k < 32)
    ensures p + k < 32 ==> HighestIs(ShiftLeft(w, k), p + k)
  {
    if p + k >= 32 {
      assert ShiftRight(w, 32 - k)[p + k - 32];
    }
  }

  lemma FirstTwoPlaces(w: Word, p: nat)
    requires HighestIs(w, p) && p >= 30
    ensures ShiftRight(w, 31)[0] <==> p == 31
  {
  }

  method NumberOfLeadingZeros(w: Word) returns (n: nat)
    ensures w == Zero() ==> n == 32
    ensures w != Zero() ==> n < 32 && HighestIs(w, 31 - n)
  {
    hide HighestIs, ShiftLeft, ShiftRight, Zero;
    if w == Zero() {
      return 32;
    }
    ghost var p := HighestOf(w);
    ghost var q := p;
    var e := w;
    n := 1;
    ShiftHighest(e, q, 16);
    if ShiftRight(e, 16) == Zero() {
      n, e, q := n + 16, ShiftLeft(e, 16), q + 16;
    }
    ShiftHighest(e, q, 8);
    if ShiftRight(e, 24) == Zero() {
      n, e, q := n + 8, ShiftLeft(e, 8), q + 8;
    }
    ShiftHighest(e, q, 4);
    if ShiftRight(e, 28) == Zero() {
      n, e, q := n + 4, ShiftLeft(e, 4), q + 4;
    }
    ShiftHighest(e, q, 2);
    if ShiftRight(e, 30) == Zero() {
      n, e, q := n + 2, ShiftLeft(e, 2), q + 2;
    }
    FirstTwoPlaces(e, q);
    n := n - if ShiftRight(e, 31)[0] then 1 else 0;
  }

  ghost function HighestOf(w: Word): (k: nat)
    requires w != Zero()
    ensures HighestIs(w, k)
  {
    NotZero(w);
    var k :| 0 <= k < 32 && w[k];
    HighestAbove(w, k)
  }

  ghost function HighestAbove(w: Word, k: nat): (l: nat)
    requires k < 32 && w[k]
    ensures HighestIs(w, l)
    decreases 32 - k
  {
    if j :| k < j < 32 && w[j] then HighestAbove(w, j) else k
  }
}
