/** The BCH codes of the format and the version information (ISO/IEC 18004:2015, sections
    7.9 and 7.10): how the writer computes them, and how many wrong modules the reader's
    nearest-word search survives. */
module BchCodes {
  import opened BitStrings
  import opened Words

  // ---- Distance

  /** In how many bits two numbers differ. */
  function NumBitsDiffering(a: nat, b: nat): nat
    decreases a + b
  {
    if a == 0 && b == 0 then 0 else
    (if a % 2 != b % 2 then 1 else 0) + NumBitsDiffering(a / 2, b / 2)
  }

  /** In how many places two bit strings differ. */
  function Hamming(a: seq<bool>, b: seq<bool>): nat
    requires |a| == |b|
  {
    if a == [] then 0 else
    var n := |a| - 1;
    Hamming(a[..n], b[..n]) + if a[n] != b[n] then 1 else 0
  }

  lemma {:induction false} DifferingIsHamming(a: seq<bool>, b: seq<bool>)
    requires |a| == |b|
    ensures NumBitsDiffering(BitsNum(a), BitsNum(b)) == Hamming(a, b)
    decreases |a|
  {
    if a != [] {
      var n := |a| - 1;
      DifferingIsHamming(a[..n], b[..n]);
    }
  }

  lemma {:induction false} HammingTriangle(a: seq<bool>, b: seq<bool>, c: seq<bool>)
    requires |a| == |b| == |c|
    ensures Hamming(a, c) <= Hamming(a, b) + Hamming(b, c)
    decreases |a|
  {
    if a != [] {
      var n := |a| - 1;
      HammingTriangle(a[..n], b[..n], c[..n]);
    }
  }

  lemma {:induction false} HammingSymmetric(a: seq<bool>, b: seq<bool>)
    requires |a| == |b|
    ensures Hamming(a, b) == Hamming(b, a)
    decreases |a|
  {
    if a != [] {
      HammingSymmetric(a[..|a| - 1], b[..|a| - 1]);
    }
  }

  lemma {:induction false} HammingSame(a: seq<bool>)
    ensures Hamming(a, a) == 0
    decreases |a|
  {
    if a != [] {
      HammingSame(a[..|a| - 1]);
    }
  }

  // ---- The writer's division

  /** The number of bits up to the highest one set, among the lowest k. */
  function MsbBelow(w: Word, k: nat): (m: nat)
    requires k <= 32
    ensures m <= k && (m > 0 ==> w[m - 1]) && forall i :: m <= i < k ==> !w[i]
  {
    if k == 0 then 0 else if w[k - 1] then k else MsbBelow(w, k - 1)
  }

  function FindMsbSet(w: Word): (m: nat)
    ensures m <= 32 && (m > 0 ==> w[m - 1]) && forall i :: m <= i < 32 ==> !w[i]
  {
    MsbBelow(w, 32)
  }

  /** The highest bit set is the only number of its kind. */
  lemma MsbIs(w: Word, m: nat)
    requires m <= 32 && (m > 0 ==> w[m - 1]) && forall i :: m <= i < 32 ==> !w[i]
    ensures FindMsbSet(w) == m
  {
  }

  lemma ReduceSmaller(e: Word, t: Word)
    requires 1 <= FindMsbSet(t) <= FindMsbSet(e)
    ensures FindMsbSet(Xor(e, ShiftLeft(t, FindMsbSet(e) - FindMsbSet(t)))) < FindMsbSet(e)
  {
    var m, n := FindMsbSet(e), FindMsbSet(t);
    var r := Xor(e, ShiftLeft(t, m - n));
    assert !r[m - 1];
  }

  /** What is left when multiples of t are taken off e from above. */
  function Remainder(e: Word, t: Word): (r: Word)
    requires FindMsbSet(t) >= 1
    ensures FindMsbSet(r) < FindMsbSet(t)
    decreases FindMsbSet(e)
  {
    if FindMsbSet(e) < FindMsbSet(t) then e else
    ReduceSmaller(e, t);
    Remainder(Xor(e, ShiftLeft(t, FindMsbSet(e) - FindMsbSet(t))), t)
  }

  /** The program finds the highest bit by counting leading zeros. */
  method ComputeMsbSet(w: Word) returns (m: nat)
    ensures m == FindMsbSet(w)
  {
    var n := NumberOfLeadingZeros(w);
    m := 32 - n;
    MsbIs(w, m);
  }

  /** The check bits of e.  The program throws for t = 0. */
  method CalculateBchCode(e: Word, t: Word) returns (r: Word)
    requires FindMsbSet(t) >= 1
    ensures r == Remainder(ShiftLeft(e, FindMsbSet(t) - 1), t)
  {
    hide FindMsbSet;
    var n := ComputeMsbSet(t);
    r := ShiftLeft(e, n - 1);
    var m := ComputeMsbSet(r);
    while m >= n
      invariant m == FindMsbSet(r) && Remainder(r, t) == Remainder(ShiftLeft(e, n - 1), t)
      decreases m
    {
      ReduceSmaller(r, t);
      r := Xor(r, ShiftLeft(t, m - n));
      m := ComputeMsbSet(r);
    }
  }

  /** One place of the division: if bit p is set, t is taken off under it. */
  function Reduce(e: Word, t: Word, p: nat): Word
    requires 1 <= FindMsbSet(t) <= p + 1
  {
    if p < 32 && e[p] then Xor(e, ShiftLeft(t, p + 1 - FindMsbSet(t))) else e
  }

  lemma ReduceKeeps(e: Word, t: Word, p: nat)
    requires 1 <= FindMsbSet(t) <= p + 1 && p < 32 && forall i :: p < i < 32 ==> !e[i]
    ensures Remainder(Reduce(e, t, p), t) == Remainder(e, t)
    ensures forall i :: p <= i < 32 ==> !Reduce(e, t, p)[i]
  {
    if e[p] {
      MsbIs(e, p + 1);
      ReduceSmaller(e, t);
    }
  }

  /** The lowest n bits, the highest first, as they are appended to a bit array. */
  function Appended(w: Word, n: nat): (b: seq<bool>)
    requires n <= 32
    ensures |b| == n
  {
    seq(n, i requires 0 <= i < n => w[n - 1 - i])
  }

  lemma RemainderSmall(e: Word, t: Word)
    requires 1 <= FindMsbSet(t) && FindMsbSet(e) < FindMsbSet(t)
    ensures Remainder(e, t) == e
  {
  }

  lemma MsbAtMost(w: Word, m: nat)
    requires m < 32 && forall i :: m <= i < 32 ==> !w[i]
    ensures FindMsbSet(w) <= m
  {
  }

  lemma ReduceAt(e: Word, t: Word, p: nat, i: nat)
    requires 1 <= FindMsbSet(t) <= p + 1 && p < 32 && i < 32
    ensures Reduce(e, t, p)[i]
            == (e[i] != (e[p] && i >= p + 1 - FindMsbSet(t) && t[i - (p + 1 - FindMsbSet(t))]))
  {
    hide FindMsbSet, MsbBelow;
    var s := ShiftLeft(t, p + 1 - FindMsbSet(t));
    assert Xor(e, s)[i] == (e[i] != s[i]);
  }

  // ---- Words and numbers, a few places at a time

  /** The number of the first n bits. */
  function PrefixNum(b: seq<bool>, n: nat): nat
    requires n <= |b|
  {
    BitsNum(b[..n])
  }

  lemma PrefixNumStep(b: seq<bool>, n: nat)
    requires n < |b|
    ensures PrefixNum(b, n + 1) == 2 * PrefixNum(b, n) + Weight(b[n], 1)
  {
    assert b[..n + 1][..n] == b[..n];
  }

  lemma PrefixNumEnds(b: seq<bool>)
    ensures PrefixNum(b, 0) == 0 && PrefixNum(b, |b|) == BitsNum(b)
  {
    assert b[..|b|] == b;
  }

  function Weight(b: bool, w: nat): nat {
    if b then w else 0
  }

  /** Five places more. */
  lemma PrefixNumFive(b: seq<bool>, n: nat)
    requires n + 5 <= |b|
    ensures PrefixNum(b, n + 5)
            == 32 * PrefixNum(b, n) + 16 * Weight(b[n], 1) + 8 * Weight(b[n + 1], 1) + 4 * Weight(b[n + 2], 1)
               + 2 * Weight(b[n + 3], 1) + Weight(b[n + 4], 1)
  {
    hide PrefixNum, Weight;
    PrefixNumStep(b, n);
    PrefixNumStep(b, n + 1);
    PrefixNumStep(b, n + 2);
    PrefixNumStep(b, n + 3);
    PrefixNumStep(b, n + 4);
  }

  /** The distance of the first n places. */
  function PrefixHamming(a: seq<bool>, b: seq<bool>, n: nat): nat
    requires |a| == |b| && n <= |a|
  {
    Hamming(a[..n], b[..n])
  }

  lemma PrefixHammingStep(a: seq<bool>, b: seq<bool>, n: nat)
    requires |a| == |b| && n < |a|
    ensures PrefixHamming(a, b, n + 1) == PrefixHamming(a, b, n) + Weight(a[n] != b[n], 1)
  {
    assert a[..n + 1][..n] == a[..n] && b[..n + 1][..n] == b[..n];
  }

  lemma PrefixHammingEnds(a: seq<bool>, b: seq<bool>)
    requires |a| == |b|
    ensures PrefixHamming(a, b, 0) == 0 && PrefixHamming(a, b, |a|) == Hamming(a, b)
  {
    assert a[..|a|] == a && b[..|b|] == b;
  }
}
