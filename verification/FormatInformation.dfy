/** The format information: level and mask, spread over 15 bits (section 7.9 of ISO/IEC
    18004:2015). */
module FormatInformation {
  import opened BchCodes
  import opened BitStrings
  import opened Words

  /** The generator 1335. */
  function TypeInfoPoly(): Word {
    seq(32, i => i == 0 || i == 1 || i == 2 || i == 4 || i == 5 || i == 8 || i == 10)
  }

  /** The mask pattern 21522. */
  function TypeInfoMask(): Word {
    seq(32, i => i == 1 || i == 4 || i == 10 || i == 12 || i == 14)
  }

  datatype Five = Five(b0: bool, b1: bool, b2: bool, b3: bool, b4: bool)

  /** The bits of a number below 32. */
  function FiveOf(k: nat): Five {
    Five(k % 2 == 1, k / 2 % 2 == 1, k / 4 % 2 == 1, k / 8 % 2 == 1, k / 16 % 2 == 1)
  }

  function FiveWord(d: Five): Word {
    seq(32, i => if i == 0 then d.b0 else if i == 1 then d.b1 else if i == 2 then d.b2 else if i == 3 then d.b3
                 else if i == 4 then d.b4 else false)
  }

  /** The bits of the code, lowest first, before the mask. */
  function FormatBit(d: Five, i: nat): bool
    requires i < 15
  {
    match i
    case 0 => (d.b0 != d.b2) != d.b4
    case 1 => (((d.b0 != d.b1) != d.b2) != d.b3) != d.b4
    case 2 => (d.b0 != d.b1) != d.b3
    case 3 => (d.b1 != d.b2) != d.b4
    case 4 => (d.b0 != d.b3) != d.b4
    case 5 => (d.b0 != d.b1) != d.b2
    case 6 => (d.b1 != d.b2) != d.b3
    case 7 => (d.b2 != d.b3) != d.b4
    case 8 => (d.b0 != d.b2) != d.b3
    case 9 => (d.b1 != d.b3) != d.b4
    case 10 => d.b0
    case 11 => d.b1
    case 12 => d.b2
    case 13 => d.b3
    case _ => d.b4
  }

  /** The masked word of the data d, highest bit first. */
  function FormatWord(d: Five): (w: seq<bool>)
    ensures |w| == 15
  {
    seq(15, i requires 0 <= i < 15 => FormatBit(d, 14 - i) != TypeInfoMask()[14 - i])
  }

  lemma TypeInfoPolyDegree()
    ensures FindMsbSet(TypeInfoPoly()) == 11
  {
    MsbIs(TypeInfoPoly(), 11);
  }

  /** The check bits of the data d. */
  function FormatCheckBits(d: Five): Word {
    TypeInfoPolyDegree();
    Remainder(ShiftLeft(FiveWord(d), 10), TypeInfoPoly())
  }

  /** The word after the first k of the 5 places. */
  function FormatStep(d: Five, k: nat): Word
    requires k <= 5
  {
    if k == 0 then ShiftLeft(FiveWord(d), 10) else
    TypeInfoPolyDegree();
    Reduce(FormatStep(d, k - 1), TypeInfoPoly(), 15 - k)
  }

  lemma FormatStepAt(d: Five, k: nat, i: nat)
    requires 1 <= k <= 5 && i < 32
    ensures FormatStep(d, k)[i]
            == (FormatStep(d, k - 1)[i] != (FormatStep(d, k - 1)[15 - k] && i >= 5 - k && TypeInfoPoly()[i - (5 - k)]))
  {
    hide TypeInfoPoly;
    TypeInfoPolyDegree();
    ReduceAt(FormatStep(d, k - 1), TypeInfoPoly(), 15 - k, i);
  }

  /** Which of the places are taken off. */
  lemma FormatPivots(d: Five)
    ensures FormatStep(d, 0)[14] == d.b4
    ensures FormatStep(d, 1)[13] == d.b3
    ensures FormatStep(d, 2)[12] == (d.b2 != d.b4)
    ensures FormatStep(d, 3)[11] == (d.b1 != d.b3)
    ensures FormatStep(d, 4)[10] == ((d.b0 != d.b2) != d.b4)
  {
    hide Reduce, FormatStep;
    FormatStart(d);
    FormatStepAt(d, 1, 13);
    FormatStepAt(d, 1, 12);
    FormatStepAt(d, 1, 11);
    FormatStepAt(d, 1, 10);
    FormatStepAt(d, 2, 12);
    FormatStepAt(d, 2, 11);
    FormatStepAt(d, 2, 10);
    FormatStepAt(d, 3, 11);
    FormatStepAt(d, 3, 10);
    FormatStepAt(d, 4, 10);
  }

  lemma FormatStart(d: Five)
    ensures FormatStep(d, 0) == ShiftLeft(FiveWord(d), 10)
  {
  }

  /** The division ends with the last place. */
  lemma FormatDivided(d: Five)
    ensures FormatCheckBits(d) == FormatStep(d, 5)
  {
    hide Remainder, Reduce, TypeInfoPoly, FindMsbSet, FormatStep;
    FormatStart(d);
    TypeInfoPolyDegree();
    FormatUnfold(d, 1);
    ReduceKeeps(FormatStep(d, 0), TypeInfoPoly(), 14);
    FormatUnfold(d, 2);
    ReduceKeeps(FormatStep(d, 1), TypeInfoPoly(), 13);
    FormatUnfold(d, 3);
    ReduceKeeps(FormatStep(d, 2), TypeInfoPoly(), 12);
    FormatUnfold(d, 4);
    ReduceKeeps(FormatStep(d, 3), TypeInfoPoly(), 11);
    FormatUnfold(d, 5);
    ReduceKeeps(FormatStep(d, 4), TypeInfoPoly(), 10);
    MsbAtMost(FormatStep(d, 5), 10);
    RemainderSmall(FormatStep(d, 5), TypeInfoPoly());
  }

  lemma FormatUnfold(d: Five, k: nat)
    requires 1 <= k <= 5
    ensures FindMsbSet(TypeInfoPoly()) == 11
    ensures FormatStep(d, k) == Reduce(FormatStep(d, k - 1), TypeInfoPoly(), 15 - k)
  {
    TypeInfoPolyDegree();
  }

  /** The check bits come out as the code says. */
  lemma FormatCheckBit(d: Five, i: nat)
    requires i < 10
    ensures FormatCheckBits(d)[i] == FormatBit(d, i)
  {
    hide Reduce, FormatStep, FormatCheckBits;
    FormatDivided(d);
    FormatStart(d);
    FormatPivots(d);
    FormatStepAt(d, 1, i);
    FormatStepAt(d, 2, i);
    FormatStepAt(d, 3, i);
    FormatStepAt(d, 4, i);
    FormatStepAt(d, 5, i);
  }

  /** What the writer appends: the data, its check bits, and the mask over all. */
  function MakeTypeInfoBits(d: Five): (w: seq<bool>)
    ensures |w| == 15
  {
    var b := Appended(FiveWord(d), 5) + Appended(FormatCheckBits(d), 10);
    seq(15, i requires 0 <= i < 15 => b[i] != Appended(TypeInfoMask(), 15)[i])
  }

  lemma FormatAt(d: Five, i: nat)
    requires i < 15
    ensures MakeTypeInfoBits(d)[i]
            == ((if i < 5 then FiveWord(d)[4 - i] else FormatCheckBits(d)[14 - i]) != TypeInfoMask()[14 - i])
  {
    hide FormatCheckBits, TypeInfoMask, FiveWord;
    var x, y := Appended(FiveWord(d), 5), Appended(FormatCheckBits(d), 10);
    assert (x + y)[i] == if i < 5 then x[i] else y[i - 5];
    assert Appended(TypeInfoMask(), 15)[i] == TypeInfoMask()[14 - i];
  }

  method ComputeTypeInfoBits(d: Five) returns (w: seq<bool>)
    ensures w == MakeTypeInfoBits(d)
  {
    hide FiveWord, FormatCheckBits, TypeInfoPoly, Remainder;
    TypeInfoPolyDegree();
    var check := CalculateBchCode(FiveWord(d), TypeInfoPoly());
    CheckBitsAre(d);
    var b := Appended(FiveWord(d), 5) + Appended(check, 10);
    var mask := Appended(TypeInfoMask(), 15);
    w := seq(15, i requires 0 <= i < 15 => b[i] != mask[i]);
  }

  lemma CheckBitsAre(d: Five)
    ensures FindMsbSet(TypeInfoPoly()) == 11
    ensures FormatCheckBits(d) == Remainder(ShiftLeft(FiveWord(d), 10), TypeInfoPoly())
  {
    TypeInfoPolyDegree();
  }

  /** The writer's word is the masked code word. */
  lemma FormatComputed(d: Five)
    ensures MakeTypeInfoBits(d) == FormatWord(d)
  {
    hide FormatCheckBits, TypeInfoMask;
    forall i | 0 <= i < 15 ensures MakeTypeInfoBits(d)[i] == FormatWord(d)[i] {
      FormatAt(d, i);
      if i >= 5 {
        FormatCheckBit(d, 14 - i);
      }
    }
  }

  // ---- The words as numbers

  /** The reader's list of masked words. */
  function FormatTable(k: nat): nat
    requires k < 32
  {
    match k
    case 0 => 21522
    case 1 => 20773
    case 2 => 24188
    case 3 => 23371
    case 4 => 17913
    case 5 => 16590
    case 6 => 20375
    case 7 => 19104
    case 8 => 30660
    case 9 => 29427
    case 10 => 32170
    case 11 => 30877
    case 12 => 26159
    case 13 => 25368
    case 14 => 27713
    case 15 => 26998
    case 16 => 5769
    case 17 => 5054
    case 18 => 7399
    case 19 => 6608
    case 20 => 1890
    case 21 => 597
    case 22 => 3340
    case 23 => 2107
    case 24 => 13663
    case 25 => 12392
    case 26 => 16177
    case 27 => 14854
    case 28 => 9396
    case 29 => 8579
    case 30 => 11994
    case _ => 11245
  }

  // The masked word of d, five bits at a time.

  function HighFive(d: Five): nat {
    16 * Weight(!FormatBit(d, 14), 1) + 8 * Weight(FormatBit(d, 13), 1) + 4 * Weight(!FormatBit(d, 12), 1) + 2 * Weight(FormatBit(d, 11), 1) + Weight(!FormatBit(d, 10), 1)
  }

  function MiddleFive(d: Five): nat {
    16 * Weight(FormatBit(d, 9), 1) + 8 * Weight(FormatBit(d, 8), 1) + 4 * Weight(FormatBit(d, 7), 1) + 2 * Weight(FormatBit(d, 6), 1) + Weight(FormatBit(d, 5), 1)
  }

  function LowFive(d: Five): nat {
    16 * Weight(!FormatBit(d, 4), 1) + 8 * Weight(FormatBit(d, 3), 1) + 4 * Weight(FormatBit(d, 2), 1) + 2 * Weight(!FormatBit(d, 1), 1) + Weight(FormatBit(d, 0), 1)
  }

  function FormatNum(d: Five): nat {
    1024 * HighFive(d) + 32 * MiddleFive(d) + LowFive(d)
  }

  lemma FormatWordAt(d: Five, n: nat)
    requires n < 15
    ensures FormatWord(d)[n] == if n == 0 || n == 2 || n == 4 || n == 10 || n == 13 then !FormatBit(d, 14 - n) else FormatBit(d, 14 - n)
  {
    hide FormatBit;
  }

  lemma HighNumber(d: Five)
    ensures PrefixNum(FormatWord(d), 5) == 32 * PrefixNum(FormatWord(d), 0) + HighFive(d)
  {
    hide FormatBit, PrefixNum, FormatWord, Weight;
    PrefixNumFive(FormatWord(d), 0);
    FormatWordAt(d, 0);
    FormatWordAt(d, 1);
    FormatWordAt(d, 2);
    FormatWordAt(d, 3);
    FormatWordAt(d, 4);
  }

  lemma MiddleNumber(d: Five)
    ensures PrefixNum(FormatWord(d), 10) == 32 * PrefixNum(FormatWord(d), 5) + MiddleFive(d)
  {
    hide FormatBit, PrefixNum, FormatWord, Weight;
    PrefixNumFive(FormatWord(d), 5);
    FormatWordAt(d, 5);
    FormatWordAt(d, 6);
    FormatWordAt(d, 7);
    FormatWordAt(d, 8);
    FormatWordAt(d, 9);
  }

  lemma LowNumber(d: Five)
    ensures PrefixNum(FormatWord(d), 15) == 32 * PrefixNum(FormatWord(d), 10) + LowFive(d)
  {
    hide FormatBit, PrefixNum, FormatWord, Weight;
    PrefixNumFive(FormatWord(d), 10);
    FormatWordAt(d, 10);
    FormatWordAt(d, 11);
    FormatWordAt(d, 12);
    FormatWordAt(d, 13);
    FormatWordAt(d, 14);
  }

  lemma FormatNumber(d: Five)
    ensures BitsNum(FormatWord(d)) == FormatNum(d)
  {
    hide BitsNum, PrefixNum, FormatWord, HighFive, MiddleFive, LowFive;
    PrefixNumEnds(FormatWord(d));
    HighNumber(d);
    MiddleNumber(d);
    LowNumber(d);
  }

  lemma Formats1(k: nat)
    requires 0 <= k < 8
    ensures FormatNum(FiveOf(k)) == FormatTable(k)
  {
  }

  lemma Formats2(k: nat)
    requires 8 <= k < 16
    ensures FormatNum(FiveOf(k)) == FormatTable(k)
  {
  }

  lemma Formats3(k: nat)
    requires 16 <= k < 24
    ensures FormatNum(FiveOf(k)) == FormatTable(k)
  {
  }

  lemma Formats4(k: nat)
    requires 24 <= k < 32
    ensures FormatNum(FiveOf(k)) == FormatTable(k)
  {
  }

  /** The list holds the words of the code, in order. */
  lemma FormatTableRight(k: nat)
    requires k < 32
    ensures BitsNum(FormatWord(FiveOf(k))) == FormatTable(k)
  {
    hide FormatTable, FormatWord, BitsNum, FormatNum, FiveOf;
    FormatNumber(FiveOf(k));
    if k < 8 {
      Formats1(k);
    } else if k < 16 {
      Formats2(k);
    } else if k < 24 {
      Formats3(k);
    } else {
      Formats4(k);
    }
  }

  // ---- Its least distance

  function Difference(d: Five, e: Five): Five {
    Five(d.b0 != e.b0, d.b1 != e.b1, d.b2 != e.b2, d.b3 != e.b3, d.b4 != e.b4)
  }

  lemma FormatLinear(d: Five, e: Five, i: nat)
    requires i < 15
    ensures (FormatBit(d, i) != FormatBit(e, i)) == FormatBit(Difference(d, e), i)
  {
  }

  /** The number of bits set in a word of the code. */
  function FormatWeight(d: Five): nat {
    Weight(FormatBit(d, 0), 1) + Weight(FormatBit(d, 1), 1) + Weight(FormatBit(d, 2), 1) + Weight(FormatBit(d, 3), 1) + Weight(FormatBit(d, 4), 1)
    + Weight(FormatBit(d, 5), 1) + Weight(FormatBit(d, 6), 1) + Weight(FormatBit(d, 7), 1) + Weight(FormatBit(d, 8), 1) + Weight(FormatBit(d, 9), 1)
    + Weight(FormatBit(d, 10), 1) + Weight(FormatBit(d, 11), 1) + Weight(FormatBit(d, 12), 1) + Weight(FormatBit(d, 13), 1) + Weight(FormatBit(d, 14), 1)
  }

  /** Every word of the code but zero has at least seven bits set. */
  lemma FormatWeights(d: Five)
    requires d != Five(false, false, false, false, false)
    ensures FormatWeight(d) >= 7
  {
  }

  /** Two different words of the code differ in at least seven places. */
  lemma FormatDistance(d: Five, e: Five)
    requires d != e
    ensures Hamming(FormatWord(d), FormatWord(e)) >= 7
  {
    hide Hamming, PrefixHamming, FormatBit, Weight, TypeInfoMask, FormatWord, Difference;
    var a, b, f := FormatWord(d), FormatWord(e), Difference(d, e);
    PrefixHammingEnds(a, b);
    FormatPlaces(d, e, 0);
    FormatPlaces(d, e, 5);
    FormatPlaces(d, e, 10);
    DifferenceNone(d, e);
    FormatWeights(f);
  }

  lemma DifferenceNone(d: Five, e: Five)
    ensures Difference(d, e) == Five(false, false, false, false, false) <==> d == e
  {
  }

  /** One place adds one bit of the difference. */
  lemma FormatPlace(d: Five, e: Five, n: nat)
    requires n < 15
    ensures PrefixHamming(FormatWord(d), FormatWord(e), n + 1)
            == PrefixHamming(FormatWord(d), FormatWord(e), n) + Weight(FormatBit(Difference(d, e), 14 - n), 1)
  {
    hide FormatBit, PrefixHamming, TypeInfoMask;
    PrefixHammingStep(FormatWord(d), FormatWord(e), n);
    FormatLinear(d, e, 14 - n);
  }

  lemma FormatPlaces(d: Five, e: Five, n: nat)
    requires n <= 10
    ensures var f := Difference(d, e);
            PrefixHamming(FormatWord(d), FormatWord(e), n + 5)
            == PrefixHamming(FormatWord(d), FormatWord(e), n)
               + Weight(FormatBit(f, 14 - n), 1) + Weight(FormatBit(f, 13 - n), 1) + Weight(FormatBit(f, 12 - n), 1)
               + Weight(FormatBit(f, 11 - n), 1) + Weight(FormatBit(f, 10 - n), 1)
  {
    hide FormatBit, PrefixHamming, FormatWord, Difference, Weight;
    FormatPlace(d, e, n);
    FormatPlace(d, e, n + 1);
    FormatPlace(d, e, n + 2);
    FormatPlace(d, e, n + 3);
    FormatPlace(d, e, n + 4);
  }
}
