/** The version information: the version number spread over 18 bits (section 7.10 of ISO/IEC
    18004:2015). */
module VersionInformation {
  import opened BchCodes
  import opened BitStrings
  import opened Words

  /** The generator 7973. */
  function VersionInfoPoly(): Word {
    seq(32, i => i == 0 || i == 2 || i == 5 || i == 8 || i == 9 || i == 10 || i == 11 || i == 12)
  }

  datatype Six = Six(b0: bool, b1: bool, b2: bool, b3: bool, b4: bool, b5: bool)

  /** The bits of a number below 64. */
  function SixOf(v: nat): Six {
    Six(v % 2 == 1, v / 2 % 2 == 1, v / 4 % 2 == 1, v / 8 % 2 == 1, v / 16 % 2 == 1, v / 32 % 2 == 1)
  }

  function SixWord(d: Six): Word {
    seq(32, i => if i == 0 then d.b0 else if i == 1 then d.b1 else if i == 2 then d.b2 else if i == 3 then d.b3
                 else if i == 4 then d.b4 else if i == 5 then d.b5 else false)
  }

  /** Whether data bit j counts in bit i of the code. */
  predicate Row(j: nat, i: nat) {
    match j
    case 0 => i == 0 || i == 2 || i == 5 || i == 8 || i == 9 || i == 10 || i == 11 || i == 12
    case 1 => i == 0 || i == 1 || i == 2 || i == 3 || i == 5 || i == 6 || i == 8 || i == 13
    case 2 => i == 1 || i == 2 || i == 3 || i == 4 || i == 6 || i == 7 || i == 9 || i == 14
    case 3 => i == 2 || i == 3 || i == 4 || i == 5 || i == 7 || i == 8 || i == 10 || i == 15
    case 4 => i == 3 || i == 4 || i == 5 || i == 6 || i == 8 || i == 9 || i == 11 || i == 16
    case _ => i == 0 || i == 2 || i == 4 || i == 6 || i == 7 || i == 8 || i == 11 || i == 17
  }

  function LowerSum(d: Six, i: nat): bool {
    ((d.b0 && Row(0, i)) != (d.b1 && Row(1, i))) != (d.b2 && Row(2, i))
  }

  function UpperSum(d: Six, i: nat): bool {
    ((d.b3 && Row(3, i)) != (d.b4 && Row(4, i))) != (d.b5 && Row(5, i))
  }

  /** The bits of the code, lowest first. */
  function VersionBit(d: Six, i: nat): bool {
    LowerSum(d, i) != UpperSum(d, i)
  }

  /** The word of the data d, highest bit first. */
  function VersionWord(d: Six): (w: seq<bool>)
    ensures |w| == 18
  {
    seq(18, i requires 0 <= i < 18 => VersionBit(d, 17 - i))
  }

  lemma VersionInfoPolyDegree()
    ensures FindMsbSet(VersionInfoPoly()) == 13
  {
    MsbIs(VersionInfoPoly(), 13);
  }

  /** The check bits of the data d. */
  function VersionCheckBits(d: Six): Word {
    VersionInfoPolyDegree();
    Remainder(ShiftLeft(SixWord(d), 12), VersionInfoPoly())
  }

  /** The word after the first k of the 6 places. */
  function VersionStep(d: Six, k: nat): Word
    requires k <= 6
  {
    if k == 0 then ShiftLeft(SixWord(d), 12) else
    VersionInfoPolyDegree();
    Reduce(VersionStep(d, k - 1), VersionInfoPoly(), 18 - k)
  }

  lemma VersionStepAt(d: Six, k: nat, i: nat)
    requires 1 <= k <= 6 && i < 32
    ensures VersionStep(d, k)[i]
            == (VersionStep(d, k - 1)[i] != (VersionStep(d, k - 1)[18 - k] && i >= 6 - k && VersionInfoPoly()[i - (6 - k)]))
  {
    hide VersionInfoPoly;
    VersionInfoPolyDegree();
    ReduceAt(VersionStep(d, k - 1), VersionInfoPoly(), 18 - k, i);
  }

  /** Which of the places are taken off. */
  lemma VersionPivots(d: Six)
    ensures VersionStep(d, 0)[17] == d.b5
    ensures VersionStep(d, 1)[16] == (d.b4 != d.b5)
    ensures VersionStep(d, 2)[15] == (d.b3 != d.b4)
    ensures VersionStep(d, 3)[14] == (d.b2 != d.b3)
    ensures VersionStep(d, 4)[13] == (d.b1 != d.b2)
    ensures VersionStep(d, 5)[12] == ((d.b0 != d.b1) != d.b5)
  {
    hide Reduce, VersionStep;
    VersionStart(d);
    VersionStepAt(d, 1, 16);
    VersionStepAt(d, 1, 15);
    VersionStepAt(d, 1, 14);
    VersionStepAt(d, 1, 13);
    VersionStepAt(d, 1, 12);
    VersionStepAt(d, 2, 15);
    VersionStepAt(d, 2, 14);
    VersionStepAt(d, 2, 13);
    VersionStepAt(d, 2, 12);
    VersionStepAt(d, 3, 14);
    VersionStepAt(d, 3, 13);
    VersionStepAt(d, 3, 12);
    VersionStepAt(d, 4, 13);
    VersionStepAt(d, 4, 12);
    VersionStepAt(d, 5, 12);
  }

  lemma VersionStart(d: Six)
    ensures VersionStep(d, 0) == ShiftLeft(SixWord(d), 12)
  {
  }

  /** The division ends with the last place. */
  lemma VersionDivided(d: Six)
    ensures VersionCheckBits(d) == VersionStep(d, 6)
  {
    hide Remainder, Reduce, VersionInfoPoly, FindMsbSet, VersionStep;
    VersionStart(d);
    VersionInfoPolyDegree();
    VersionUnfold(d, 1);
    ReduceKeeps(VersionStep(d, 0), VersionInfoPoly(), 17);
    VersionUnfold(d, 2);
    ReduceKeeps(VersionStep(d, 1), VersionInfoPoly(), 16);
    VersionUnfold(d, 3);
    ReduceKeeps(VersionStep(d, 2), VersionInfoPoly(), 15);
    VersionUnfold(d, 4);
    ReduceKeeps(VersionStep(d, 3), VersionInfoPoly(), 14);
    VersionUnfold(d, 5);
    ReduceKeeps(VersionStep(d, 4), VersionInfoPoly(), 13);
    VersionUnfold(d, 6);
    ReduceKeeps(VersionStep(d, 5), VersionInfoPoly(), 12);
    MsbAtMost(VersionStep(d, 6), 12);
    RemainderSmall(VersionStep(d, 6), VersionInfoPoly());
  }

  lemma VersionUnfold(d: Six, k: nat)
    requires 1 <= k <= 6
    ensures FindMsbSet(VersionInfoPoly()) == 13
    ensures VersionStep(d, k) == Reduce(VersionStep(d, k - 1), VersionInfoPoly(), 18 - k)
  {
    VersionInfoPolyDegree();
  }

  /** The check bits come out as the code says. */
  lemma VersionCheckBit(d: Six, i: nat)
    requires i < 12
    ensures VersionCheckBits(d)[i] == VersionBit(d, i)
  {
    hide Reduce, VersionStep, VersionCheckBits;
    VersionDivided(d);
    VersionStart(d);
    VersionPivots(d);
    VersionStepAt(d, 1, i);
    VersionStepAt(d, 2, i);
    VersionStepAt(d, 3, i);
    VersionStepAt(d, 4, i);
    VersionStepAt(d, 5, i);
    VersionStepAt(d, 6, i);
  }

  /** What the writer appends: the version and its check bits. */
  function MakeVersionInfoBits(d: Six): (w: seq<bool>)
    ensures |w| == 18
  {
    Appended(SixWord(d), 6) + Appended(VersionCheckBits(d), 12)
  }

  method ComputeVersionInfoBits(d: Six) returns (w: seq<bool>)
    ensures w == MakeVersionInfoBits(d)
  {
    hide SixWord, VersionCheckBits, VersionInfoPoly, Remainder;
    VersionInfoPolyDegree();
    var check := CalculateBchCode(SixWord(d), VersionInfoPoly());
    CheckBitsAre(d);
    w := Appended(SixWord(d), 6) + Appended(check, 12);
  }

  lemma CheckBitsAre(d: Six)
    ensures FindMsbSet(VersionInfoPoly()) == 13
    ensures VersionCheckBits(d) == Remainder(ShiftLeft(SixWord(d), 12), VersionInfoPoly())
  {
    VersionInfoPolyDegree();
  }

  /** The writer's word is the code word. */
  lemma VersionComputed(d: Six)
    ensures MakeVersionInfoBits(d) == VersionWord(d)
  {
    hide VersionCheckBits;
    forall i | 0 <= i < 18 ensures MakeVersionInfoBits(d)[i] == VersionWord(d)[i] {
      VersionAt(d, i);
      if i >= 6 {
        VersionCheckBit(d, 17 - i);
      }
    }
  }

  lemma VersionAt(d: Six, i: nat)
    requires i < 18
    ensures MakeVersionInfoBits(d)[i] == if i < 6 then SixWord(d)[5 - i] else VersionCheckBits(d)[17 - i]
  {
    hide VersionCheckBits, SixWord;
    var x, y := Appended(SixWord(d), 6), Appended(VersionCheckBits(d), 12);
    assert (x + y)[i] == if i < 6 then x[i] else y[i - 6];
  }

  // ---- The words as numbers

  /** The reader's list of words, from version 7 on. */
  function VersionTable(k: nat): nat
    requires k < 34
  {
    match k
    case 0 => 31892
    case 1 => 34236
    case 2 => 39577
    case 3 => 42195
    case 4 => 48118
    case 5 => 51042
    case 6 => 55367
    case 7 => 58893
    case 8 => 63784
    case 9 => 68472
    case 10 => 70749
    case 11 => 76311
    case 12 => 79154
    case 13 => 84390
    case 14 => 87683
    case 15 => 92361
    case 16 => 96236
    case 17 => 102084
    case 18 => 102881
    case 19 => 110507
    case 20 => 110734
    case 21 => 117786
    case 22 => 119615
    case 23 => 126325
    case 24 => 127568
    case 25 => 133589
    case 26 => 136944
    case 27 => 141498
    case 28 => 145311
    case 29 => 150283
    case 30 => 152622
    case 31 => 158308
    case 32 => 161089
    case _ => 167017
  }

  lemma PrefixNumSix(b: seq<bool>, n: nat)
    requires n + 6 <= |b|
    ensures PrefixNum(b, n + 6)
            == 64 * PrefixNum(b, n) + 32 * Weight(b[n], 1) + 16 * Weight(b[n + 1], 1) + 8 * Weight(b[n + 2], 1)
               + 4 * Weight(b[n + 3], 1) + 2 * Weight(b[n + 4], 1) + Weight(b[n + 5], 1)
  {
    hide PrefixNum, Weight;
    PrefixNumFive(b, n);
    PrefixNumStep(b, n + 5);
  }

  function HighSix(d: Six): nat {
    32 * Weight(VersionBit(d, 17), 1) + 16 * Weight(VersionBit(d, 16), 1) + 8 * Weight(VersionBit(d, 15), 1) + 4 * Weight(VersionBit(d, 14), 1) + 2 * Weight(VersionBit(d, 13), 1) + Weight(VersionBit(d, 12), 1)
  }

  function MiddleSix(d: Six): nat {
    32 * Weight(VersionBit(d, 11), 1) + 16 * Weight(VersionBit(d, 10), 1) + 8 * Weight(VersionBit(d, 9), 1) + 4 * Weight(VersionBit(d, 8), 1) + 2 * Weight(VersionBit(d, 7), 1) + Weight(VersionBit(d, 6), 1)
  }

  function LowSix(d: Six): nat {
    32 * Weight(VersionBit(d, 5), 1) + 16 * Weight(VersionBit(d, 4), 1) + 8 * Weight(VersionBit(d, 3), 1) + 4 * Weight(VersionBit(d, 2), 1) + 2 * Weight(VersionBit(d, 1), 1) + Weight(VersionBit(d, 0), 1)
  }

  function VersionNum(d: Six): nat {
    4096 * HighSix(d) + 64 * MiddleSix(d) + LowSix(d)
  }

  lemma VersionWordAt(d: Six, n: nat)
    requires n < 18
    ensures VersionWord(d)[n] == VersionBit(d, 17 - n)
  {
    hide VersionBit;
  }

  lemma HighNumber(d: Six)
    ensures PrefixNum(VersionWord(d), 6) == 64 * PrefixNum(VersionWord(d), 0) + HighSix(d)
  {
    hide VersionBit, PrefixNum, VersionWord, Weight;
    PrefixNumSix(VersionWord(d), 0);
    VersionWordAt(d, 0);
    VersionWordAt(d, 1);
    VersionWordAt(d, 2);
    VersionWordAt(d, 3);
    VersionWordAt(d, 4);
    VersionWordAt(d, 5);
  }

  lemma MiddleNumber(d: Six)
    ensures PrefixNum(VersionWord(d), 12) == 64 * PrefixNum(VersionWord(d), 6) + MiddleSix(d)
  {
    hide VersionBit, PrefixNum, VersionWord, Weight;
    PrefixNumSix(VersionWord(d), 6);
    VersionWordAt(d, 6);
    VersionWordAt(d, 7);
    VersionWordAt(d, 8);
    VersionWordAt(d, 9);
    VersionWordAt(d, 10);
    VersionWordAt(d, 11);
  }

  lemma LowNumber(d: Six)
    ensures PrefixNum(VersionWord(d), 18) == 64 * PrefixNum(VersionWord(d), 12) + LowSix(d)
  {
    hide VersionBit, PrefixNum, VersionWord, Weight;
    PrefixNumSix(VersionWord(d), 12);
    VersionWordAt(d, 12);
    VersionWordAt(d, 13);
    VersionWordAt(d, 14);
    VersionWordAt(d, 15);
    VersionWordAt(d, 16);
    VersionWordAt(d, 17);
  }

  lemma VersionNumber(d: Six)
    ensures BitsNum(VersionWord(d)) == VersionNum(d)
  {
    hide BitsNum, PrefixNum, VersionWord, HighSix, MiddleSix, LowSix;
    PrefixNumEnds(VersionWord(d));
    HighNumber(d);
    MiddleNumber(d);
    LowNumber(d);
  }

  lemma Versions1(k: nat)
    requires 0 <= k < 7
    ensures VersionNum(SixOf(k + 7)) == VersionTable(k)
  {
  }

  lemma Versions2(k: nat)
    requires 7 <= k < 14
    ensures VersionNum(SixOf(k + 7)) == VersionTable(k)
  {
  }

  lemma Versions3(k: nat)
    requires 14 <= k < 21
    ensures VersionNum(SixOf(k + 7)) == VersionTable(k)
  {
  }

  lemma Versions4(k: nat)
    requires 21 <= k < 28
    ensures VersionNum(SixOf(k + 7)) == VersionTable(k)
  {
  }

  lemma Versions5(k: nat)
    requires 28 <= k < 34
    ensures VersionNum(SixOf(k + 7)) == VersionTable(k)
  {
  }

  /** The list holds the words of versions 7 to 40. */
  lemma VersionTableRight(k: nat)
    requires k < 34
    ensures BitsNum(VersionWord(SixOf(k + 7))) == VersionTable(k)
  {
    hide VersionTable, VersionWord, BitsNum, VersionNum, SixOf;
    VersionNumber(SixOf(k + 7));
    if k < 7 {
      Versions1(k);
    } else if k < 14 {
      Versions2(k);
    } else if k < 21 {
      Versions3(k);
    } else if k < 28 {
      Versions4(k);
    } else {
      Versions5(k);
    }
  }

  // ---- Its least distance

  predicate IsDifference(d: Six, e: Six, f: Six) {
    && f.b0 == (d.b0 != e.b0) && f.b1 == (d.b1 != e.b1) && f.b2 == (d.b2 != e.b2)
    && f.b3 == (d.b3 != e.b3) && f.b4 == (d.b4 != e.b4) && f.b5 == (d.b5 != e.b5)
  }

  /** The number of bits set in a word of the code. */
  function VersionWeight(d: Six): nat {
    Weight(VersionBit(d, 0), 1) + Weight(VersionBit(d, 1), 1) + Weight(VersionBit(d, 2), 1) + Weight(VersionBit(d, 3), 1) + Weight(VersionBit(d, 4), 1) + Weight(VersionBit(d, 5), 1)
    + Weight(VersionBit(d, 6), 1) + Weight(VersionBit(d, 7), 1) + Weight(VersionBit(d, 8), 1) + Weight(VersionBit(d, 9), 1) + Weight(VersionBit(d, 10), 1) + Weight(VersionBit(d, 11), 1)
    + Weight(VersionBit(d, 12), 1) + Weight(VersionBit(d, 13), 1) + Weight(VersionBit(d, 14), 1) + Weight(VersionBit(d, 15), 1) + Weight(VersionBit(d, 16), 1) + Weight(VersionBit(d, 17), 1)
  }

  /** Every word of the code but zero has at least eight bits set. */
  lemma VersionWeights(d: Six)
    requires d != Six(false, false, false, false, false, false)
    ensures VersionWeight(d) >= 8
  {
    hide VersionWeight;
    if d.b5 && d.b4 {
      WeightsBoth(d);
    } else if d.b5 {
      WeightsFive(d);
    } else if d.b4 {
      WeightsFour(d);
    } else {
      WeightsNeither(d);
    }
  }

  lemma WeightsBoth(d: Six)
    requires d.b5 && d.b4
    ensures VersionWeight(d) >= 8
  {
  }

  lemma WeightsFive(d: Six)
    requires d.b5 && !d.b4
    ensures VersionWeight(d) >= 8
  {
  }

  lemma WeightsFour(d: Six)
    requires !d.b5 && d.b4
    ensures VersionWeight(d) >= 8
  {
  }

  lemma WeightsNeither(d: Six)
    requires !d.b5 && !d.b4 && d != Six(false, false, false, false, false, false)
    ensures VersionWeight(d) >= 8
  {
  }

  lemma VersionPlace(d: Six, e: Six, n: nat)
    requires n < 18
    ensures PrefixHamming(VersionWord(d), VersionWord(e), n + 1)
            == PrefixHamming(VersionWord(d), VersionWord(e), n) + Weight(VersionBit(d, 17 - n) != VersionBit(e, 17 - n), 1)
  {
    hide VersionBit, PrefixHamming;
    PrefixHammingStep(VersionWord(d), VersionWord(e), n);
  }

  lemma LowerLinear(d: Six, e: Six, f: Six, i: nat)
    requires IsDifference(d, e, f)
    ensures (LowerSum(d, i) != LowerSum(e, i)) == LowerSum(f, i)
  {
    hide Row;
  }

  lemma UpperLinear(d: Six, e: Six, f: Six, i: nat)
    requires IsDifference(d, e, f)
    ensures (UpperSum(d, i) != UpperSum(e, i)) == UpperSum(f, i)
  {
    hide Row;
  }

  lemma VersionLinear(d: Six, e: Six, f: Six, i: nat)
    requires IsDifference(d, e, f)
    ensures (VersionBit(d, i) != VersionBit(e, i)) == VersionBit(f, i)
  {
    hide LowerSum, UpperSum, IsDifference;
    LowerLinear(d, e, f, i);
    UpperLinear(d, e, f, i);
  }

  lemma HighPlaces(d: Six, e: Six, f: Six)
    requires IsDifference(d, e, f)
    ensures PrefixHamming(VersionWord(d), VersionWord(e), 6)
            == PrefixHamming(VersionWord(d), VersionWord(e), 0)
               + Weight(VersionBit(f, 17), 1) + Weight(VersionBit(f, 16), 1) + Weight(VersionBit(f, 15), 1)
               + Weight(VersionBit(f, 14), 1) + Weight(VersionBit(f, 13), 1) + Weight(VersionBit(f, 12), 1)
  {
    hide VersionBit, PrefixHamming, VersionWord, IsDifference;
    VersionLinear(d, e, f, 17);
    VersionLinear(d, e, f, 16);
    VersionLinear(d, e, f, 15);
    VersionLinear(d, e, f, 14);
    VersionLinear(d, e, f, 13);
    VersionLinear(d, e, f, 12);
    VersionPlace(d, e, 0);
    VersionPlace(d, e, 1);
    VersionPlace(d, e, 2);
    VersionPlace(d, e, 3);
    VersionPlace(d, e, 4);
    VersionPlace(d, e, 5);
  }

  lemma MiddlePlaces(d: Six, e: Six, f: Six)
    requires IsDifference(d, e, f)
    ensures PrefixHamming(VersionWord(d), VersionWord(e), 12)
            == PrefixHamming(VersionWord(d), VersionWord(e), 6)
               + Weight(VersionBit(f, 11), 1) + Weight(VersionBit(f, 10), 1) + Weight(VersionBit(f, 9), 1)
               + Weight(VersionBit(f, 8), 1) + Weight(VersionBit(f, 7), 1) + Weight(VersionBit(f, 6), 1)
  {
    hide VersionBit, PrefixHamming, VersionWord, IsDifference;
    VersionLinear(d, e, f, 11);
    VersionLinear(d, e, f, 10);
    VersionLinear(d, e, f, 9);
    VersionLinear(d, e, f, 8);
    VersionLinear(d, e, f, 7);
    VersionLinear(d, e, f, 6);
    VersionPlace(d, e, 6);
    VersionPlace(d, e, 7);
    VersionPlace(d, e, 8);
    VersionPlace(d, e, 9);
    VersionPlace(d, e, 10);
    VersionPlace(d, e, 11);
  }

  lemma LowPlaces(d: Six, e: Six, f: Six)
    requires IsDifference(d, e, f)
    ensures PrefixHamming(VersionWord(d), VersionWord(e), 18)
            == PrefixHamming(VersionWord(d), VersionWord(e), 12)
               + Weight(VersionBit(f, 5), 1) + Weight(VersionBit(f, 4), 1) + Weight(VersionBit(f, 3), 1)
               + Weight(VersionBit(f, 2), 1) + Weight(VersionBit(f, 1), 1) + Weight(VersionBit(f, 0), 1)
  {
    hide VersionBit, PrefixHamming, VersionWord, IsDifference;
    VersionLinear(d, e, f, 5);
    VersionLinear(d, e, f, 4);
    VersionLinear(d, e, f, 3);
    VersionLinear(d, e, f, 2);
    VersionLinear(d, e, f, 1);
    VersionLinear(d, e, f, 0);
    VersionPlace(d, e, 12);
    VersionPlace(d, e, 13);
    VersionPlace(d, e, 14);
    VersionPlace(d, e, 15);
    VersionPlace(d, e, 16);
    VersionPlace(d, e, 17);
  }

  /** Two different words of the code differ in at least eight places. */
  lemma VersionDistance(d: Six, e: Six)
    requires d != e
    ensures Hamming(VersionWord(d), VersionWord(e)) >= 8
  {
    hide Hamming, PrefixHamming, VersionBit, Weight, VersionWord;
    var f := Six(d.b0 != e.b0, d.b1 != e.b1, d.b2 != e.b2, d.b3 != e.b3, d.b4 != e.b4, d.b5 != e.b5);
    PrefixHammingEnds(VersionWord(d), VersionWord(e));
    HighPlaces(d, e, f);
    MiddlePlaces(d, e, f);
    LowPlaces(d, e, f);
    VersionWeights(f);
  }
}
