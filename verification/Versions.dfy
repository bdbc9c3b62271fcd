/** The versions of a QR symbol: sizes, capacities and blocks (ISO/IEC 18004:2015, tables 1
    and 9), and the writer's choice of a version. */
module Versions {
  import opened Options
  import opened Segments
  import BitStrings

  datatype Level = L | M | Q | H

  /** Check symbols per block, and one or two groups of blocks: how many, and how many data
      bytes each. */
  datatype Groups = G(ec: nat, c1: nat, d1: nat, c2: nat, d2: nat)

  datatype Row = Row(l: Groups, m: Groups, q: Groups, h: Groups)

  predicate IsVersion(v: int) {
    1 <= v <= 40
  }

  function Table(v: int): Row
    requires IsVersion(v)
  {
    match v
    case 1 => Row(G(7, 1, 19, 0, 0), G(10, 1, 16, 0, 0), G(13, 1, 13, 0, 0), G(17, 1, 9, 0, 0))
    case 2 => Row(G(10, 1, 34, 0, 0), G(16, 1, 28, 0, 0), G(22, 1, 22, 0, 0), G(28, 1, 16, 0, 0))
    case 3 => Row(G(15, 1, 55, 0, 0), G(26, 1, 44, 0, 0), G(18, 2, 17, 0, 0), G(22, 2, 13, 0, 0))
    case 4 => Row(G(20, 1, 80, 0, 0), G(18, 2, 32, 0, 0), G(26, 2, 24, 0, 0), G(16, 4, 9, 0, 0))
    case 5 => Row(G(26, 1, 108, 0, 0), G(24, 2, 43, 0, 0), G(18, 2, 15, 2, 16), G(22, 2, 11, 2, 12))
    case 6 => Row(G(18, 2, 68, 0, 0), G(16, 4, 27, 0, 0), G(24, 4, 19, 0, 0), G(28, 4, 15, 0, 0))
    case 7 => Row(G(20, 2, 78, 0, 0), G(18, 4, 31, 0, 0), G(18, 2, 14, 4, 15), G(26, 4, 13, 1, 14))
    case 8 => Row(G(24, 2, 97, 0, 0), G(22, 2, 38, 2, 39), G(22, 4, 18, 2, 19), G(26, 4, 14, 2, 15))
    case 9 => Row(G(30, 2, 116, 0, 0), G(22, 3, 36, 2, 37), G(20, 4, 16, 4, 17), G(24, 4, 12, 4, 13))
    case 10 => Row(G(18, 2, 68, 2, 69), G(26, 4, 43, 1, 44), G(24, 6, 19, 2, 20), G(28, 6, 15, 2, 16))
    case 11 => Row(G(20, 4, 81, 0, 0), G(30, 1, 50, 4, 51), G(28, 4, 22, 4, 23), G(24, 3, 12, 8, 13))
    case 12 => Row(G(24, 2, 92, 2, 93), G(22, 6, 36, 2, 37), G(26, 4, 20, 6, 21), G(28, 7, 14, 4, 15))
    case 13 => Row(G(26, 4, 107, 0, 0), G(22, 8, 37, 1, 38), G(24, 8, 20, 4, 21), G(22, 12, 11, 4, 12))
    case 14 => Row(G(30, 3, 115, 1, 116), G(24, 4, 40, 5, 41), G(20, 11, 16, 5, 17), G(24, 11, 12, 5, 13))
    case 15 => Row(G(22, 5, 87, 1, 88), G(24, 5, 41, 5, 42), G(30, 5, 24, 7, 25), G(24, 11, 12, 7, 13))
    case 16 => Row(G(24, 5, 98, 1, 99), G(28, 7, 45, 3, 46), G(24, 15, 19, 2, 20), G(30, 3, 15, 13, 16))
    case 17 => Row(G(28, 1, 107, 5, 108), G(28, 10, 46, 1, 47), G(28, 1, 22, 15, 23), G(28, 2, 14, 17, 15))
    case 18 => Row(G(30, 5, 120, 1, 121), G(26, 9, 43, 4, 44), G(28, 17, 22, 1, 23), G(28, 2, 14, 19, 15))
    case 19 => Row(G(28, 3, 113, 4, 114), G(26, 3, 44, 11, 45), G(26, 17, 21, 4, 22), G(26, 9, 13, 16, 14))
    case 20 => Row(G(28, 3, 107, 5, 108), G(26, 3, 41, 13, 42), G(30, 15, 24, 5, 25), G(28, 15, 15, 10, 16))
    case 21 => Row(G(28, 4, 116, 4, 117), G(26, 17, 42, 0, 0), G(28, 17, 22, 6, 23), G(30, 19, 16, 6, 17))
    case 22 => Row(G(28, 2, 111, 7, 112), G(28, 17, 46, 0, 0), G(30, 7, 24, 16, 25), G(24, 34, 13, 0, 0))
    case 23 => Row(G(30, 4, 121, 5, 122), G(28, 4, 47, 14, 48), G(30, 11, 24, 14, 25), G(30, 16, 15, 14, 16))
    case 24 => Row(G(30, 6, 117, 4, 118), G(28, 6, 45, 14, 46), G(30, 11, 24, 16, 25), G(30, 30, 16, 2, 17))
    case 25 => Row(G(26, 8, 106, 4, 107), G(28, 8, 47, 13, 48), G(30, 7, 24, 22, 25), G(30, 22, 15, 13, 16))
    case 26 => Row(G(28, 10, 114, 2, 115), G(28, 19, 46, 4, 47), G(28, 28, 22, 6, 23), G(30, 33, 16, 4, 17))
    case 27 => Row(G(30, 8, 122, 4, 123), G(28, 22, 45, 3, 46), G(30, 8, 23, 26, 24), G(30, 12, 15, 28, 16))
    case 28 => Row(G(30, 3, 117, 10, 118), G(28, 3, 45, 23, 46), G(30, 4, 24, 31, 25), G(30, 11, 15, 31, 16))
    case 29 => Row(G(30, 7, 116, 7, 117), G(28, 21, 45, 7, 46), G(30, 1, 23, 37, 24), G(30, 19, 15, 26, 16))
    case 30 => Row(G(30, 5, 115, 10, 116), G(28, 19, 47, 10, 48), G(30, 15, 24, 25, 25), G(30, 23, 15, 25, 16))
    case 31 => Row(G(30, 13, 115, 3, 116), G(28, 2, 46, 29, 47), G(30, 42, 24, 1, 25), G(30, 23, 15, 28, 16))
    case 32 => Row(G(30, 17, 115, 0, 0), G(28, 10, 46, 23, 47), G(30, 10, 24, 35, 25), G(30, 19, 15, 35, 16))
    case 33 => Row(G(30, 17, 115, 1, 116), G(28, 14, 46, 21, 47), G(30, 29, 24, 19, 25), G(30, 11, 15, 46, 16))
    case 34 => Row(G(30, 13, 115, 6, 116), G(28, 14, 46, 23, 47), G(30, 44, 24, 7, 25), G(30, 59, 16, 1, 17))
    case 35 => Row(G(30, 12, 121, 7, 122), G(28, 12, 47, 26, 48), G(30, 39, 24, 14, 25), G(30, 22, 15, 41, 16))
    case 36 => Row(G(30, 6, 121, 14, 122), G(28, 6, 47, 34, 48), G(30, 46, 24, 10, 25), G(30, 2, 15, 64, 16))
    case 37 => Row(G(30, 17, 122, 4, 123), G(28, 29, 46, 14, 47), G(30, 49, 24, 10, 25), G(30, 24, 15, 46, 16))
    case 38 => Row(G(30, 4, 122, 18, 123), G(28, 13, 46, 32, 47), G(30, 48, 24, 14, 25), G(30, 42, 15, 32, 16))
    case 39 => Row(G(30, 20, 117, 4, 118), G(28, 40, 47, 7, 48), G(30, 43, 24, 22, 25), G(30, 10, 15, 67, 16))
    case _ => Row(G(30, 19, 118, 6, 119), G(28, 18, 47, 31, 48), G(30, 34, 24, 34, 25), G(30, 20, 15, 61, 16))
  }

  function GroupsFor(v: int, level: Level): Groups
    requires IsVersion(v)
  {
    var r := Table(v);
    match level case L => r.l case M => r.m case Q => r.q case H => r.h
  }

  function Dimension(v: int): int {
    17 + 4 * v
  }

  function GroupTotal(g: Groups): nat {
    g.c1 * (g.d1 + g.ec) + g.c2 * (g.d2 + g.ec)
  }

  /** The codewords of a version, which the program sums up from the first level alone. */
  function TotalCodewords(v: int): nat
    requires IsVersion(v)
  {
    GroupTotal(Table(v).l)
  }

  function NumBlocks(g: Groups): nat {
    g.c1 + g.c2
  }

  /** The data bytes as the writer computes them: the total less the check symbols. */
  function DataCodewords(v: int, level: Level): int
    requires IsVersion(v)
  {
    var g := GroupsFor(v, level);
    TotalCodewords(v) - g.ec * NumBlocks(g)
  }

  // ---- What the table is good for

  /** Every level fills the version exactly, the second group is one byte longer than the
      first, and no block is too long for the code. */
  predicate GroupsOk(g: Groups, total: nat) {
    && 1 <= g.c1 && 1 <= g.d1 && 7 <= g.ec <= 30
    && (g.c2 == 0 || g.d2 == g.d1 + 1)
    && g.d1 + 1 + g.ec <= 255
    && GroupTotal(g) == total
  }

  predicate RowOk(r: Row) {
    var total := GroupTotal(r.l);
    && GroupsOk(r.l, total) && GroupsOk(r.m, total) && GroupsOk(r.q, total) && GroupsOk(r.h, total)
  }

  function GroupData(g: Groups): nat {
    g.c1 * g.d1 + g.c2 * g.d2
  }

  /** Each level of s holds more data than the same level of r. */
  predicate Grows(r: Row, s: Row) {
    && GroupData(r.l) < GroupData(s.l) && GroupData(r.m) < GroupData(s.m)
    && GroupData(r.q) < GroupData(s.q) && GroupData(r.h) < GroupData(s.h)
  }

  lemma RowsOk(v: int)
    requires IsVersion(v)
    ensures RowOk(Table(v))
  {
    if v <= 5 {
      RowsOk1(v);
    } else if v <= 10 {
      RowsOk2(v);
    } else if v <= 15 {
      RowsOk3(v);
    } else if v <= 20 {
      RowsOk4(v);
    } else if v <= 25 {
      RowsOk5(v);
    } else if v <= 30 {
      RowsOk6(v);
    } else if v <= 35 {
      RowsOk7(v);
    } else {
      RowsOk8(v);
    }
  }

  lemma RowsOk1(v: int)
    requires 1 <= v <= 5
    ensures RowOk(Table(v))
  {
    match v case 1 => case 2 => case 3 => case 4 => case _ =>
  }

  lemma RowsOk2(v: int)
    requires 6 <= v <= 10
    ensures RowOk(Table(v))
  {
    match v case 6 => case 7 => case 8 => case 9 => case _ =>
  }

  lemma RowsOk3(v: int)
    requires 11 <= v <= 15
    ensures RowOk(Table(v))
  {
    match v case 11 => case 12 => case 13 => case 14 => case _ =>
  }

  lemma RowsOk4(v: int)
    requires 16 <= v <= 20
    ensures RowOk(Table(v))
  {
    match v case 16 => case 17 => case 18 => case 19 => case _ =>
  }

  lemma RowsOk5(v: int)
    requires 21 <= v <= 25
    ensures RowOk(Table(v))
  {
    match v case 21 => case 22 => case 23 => case 24 => case _ =>
  }

  lemma RowsOk6(v: int)
    requires 26 <= v <= 30
    ensures RowOk(Table(v))
  {
    match v case 26 => case 27 => case 28 => case 29 => case _ =>
  }

  lemma RowsOk7(v: int)
    requires 31 <= v <= 35
    ensures RowOk(Table(v))
  {
    match v case 31 => case 32 => case 33 => case 34 => case _ =>
  }

  lemma RowsOk8(v: int)
    requires 36 <= v <= 40
    ensures RowOk(Table(v))
  {
    match v case 36 => case 37 => case 38 => case 39 => case _ =>
  }

  lemma RowsGrow(v: int)
    requires 1 <= v < 40
    ensures Grows(Table(v), Table(v + 1))
  {
    if v <= 10 {
      RowsGrow1(v);
    } else if v <= 20 {
      RowsGrow2(v);
    } else if v <= 30 {
      RowsGrow3(v);
    } else {
      RowsGrow4(v);
    }
  }

  lemma RowsGrow1(v: int)
    requires 1 <= v <= 10
    ensures Grows(Table(v), Table(v + 1))
  {
    match v case 1 => case 2 => case 3 => case 4 => case 5 => case 6 => case 7 => case 8 => case 9 => case _ =>
  }

  lemma RowsGrow2(v: int)
    requires 11 <= v <= 20
    ensures Grows(Table(v), Table(v + 1))
  {
    match v case 11 => case 12 => case 13 => case 14 => case 15 => case 16 => case 17 => case 18 => case 19 => case _ =>
  }

  lemma RowsGrow3(v: int)
    requires 21 <= v <= 30
    ensures Grows(Table(v), Table(v + 1))
  {
    match v case 21 => case 22 => case 23 => case 24 => case 25 => case 26 => case 27 => case 28 => case 29 => case _ =>
  }

  lemma RowsGrow4(v: int)
    requires 31 <= v <= 39
    ensures Grows(Table(v), Table(v + 1))
  {
    match v case 31 => case 32 => case 33 => case 34 => case 35 => case 36 => case 37 => case 38 => case _ =>
  }

  /** The writer's count of data bytes is the table's. */
  lemma DataIsGroupData(v: int, level: Level)
    requires IsVersion(v)
    ensures var g := GroupsFor(v, level);
            DataCodewords(v, level) == GroupData(g) && GroupsOk(g, TotalCodewords(v))
  {
    hide Table, GroupTotal, GroupData;
    RowsOk(v);
    TotalSplits(GroupsFor(v, level));
  }

  lemma TotalSplits(g: Groups)
    ensures GroupTotal(g) == GroupData(g) + g.ec * NumBlocks(g)
  {
    assert g.c1 * (g.d1 + g.ec) == g.c1 * g.d1 + g.ec * g.c1;
    assert g.c2 * (g.d2 + g.ec) == g.c2 * g.d2 + g.ec * g.c2;
    assert g.ec * NumBlocks(g) == g.ec * g.c1 + g.ec * g.c2;
  }

  lemma {:induction false} DataIncreases(v: int, w: int, level: Level)
    requires IsVersion(v) && IsVersion(w) && v < w
    ensures DataCodewords(v, level) < DataCodewords(w, level)
    decreases w - v
  {
    hide Table, GroupData;
    DataIsGroupData(v, level);
    DataIsGroupData(w, level);
    DataIsGroupData(w - 1, level);
    RowsGrow(w - 1);
    if v < w - 1 {
      DataIncreases(v, w - 1, level);
    }
  }

  // ---- Choosing a version

  function BitsNeeded(mode: Mode, headerSize: nat, dataSize: nat, v: int): nat
    requires IsVersion(v)
  {
    headerSize + CountBits(mode, v) + dataSize
  }

  /** The program compares the capacity with (bits + 7) / 8 without rounding down. */
  predicate WillFit(numBits: nat, v: int, level: Level)
    requires IsVersion(v)
  {
    8 * DataCodewords(v, level) >= numBits + 7
  }

  function ChooseFrom(numBits: nat, level: Level, v: int): Option<int>
    requires 1 <= v <= 41
    decreases 41 - v
  {
    if v == 41 then None
    else if WillFit(numBits, v, level) then Some(v)
    else ChooseFrom(numBits, level, v + 1)
  }

  /** The first version that will fit; the program throws when there is none. */
  function ChooseVersion(numBits: nat, level: Level): Option<int> {
    ChooseFrom(numBits, level, 1)
  }

  /** The two passes: a provisional choice with the narrowest count field, then the choice
      with the count field of that version. */
  function RecommendVersion(level: Level, mode: Mode, headerSize: nat, dataSize: nat): Option<int> {
    match ChooseVersion(BitsNeeded(mode, headerSize, dataSize, 1), level)
    case None => None
    case Some(v) =>
      ChooseFound(BitsNeeded(mode, headerSize, dataSize, 1), level, 1);
      ChooseVersion(BitsNeeded(mode, headerSize, dataSize, v), level)
  }

  lemma {:induction false} ChooseFound(numBits: nat, level: Level, v: int)
    requires 1 <= v <= 41
    ensures match ChooseFrom(numBits, level, v)
            case Some(w) => v <= w <= 40 && WillFit(numBits, w, level)
                            && forall u :: v <= u < w ==> !WillFit(numBits, u, level)
            case None => forall u :: v <= u <= 40 ==> !WillFit(numBits, u, level)
    decreases 41 - v
  {
    hide WillFit;
    if v < 41 && !WillFit(numBits, v, level) {
      ChooseFound(numBits, level, v + 1);
    }
  }

  /** The version recommended has room for the header, its own count field and the data,
      although the width of the field was fixed before the version was. */
  lemma RecommendedFits(level: Level, mode: Mode, headerSize: nat, dataSize: nat)
    ensures match RecommendVersion(level, mode, headerSize, dataSize)
            case None => true
            case Some(v) => IsVersion(v) && BitsNeeded(mode, headerSize, dataSize, v) <= 8 * DataCodewords(v, level)
  {
    hide Table, DataCodewords;
    var n1 := BitsNeeded(mode, headerSize, dataSize, 1);
    ChooseFound(n1, level, 1);
    if ChooseVersion(n1, level).Some? {
      var v := ChooseVersion(n1, level).value;
      var n2 := BitsNeeded(mode, headerSize, dataSize, v);
      ChooseFound(n2, level, 1);
      if ChooseVersion(n2, level).Some? {
        var w := ChooseVersion(n2, level).value;
        if w < v {
          assert !WillFit(n1, w, level);
        } else if v < w {
          DataIncreases(v, w, level);
        }
      }
    }
  }

  lemma LargestIsLarger(mode: Mode, v: int, level: Level)
    requires IsVersion(v) && v < 40
    ensures 8 * DataCodewords(v, level) + CountBits(mode, 40) <= 8 * DataCodewords(40, level) + CountBits(mode, v)
  {
    hide DataCodewords;
    DataIncreases(v, 40, level);
    CountSteps(mode, v, 40);
    CountSteps(mode, 1, v);
  }

  /** What has room in any version has room in the largest. */
  lemma LargestHasRoom(level: Level, mode: Mode, headerSize: nat, dataSize: nat, v: int)
    requires IsVersion(v) && BitsNeeded(mode, headerSize, dataSize, v) <= 8 * DataCodewords(v, level)
    ensures BitsNeeded(mode, headerSize, dataSize, 40) <= 8 * DataCodewords(40, level)
  {
    hide DataCodewords;
    if v < 40 {
      LargestIsLarger(mode, v, level);
    }
  }

  /** Exactly when nothing is recommended: when the largest version has fewer than seven bits to
      spare, be it that it lacks room or not. */
  lemma NothingRecommended(level: Level, mode: Mode, headerSize: nat, dataSize: nat)
    ensures RecommendVersion(level, mode, headerSize, dataSize).None?
       <==> 8 * DataCodewords(40, level) < BitsNeeded(mode, headerSize, dataSize, 40) + 7
  {
    hide Table, DataCodewords, ChooseFrom, CountBits;
    var n1 := BitsNeeded(mode, headerSize, dataSize, 1);
    CountSteps(mode, 1, 40);
    ChooseFound(n1, level, 1);
    if ChooseVersion(n1, level).Some? {
      var v := ChooseVersion(n1, level).value;
      ChooseFound(BitsNeeded(mode, headerSize, dataSize, v), level, 1);
      CountSteps(mode, 1, v);
      CountSteps(mode, v, 40);
      if v < 40 {
        LargestIsLarger(mode, v, level);
        DataIncreases(v, 40, level);
      }
      var r := RecommendVersion(level, mode, headerSize, dataSize);
      if r.Some? && r.value < 40 {
        DataIncreases(r.value, 40, level);
      }
      assert r.None? ==> !WillFit(BitsNeeded(mode, headerSize, dataSize, v), 40, level);
    } else {
      assert !WillFit(n1, 40, level);
    }
  }

  /** Exactly when the recommendation is the first version with room: when that version has
      at least seven bits to spare. */
  lemma RecommendedIsFirst(level: Level, mode: Mode, headerSize: nat, dataSize: nat, v: int)
    requires IsVersion(v) && BitsNeeded(mode, headerSize, dataSize, v) <= 8 * DataCodewords(v, level)
    requires forall u :: 1 <= u < v ==> BitsNeeded(mode, headerSize, dataSize, u) > 8 * DataCodewords(u, level)
    ensures RecommendVersion(level, mode, headerSize, dataSize) == Some(v)
            <==> 8 * DataCodewords(v, level) >= BitsNeeded(mode, headerSize, dataSize, v) + 7
  {
    if RecommendVersion(level, mode, headerSize, dataSize).None? {
      NothingRecommended(level, mode, headerSize, dataSize);
      if v < 40 {
        LargestIsLarger(mode, v, level);
      }
    } else {
      FirstRecommended(level, mode, headerSize, dataSize, v);
    }
  }

  lemma FirstRecommended(level: Level, mode: Mode, headerSize: nat, dataSize: nat, v: int)
    requires RecommendVersion(level, mode, headerSize, dataSize).Some?
    requires IsVersion(v) && BitsNeeded(mode, headerSize, dataSize, v) <= 8 * DataCodewords(v, level)
    requires forall u :: 1 <= u < v ==> BitsNeeded(mode, headerSize, dataSize, u) > 8 * DataCodewords(u, level)
    ensures RecommendVersion(level, mode, headerSize, dataSize) == Some(v)
            <==> 8 * DataCodewords(v, level) >= BitsNeeded(mode, headerSize, dataSize, v) + 7
  {
    hide Table, DataCodewords;
    var n1 := BitsNeeded(mode, headerSize, dataSize, 1);
    ChooseFound(n1, level, 1);
    var p := ChooseVersion(n1, level).value;
    var n2 := BitsNeeded(mode, headerSize, dataSize, p);
    ChooseFound(n2, level, 1);
    var w := ChooseVersion(n2, level).value;
    RecommendedFits(level, mode, headerSize, dataSize);
    assert v <= w;
    if w < p {
      assert !WillFit(n1, w, level);
    }
    if v < p {
      assert !WillFit(n1, v, level);
    }
    CountSteps(mode, 1, v);
    CountSteps(mode, 1, p);
    if p < v {
      CountSteps(mode, p, v);
      assert n2 > 8 * DataCodewords(p, level);
      assert WillFit(n1, p, level);
    }
    if v < w {
      assert !WillFit(n2, v, level);
    } else {
      assert WillFit(n2, v, level);
    }
  }

  /** The count field only widens, and by eight bits or more only in byte mode, once. */
  lemma CountSteps(mode: Mode, u: nat, v: nat)
    requires 1 <= u <= v
    ensures CountBits(mode, 1) <= CountBits(mode, u) <= CountBits(mode, v)
    ensures CountBits(mode, u) - CountBits(mode, 1) >= 8 ==> CountBits(mode, v) == CountBits(mode, u)
    ensures CountBits(mode, v) - CountBits(mode, u) <= 8
  {
  }

  /** A text of 25 alphanumeric characters fits version 1 at level L with a bit to spare, but
      the recommendation is version 2. */
  lemma NotAlwaysFirst(s: string)
    requires ChooseMode(s) == Alphanumeric && |s| == 25
    ensures BitsNeeded(Alphanumeric, 4, |PayloadBits(s)|, 1) == 151 < 8 * DataCodewords(1, L)
    ensures RecommendVersion(L, Alphanumeric, 4, |PayloadBits(s)|) == Some(2)
  {
    hide DataCodewords, ChooseMode, AlphanumericBits;
    ModeChosen(s);
    AlphanumericLen(s);
    SmallVersions();
    assert ChooseFrom(151, L, 1) == ChooseFrom(151, L, 2) == Some(2);
  }

  lemma SmallVersions()
    ensures DataCodewords(1, L) == 19 && DataCodewords(2, L) == 34
  {
  }

  // ---- The count field is wide enough

  lemma MostData(v: int, level: Level)
    requires IsVersion(v)
    ensures DataCodewords(v, level) <= if v <= 9 then 232 else if v <= 26 then 1370 else 2956
  {
    hide DataCodewords;
    var top := if v <= 9 then 9 else if v <= 26 then 26 else 40;
    if v < top {
      DataIncreases(v, top, level);
    }
    Tops(level);
  }

  lemma Tops(level: Level)
    ensures DataCodewords(9, level) <= 232 && DataCodewords(26, level) <= 1370 && DataCodewords(40, level) <= 2956
  {
  }

  /** A text whose bits fit a version is short enough for the count field of that version. */
  lemma CountFits(s: string, v: int, level: Level)
    requires ChooseMode(s) != ByteMode && IsVersion(v)
    requires |SegmentBits(s, v)| <= 8 * DataCodewords(v, level)
    ensures |s| < BitStrings.Pow2(CountBits(ChooseMode(s), v))
  {
    hide DataCodewords, NumericBits, AlphanumericBits, ChooseMode;
    MostData(v, level);
    ModeChosen(s);
    PowersForCounts();
    if ChooseMode(s) == Numeric {
      NumericLen(s);
    } else {
      AlphanumericLen(s);
    }
  }

  lemma PowersForCounts()
    ensures BitStrings.Pow2(9) == 512 && BitStrings.Pow2(10) == 1024 && BitStrings.Pow2(11) == 2048
    ensures BitStrings.Pow2(12) == 4096 && BitStrings.Pow2(13) == 8192 && BitStrings.Pow2(14) == 16384
  {
  }
}
