/** The alignment centres of every version (ISO/IEC 18004:2015, annex E): the reader's list
    and the writer's row, which is filled up with -1. */
module AlignmentTables {
  import opened FunctionPatterns
  import opened PatternColours
  import opened Placement
  import opened Versions

  function AlignmentCentres(v: int): seq<int>
    requires IsVersion(v)
  {
    match v
    case 1 => []
    case 2 => [6, 18]
    case 3 => [6, 22]
    case 4 => [6, 26]
    case 5 => [6, 30]
    case 6 => [6, 34]
    case 7 => [6, 22, 38]
    case 8 => [6, 24, 42]
    case 9 => [6, 26, 46]
    case 10 => [6, 28, 50]
    case 11 => [6, 30, 54]
    case 12 => [6, 32, 58]
    case 13 => [6, 34, 62]
    case 14 => [6, 26, 46, 66]
    case 15 => [6, 26, 48, 70]
    case 16 => [6, 26, 50, 74]
    case 17 => [6, 30, 54, 78]
    case 18 => [6, 30, 56, 82]
    case 19 => [6, 30, 58, 86]
    case 20 => [6, 34, 62, 90]
    case 21 => [6, 28, 50, 72, 94]
    case 22 => [6, 26, 50, 74, 98]
    case 23 => [6, 30, 54, 78, 102]
    case 24 => [6, 28, 54, 80, 106]
    case 25 => [6, 32, 58, 84, 110]
    case 26 => [6, 30, 58, 86, 114]
    case 27 => [6, 34, 62, 90, 118]
    case 28 => [6, 26, 50, 74, 98, 122]
    case 29 => [6, 30, 54, 78, 102, 126]
    case 30 => [6, 26, 52, 78, 104, 130]
    case 31 => [6, 30, 56, 82, 108, 134]
    case 32 => [6, 34, 60, 86, 112, 138]
    case 33 => [6, 30, 58, 86, 114, 142]
    case 34 => [6, 34, 62, 90, 118, 146]
    case 35 => [6, 30, 54, 78, 102, 126, 150]
    case 36 => [6, 24, 50, 76, 102, 128, 154]
    case 37 => [6, 28, 54, 80, 106, 132, 158]
    case 38 => [6, 32, 58, 84, 110, 136, 162]
    case 39 => [6, 26, 54, 82, 110, 138, 166]
    case _ => [6, 30, 58, 86, 114, 142, 170]
  }

  function AdjustmentRow(v: int): seq<int>
    requires IsVersion(v)
  {
    match v
    case 1 => [-1, -1, -1, -1, -1, -1, -1]
    case 2 => [6, 18, -1, -1, -1, -1, -1]
    case 3 => [6, 22, -1, -1, -1, -1, -1]
    case 4 => [6, 26, -1, -1, -1, -1, -1]
    case 5 => [6, 30, -1, -1, -1, -1, -1]
    case 6 => [6, 34, -1, -1, -1, -1, -1]
    case 7 => [6, 22, 38, -1, -1, -1, -1]
    case 8 => [6, 24, 42, -1, -1, -1, -1]
    case 9 => [6, 26, 46, -1, -1, -1, -1]
    case 10 => [6, 28, 50, -1, -1, -1, -1]
    case 11 => [6, 30, 54, -1, -1, -1, -1]
    case 12 => [6, 32, 58, -1, -1, -1, -1]
    case 13 => [6, 34, 62, -1, -1, -1, -1]
    case 14 => [6, 26, 46, 66, -1, -1, -1]
    case 15 => [6, 26, 48, 70, -1, -1, -1]
    case 16 => [6, 26, 50, 74, -1, -1, -1]
    case 17 => [6, 30, 54, 78, -1, -1, -1]
    case 18 => [6, 30, 56, 82, -1, -1, -1]
    case 19 => [6, 30, 58, 86, -1, -1, -1]
    case 20 => [6, 34, 62, 90, -1, -1, -1]
    case 21 => [6, 28, 50, 72, 94, -1, -1]
    case 22 => [6, 26, 50, 74, 98, -1, -1]
    case 23 => [6, 30, 54, 78, 102, -1, -1]
    case 24 => [6, 28, 54, 80, 106, -1, -1]
    case 25 => [6, 32, 58, 84, 110, -1, -1]
    case 26 => [6, 30, 58, 86, 114, -1, -1]
    case 27 => [6, 34, 62, 90, 118, -1, -1]
    case 28 => [6, 26, 50, 74, 98, 122, -1]
    case 29 => [6, 30, 54, 78, 102, 126, -1]
    case 30 => [6, 26, 52, 78, 104, 130, -1]
    case 31 => [6, 30, 56, 82, 108, 134, -1]
    case 32 => [6, 34, 60, 86, 112, 138, -1]
    case 33 => [6, 30, 58, 86, 114, 142, -1]
    case 34 => [6, 34, 62, 90, 118, 146, -1]
    case 35 => [6, 30, 54, 78, 102, 126, 150]
    case 36 => [6, 24, 50, 76, 102, 128, 154]
    case 37 => [6, 28, 54, 80, 106, 132, 158]
    case 38 => [6, 32, 58, 84, 110, 136, 162]
    case 39 => [6, 26, 54, 82, 110, 138, 166]
    case _ => [6, 30, 58, 86, 114, 142, 170]
  }

  /** Column 6, the seventh-last column, and gaps of at least twelve in between. */
  predicate RowGood(s: seq<int>, dim: int) {
    && |s| <= 7 && |s| != 1
    && (s != [] ==> s[0] == 6 && s[|s| - 1] == dim - 7)
    && (|s| > 1 ==> s[0] + 12 <= s[1]) && (|s| > 2 ==> s[1] + 12 <= s[2]) && (|s| > 3 ==> s[2] + 12 <= s[3])
    && (|s| > 4 ==> s[3] + 12 <= s[4]) && (|s| > 5 ==> s[4] + 12 <= s[5]) && (|s| > 6 ==> s[5] + 12 <= s[6])
  }

  /** The writer's row goes on with -1 where the reader's list ends. */
  predicate RowFills(row: seq<int>, s: seq<int>) {
    && |row| == 7 && |s| <= 7
    && (if |s| > 0 then row[0] == s[0] else row[0] == -1) && (if |s| > 1 then row[1] == s[1] else row[1] == -1)
    && (if |s| > 2 then row[2] == s[2] else row[2] == -1) && (if |s| > 3 then row[3] == s[3] else row[3] == -1)
    && (if |s| > 4 then row[4] == s[4] else row[4] == -1) && (if |s| > 5 then row[5] == s[5] else row[5] == -1)
    && (if |s| > 6 then row[6] == s[6] else row[6] == -1)
  }

  /** From version 2 on there is a centre every so many columns. */
  function CentreCount(v: int): nat
    requires IsVersion(v)
  {
    if v == 1 then 0 else v / 7 + 2
  }

  lemma Rows1(v: int)
    requires 1 <= v <= 5
    ensures RowGood(AlignmentCentres(v), 17 + 4 * v) && RowFills(AdjustmentRow(v), AlignmentCentres(v))
    ensures |AlignmentCentres(v)| == CentreCount(v)
  {
  }

  lemma Rows2(v: int)
    requires 6 <= v <= 10
    ensures RowGood(AlignmentCentres(v), 17 + 4 * v) && RowFills(AdjustmentRow(v), AlignmentCentres(v))
    ensures |AlignmentCentres(v)| == CentreCount(v)
  {
  }

  lemma Rows3(v: int)
    requires 11 <= v <= 15
    ensures RowGood(AlignmentCentres(v), 17 + 4 * v) && RowFills(AdjustmentRow(v), AlignmentCentres(v))
    ensures |AlignmentCentres(v)| == CentreCount(v)
  {
  }

  lemma Rows4(v: int)
    requires 16 <= v <= 20
    ensures RowGood(AlignmentCentres(v), 17 + 4 * v) && RowFills(AdjustmentRow(v), AlignmentCentres(v))
    ensures |AlignmentCentres(v)| == CentreCount(v)
  {
  }

  lemma Rows5(v: int)
    requires 21 <= v <= 25
    ensures RowGood(AlignmentCentres(v), 17 + 4 * v) && RowFills(AdjustmentRow(v), AlignmentCentres(v))
    ensures |AlignmentCentres(v)| == CentreCount(v)
  {
  }

  lemma Rows6(v: int)
    requires 26 <= v <= 30
    ensures RowGood(AlignmentCentres(v), 17 + 4 * v) && RowFills(AdjustmentRow(v), AlignmentCentres(v))
    ensures |AlignmentCentres(v)| == CentreCount(v)
  {
  }

  lemma Rows7(v: int)
    requires 31 <= v <= 35
    ensures RowGood(AlignmentCentres(v), 17 + 4 * v) && RowFills(AdjustmentRow(v), AlignmentCentres(v))
    ensures |AlignmentCentres(v)| == CentreCount(v)
  {
  }

  lemma Rows8(v: int)
    requires 36 <= v <= 40
    ensures RowGood(AlignmentCentres(v), 17 + 4 * v) && RowFills(AdjustmentRow(v), AlignmentCentres(v))
    ensures |AlignmentCentres(v)| == CentreCount(v)
  {
  }

  lemma GapsAdd(s: seq<int>, dim: int)
    requires RowGood(s, dim)
    ensures GoodCentres(s, dim) && Spread(s)
  {
    forall i, j | 0 <= i < j < |s| ensures s[i] + 12 <= s[j] {
    }
  }

  /** Every row of both tables is fit for drawing and for marking. */
  lemma CentresGood(v: int)
    requires IsVersion(v)
    ensures GoodCentres(AlignmentCentres(v), Dimension(v)) && Spread(AlignmentCentres(v))
    ensures v == 1 ==> AlignmentCentres(v) == []
    ensures |AlignmentCentres(v)| == CentreCount(v)
    ensures AlignmentCentres(v) <= AdjustmentRow(v)
    ensures forall k :: |AlignmentCentres(v)| <= k < |AdjustmentRow(v)| ==> AdjustmentRow(v)[k] == -1
  {
    RowsChecked(v);
    assert v == 1 ==> |AlignmentCentres(v)| == 0;
    hide AlignmentCentres, AdjustmentRow;
    GapsAdd(AlignmentCentres(v), 17 + 4 * v);
  }

  lemma RowsChecked(v: int)
    requires IsVersion(v)
    ensures RowGood(AlignmentCentres(v), 17 + 4 * v) && RowFills(AdjustmentRow(v), AlignmentCentres(v))
    ensures |AlignmentCentres(v)| == CentreCount(v)
  {
    hide AlignmentCentres, AdjustmentRow, CentreCount;
    if v <= 5 {
      Rows1(v);
    } else if v <= 10 {
      Rows2(v);
    } else if v <= 15 {
      Rows3(v);
    } else if v <= 20 {
      Rows4(v);
    } else if v <= 25 {
      Rows5(v);
    } else if v <= 30 {
      Rows6(v);
    } else if v <= 35 {
      Rows7(v);
    } else {
      Rows8(v);
    }
  }

  lemma CentresEven(v: int)
    requires IsVersion(v)
    ensures AllEven(AlignmentCentres(v))
  {
    if v <= 13 {
      CentresEven1(v);
    } else if v <= 27 {
      CentresEven2(v);
    } else {
      CentresEven3(v);
    }
  }

  lemma CentresEven1(v: int)
    requires 1 <= v <= 13
    ensures AllEven(AlignmentCentres(v))
  {
  }

  lemma CentresEven2(v: int)
    requires 14 <= v <= 27
    ensures AllEven(AlignmentCentres(v))
  {
  }

  lemma CentresEven3(v: int)
    requires 28 <= v <= 40
    ensures AllEven(AlignmentCentres(v))
  {
  }

  /** In every version the two timing lines alternate without a break. */
  lemma TimingAlternates(g: map<Cell, int>, v: int, c: Cell)
    requires IsVersion(v) && Coloured(g, Dimension(v), AlignmentCentres(v))
    requires c in g && TimingCell(Dimension(v), c)
    ensures g[c] == if (c.x + c.y) % 2 == 0 then 1 else 0
  {
    hide AlignmentCentres, Coloured, AllEven;
    CentresGood(v);
    CentresEven(v);
    TimingUnbroken(g, Dimension(v), AlignmentCentres(v), c);
  }

  // ---- The rule behind the table

  /** The distance of the centres: the least even number that is enough for so many centres, but
      in version 32 two less. */
  function CentreStep(v: int): int
    requires 2 <= v <= 40
  {
    var gaps := CentreCount(v) - 1;
    var least := (4 * v + 4 + gaps - 1) / gaps;
    if v == 32 then 26 else least + least % 2
  }

  /** From the second centre on the gaps are equal. */
  predicate EvenlySpaced(s: seq<int>, step: int) {
    && (|s| > 2 ==> s[2] - s[1] == step) && (|s| > 3 ==> s[3] - s[2] == step) && (|s| > 4 ==> s[4] - s[3] == step)
    && (|s| > 5 ==> s[5] - s[4] == step) && (|s| > 6 ==> s[6] - s[5] == step) && |s| <= 7
  }

  lemma Spaced1(v: int)
    requires 2 <= v <= 7
    ensures EvenlySpaced(AlignmentCentres(v), CentreStep(v))
  {
  }

  lemma Spaced2(v: int)
    requires 8 <= v <= 13
    ensures EvenlySpaced(AlignmentCentres(v), CentreStep(v))
  {
  }

  lemma Spaced3(v: int)
    requires 14 <= v <= 20
    ensures EvenlySpaced(AlignmentCentres(v), CentreStep(v))
  {
  }

  lemma Spaced4(v: int)
    requires 21 <= v <= 24
    ensures EvenlySpaced(AlignmentCentres(v), CentreStep(v))
  {
  }

  lemma Spaced5(v: int)
    requires 25 <= v <= 27
    ensures EvenlySpaced(AlignmentCentres(v), CentreStep(v))
  {
  }

  lemma Spaced6(v: int)
    requires 28 <= v <= 31
    ensures EvenlySpaced(AlignmentCentres(v), CentreStep(v))
  {
  }

  lemma Spaced7(v: int)
    requires 32 <= v <= 34
    ensures EvenlySpaced(AlignmentCentres(v), CentreStep(v))
  {
  }

  lemma Spaced8(v: int)
    requires 35 <= v <= 37
    ensures EvenlySpaced(AlignmentCentres(v), CentreStep(v))
  {
  }

  lemma Spaced9(v: int)
    requires 38 <= v <= 40
    ensures EvenlySpaced(AlignmentCentres(v), CentreStep(v))
  {
  }

  /** The table follows from its rule: v / 7 + 2 centres, the first in column 6, the last in the
      seventh-last, and equal gaps but for the first. */
  lemma CentresByRule(v: int)
    requires 2 <= v <= 40
    ensures var s := AlignmentCentres(v);
            && |s| == v / 7 + 2 && s[0] == 6 && s[|s| - 1] == Dimension(v) - 7
            && forall k :: 1 <= k < |s| - 1 ==> s[k + 1] - s[k] == CentreStep(v)
  {
    hide AlignmentCentres, AdjustmentRow, CentreStep;
    RowsChecked(v);
    SpacedRow(v);
  }

  lemma SpacedRow(v: int)
    requires 2 <= v <= 40
    ensures EvenlySpaced(AlignmentCentres(v), CentreStep(v))
  {
    hide AlignmentCentres, CentreStep, EvenlySpaced;
    if v <= 7 {
      Spaced1(v);
    } else if v <= 13 {
      Spaced2(v);
    } else if v <= 20 {
      Spaced3(v);
    } else if v <= 24 {
      Spaced4(v);
    } else if v <= 27 {
      Spaced5(v);
    } else if v <= 31 {
      Spaced6(v);
    } else if v <= 34 {
      Spaced7(v);
    } else if v <= 37 {
      Spaced8(v);
    } else {
      Spaced9(v);
    }
  }
}
