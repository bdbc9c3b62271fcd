/** The whole way of a text into a QR symbol and back out of a scanned one, damage included. */
module QrRoundTrip {
  import opened AlignmentTables
  import opened BchCodes
  import opened BitMatrixParser
  import opened BitStrings
  import opened BlockCoding
  import opened Blocks
  import opened FunctionPatterns
  import opened GaloisField
  import opened InformationReading
  import opened Layout
  import opened MatrixWriting
  import opened Options
  import opened PatternWriting
  import opened Placement
  import opened PlacementRoundTrip
  import opened Segments
  import opened SymbolBuilding
  import opened Versions
  import DataCellCount
  import FormatInformation
  import VersionInformation

  // ---- Text to data bytes

  function ShapeFor(v: int, level: Level): Shape
    requires IsVersion(v)
  {
    var g := GroupsFor(v, level);
    Shape(g.c1, g.c2, g.d1, g.ec)
  }

  /** The blocks of a version hold its codewords and its data, and none is too long. */
  lemma ShapeFits(v: int, level: Level)
    requires IsVersion(v)
    ensures var s := ShapeFor(v, level);
            && s.Total() == TotalCodewords(v) && s.TotalData() == DataCodewords(v, level)
            && s.c1 >= 1 && s.d >= 1 && 7 <= s.ec <= 30 && s.d + 1 + s.ec <= 255
  {
    hide Table, GroupsFor, Rows, TotalCodewords, DataCodewords, GroupTotal, GroupData;
    DataIsGroupData(v, level);
    var g := GroupsFor(v, level);
    GroupsSum(g);
    var s := ShapeFor(v, level);
    assert s.Count() == g.c1 + g.c2;
  }

  lemma GroupsSum(g: Groups)
    requires g.c2 == 0 || g.d2 == g.d1 + 1
    ensures Rows(g.d1, g.c1 + g.c2) + g.c2 == GroupData(g)
    ensures Rows(g.d1, g.c1 + g.c2) + g.c2 + Rows(g.ec, g.c1 + g.c2) == GroupTotal(g)
  {
    hide Rows, GroupData, GroupTotal;
    RowsIsProduct(g.d1, g.c1 + g.c2);
    RowsIsProduct(g.ec, g.c1 + g.c2);
    Products(g);
  }

  lemma Products(g: Groups)
    requires g.c2 == 0 || g.d2 == g.d1 + 1
    ensures g.d1 * (g.c1 + g.c2) + g.c2 == GroupData(g)
    ensures g.d1 * (g.c1 + g.c2) + g.c2 + g.ec * (g.c1 + g.c2) == GroupTotal(g)
  {
    assert g.d1 * (g.c1 + g.c2) == g.c1 * g.d1 + g.c2 * g.d1;
    assert g.ec * (g.c1 + g.c2) == g.c1 * g.ec + g.c2 * g.ec;
    assert g.c1 * (g.d1 + g.ec) == g.c1 * g.d1 + g.c1 * g.ec;
    assert g.c2 * (g.d2 + g.ec) == g.c2 * g.d2 + g.c2 * g.ec;
    assert g.c2 > 0 ==> g.c2 * g.d2 == g.c2 * g.d1 + g.c2;
  }

  /** The version the writer takes for a text, if any. */
  function EncodedVersion(text: string, level: Level): Option<int>
    requires ChooseMode(text) != ByteMode
  {
    RecommendVersion(level, ChooseMode(text), 4, |PayloadBits(text)|)
  }

  lemma SegmentSize(text: string, v: nat)
    requires ChooseMode(text) != ByteMode && IsVersion(v)
    ensures |SegmentBits(text, v)| == BitsNeeded(ChooseMode(text), 4, |PayloadBits(text)|, v)
  {
    hide ChooseMode, PayloadBits;
  }

  /** The writer takes a text exactly when it leaves seven bits of the largest version to spare. */
  lemma RefusedExactly(text: string, level: Level)
    requires ChooseMode(text) != ByteMode
    ensures EncodedVersion(text, level).None? <==> |SegmentBits(text, 40)| + 7 > 8 * DataCodewords(40, level)
  {
    hide ChooseMode, PayloadBits, SegmentBits, DataCodewords, RecommendVersion;
    NothingRecommended(level, ChooseMode(text), 4, |PayloadBits(text)|);
    SegmentSize(text, 40);
  }

  /** Without room in the largest version there is none in any. */
  lemma RoomInLargest(text: string, level: Level, v: int)
    requires ChooseMode(text) != ByteMode && IsVersion(v) && |SegmentBits(text, v)| <= 8 * DataCodewords(v, level)
    ensures |SegmentBits(text, 40)| <= 8 * DataCodewords(40, level)
  {
    hide ChooseMode, PayloadBits, SegmentBits, DataCodewords;
    SegmentSize(text, v);
    SegmentSize(text, 40);
    LargestHasRoom(level, ChooseMode(text), 4, |PayloadBits(text)|, v);
  }

  /** 7089 digits fill version 40 at level L to the last bit, yet they are refused. */
  lemma RefusedThoughItFits(text: string)
    requires ChooseMode(text) == Numeric && |text| == 7089
    ensures |SegmentBits(text, 40)| == 8 * DataCodewords(40, L)
    ensures Terminate(SegmentBits(text, 40), DataCodewords(40, L)).Some?
    ensures EncodedVersion(text, L).None?
  {
    hide ChooseMode, SegmentBits, Terminate, EncodedVersion;
    ModeChosen(text);
    NumericLen(text);
    LargestData();
    hide DataCodewords;
    SegmentSize(text, 40);
    TerminateFills(SegmentBits(text, 40), DataCodewords(40, L));
    RefusedExactly(text, L);
  }

  lemma LargestData()
    ensures DataCodewords(40, L) == 2956
  {
  }

  /** There is such a text. */
  lemma LongestDigits()
    ensures ChooseMode(Repeat('7', 7089)) == Numeric
  {
    var s := Repeat('7', 7089);
    assert s != [] && AllDigits(s);
  }

  /** The data bytes: segment, terminator and padding. */
  function EncodedData(text: string, level: Level, v: int): seq<Byte>
    requires ChooseMode(text) != ByteMode && EncodedVersion(text, level) == Some(v)
  {
    DataFits(text, level, v);
    Group(Terminate(SegmentBits(text, v), DataCodewords(v, level)).value)
  }

  lemma DataFits(text: string, level: Level, v: int)
    requires ChooseMode(text) != ByteMode && EncodedVersion(text, level) == Some(v)
    ensures IsVersion(v) && DataCodewords(v, level) >= 0
    ensures |SegmentBits(text, v)| <= 8 * DataCodewords(v, level)
    ensures Terminate(SegmentBits(text, v), DataCodewords(v, level)).Some?
  {
    hide ChooseMode, PayloadBits, DataCodewords, SegmentBits, Terminate;
    RecommendedFits(level, ChooseMode(text), 4, |PayloadBits(text)|);
    SegmentSize(text, v);
    TerminateFills(SegmentBits(text, v), DataCodewords(v, level));
  }

  /** The data bytes fill the version and parse back to the text. */
  lemma DataRoundTrip(text: string, level: Level, v: int)
    requires ChooseMode(text) != ByteMode && EncodedVersion(text, level) == Some(v)
    ensures IsVersion(v) && |EncodedData(text, level, v)| == DataCodewords(v, level)
    ensures ParseSegments(Flatten(EncodedData(text, level, v)), v, "") == Text(text)
  {
    hide ChooseMode, DataCodewords, SegmentBits, Terminate, EncodedVersion, ParseSegments, Group;
    DataFits(text, level, v);
    CountFits(text, v, level);
    SegmentRoundTrip(text, v, DataCodewords(v, level));
    TerminateFills(SegmentBits(text, v), DataCodewords(v, level));
    FlattenGroup(Terminate(SegmentBits(text, v), DataCodewords(v, level)).value);
  }

  // ---- The symbol

  /** The codewords of a text. */
  function EncodedCodewords(F: Field, text: string, level: Level, v: int): seq<Byte>
    requires IsField(F) && ChooseMode(text) != ByteMode && EncodedVersion(text, level) == Some(v)
  {
    DataRoundTrip(text, level, v);
    ShapeFits(v, level);
    Codewords(F, EncodedData(text, level, v), ShapeFor(v, level))
  }

  /** The format word the writer draws. */
  function FormatBits(level: Level, mask: nat): (b: seq<bool>)
    ensures |b| == 15
  {
    FormatInformation.MakeTypeInfoBits(FormatInformation.FiveOf(FormatData(level, mask)))
  }

  function VersionBits(v: nat): (b: seq<bool>)
    ensures |b| == 18
  {
    VersionInformation.MakeVersionInfoBits(VersionInformation.SixOf(v))
  }

  /** The format words of mask 0 at the four levels, as table C.1 of the standard lists them. */
  lemma FormatWords()
    ensures BitsNum(FormatBits(L, 0)) == 0x77C4 && BitsNum(FormatBits(M, 0)) == 0x5412
    ensures BitsNum(FormatBits(Q, 0)) == 0x355F && BitsNum(FormatBits(H, 0)) == 0x1689
    ensures forall level: Level, mask: nat :: mask < 8 ==> FormatData(level, mask) == FormatData(level, 0) + mask
  {
    hide BitsNum, FormatInformation.MakeTypeInfoBits, FormatInformation.FormatWord, FormatInformation.FiveOf;
    forall k | k in {8, 0, 24, 16}
      ensures BitsNum(FormatInformation.MakeTypeInfoBits(FormatInformation.FiveOf(k))) == FormatInformation.FormatTable(k)
    {
      FormatInformation.FormatComputed(FormatInformation.FiveOf(k));
      FormatInformation.FormatTableRight(k);
    }
  }

  /** g is the symbol of the given codewords: the reserved cells are drawn, and the free ones
      filled along the walk under the mask. */
  ghost predicate IsSymbol(g: map<Cell, int>, v: nat, level: Level, mask: nat, cw: seq<Byte>)
    requires IsVersion(v) && mask < 8
  {
    exists g0 :: SymbolOver(g0, g, v, level, mask, cw)
  }

  ghost predicate SymbolOver(g0: map<Cell, int>, g: map<Cell, int>, v: nat, level: Level, mask: nat, cw: seq<Byte>)
    requires IsVersion(v) && mask < 8
  {
    var dim := Dimension(v);
    && Square(g0.Keys, dim)
    && Reserves(g0, c => WrittenCell(dim, AlignmentCentres(v), v > 6, c))
    && HasTypeInfo(g0, dim, FormatBits(level, mask))
    && (v > 6 ==> HasVersionInfo(g0, dim, VersionBits(v)))
    && Filled(g0, g, DataCells(FullWalk(dim), Reserved(g0)), Flatten(cw), mask)
  }

  // ---- Reading

  /** The modules the reader steps over. */
  ghost function PatternOf(v: int): map<Cell, bool>
    requires IsVersion(v)
    ensures forall c: Cell :: c in PatternOf(v) <==> 0 <= c.x < Dimension(v) && 0 <= c.y < Dimension(v)
    ensures forall c :: c in PatternOf(v) ==>
              (PatternOf(v)[c] <==> MarkedCell(Dimension(v), AlignmentCentres(v), v > 6, c))
  {
    map x: int, y: int | 0 <= x < Dimension(v) && 0 <= y < Dimension(v) ::
      Cell(x, y) := MarkedCell(Dimension(v), AlignmentCentres(v), v > 6, Cell(x, y))
  }

  ghost function UnmaskedGrid(m: map<Cell, bool>, mask: nat, dim: nat): (u: map<Cell, bool>)
    requires mask < 8
    ensures Unmasked(m, u, mask, dim, 0, dim)
  {
    map c | c in m ::
      if c.x >= 0 && c.y >= 0 && c.y < dim && c.x < dim && IsMasked(mask, c.y, c.x) then !m[c] else m[c]
  }

  lemma FreeInside(v: int, m: map<Cell, bool>)
    requires IsVersion(v) && Square(m.Keys, Dimension(v))
    ensures AllIn(DataCells(FullWalk(Dimension(v)), Marked(PatternOf(v))), m)
  {
    hide PatternOf, FullWalk;
    DataCellsOf(FullWalk(Dimension(v)), Marked(PatternOf(v)));
    WalkVisitsOnce(Dimension(v));
  }

  /** The codewords under the free modules. */
  ghost function CodewordsRead(m: map<Cell, bool>, v: int, mask: nat): seq<Byte>
    requires IsVersion(v) && mask < 8 && Square(m.Keys, Dimension(v))
  {
    FreeInside(v, UnmaskedGrid(m, mask, Dimension(v)));
    Group(ReadBits(UnmaskedGrid(m, mask, Dimension(v)), DataCells(FullWalk(Dimension(v)), Marked(PatternOf(v)))))
  }

  datatype Reading = Result(parsed: Parsed) | FormatError | ChecksumError

  lemma {:induction false} VersionSearchRange(e: nat, k: nat, best: nat, least: nat)
    requires k <= 34 && (least <= 3 ==> 7 <= best <= 40)
    ensures VersionSearch(e, k, best, least).Some? ==> 7 <= VersionSearch(e, k, best, least).value <= 40
    decreases 34 - k
  {
    hide NumBitsDiffering, VersionInformation.VersionTable;
    if k < 34 {
      var h := NumBitsDiffering(e, VersionInformation.VersionTable(k));
      if h < least {
        VersionSearchRange(e, k + 1, k + 7, h);
      } else {
        VersionSearchRange(e, k + 1, best, least);
      }
    }
  }

  /** The version read is one of the forty, and has the size of the symbol. */
  lemma VersionReadFits(dim: nat, e: nat, t: nat)
    requires dim >= 21 && dim % 4 == 1
    ensures VersionRead(dim, e, t).Some? ==>
              IsVersion(VersionRead(dim, e, t).value) && Dimension(VersionRead(dim, e, t).value) == dim
  {
    hide VersionSearch;
    VersionSearchRange(e, 0, 0, MAX_SAFE_INTEGER);
    VersionSearchRange(t, 0, 0, MAX_SAFE_INTEGER);
  }

  /** What the reader makes of the modules of a square symbol of any size. */
  ghost function ReadSymbol(F: Field, m: map<Cell, bool>, dim: nat): Reading
    requires IsField(F) && Square(m.Keys, dim)
  {
    if dim < 21 || dim % 4 != 1 then FormatError else
    InformationInside(m, dim);
    VersionReadFits(dim, BitsNum(VersionCopy1(m, dim)), BitsNum(VersionCopy2(m, dim)));
    match VersionRead(dim, BitsNum(VersionCopy1(m, dim)), BitsNum(VersionCopy2(m, dim)))
    case None => FormatError
    case Some(v) =>
      match FormatDecoded(BitsNum(FormatCopy1(m)), BitsNum(FormatCopy2(m, dim)))
      case None => FormatError
      case Some(w) =>
        var level, cw := LevelForBits(w / 8 % 4), CodewordsRead(m, v, w % 8);
        if |cw| != TotalCodewords(v) then FormatError else
        ShapeFits(v, level);
        var s := ShapeFor(v, level);
        match DataOf(F, cw, s, s.Count())
        case None => ChecksumError
        case Some(data) => Result(ParseSegments(Flatten(data), v, ""))
  }

  lemma InformationInside(m: map<Cell, bool>, dim: nat)
    requires dim >= 21 && Square(m.Keys, dim)
    ensures HasVersionCells(m, dim)
    ensures forall a :: 0 <= a < 15 ==> TypeCell1(a) in m && TypeCell2(dim, a) in m
  {
    hide Triple;
  }

  // ---- The symbol as it is printed, and its flaws when scanned

  ghost function Picture(g: map<Cell, int>): (m: map<Cell, bool>)
    ensures m.Keys == g.Keys && forall c :: c in g ==> m[c] == (g[c] == 1)
  {
    map c | c in g :: g[c] == 1
  }

  /** The data modules scanned wrong, by their number along the walk. */
  ghost function WrongModules(g: map<Cell, int>, m: map<Cell, bool>, v: int): set<nat>
    requires IsVersion(v) && Square(m.Keys, Dimension(v)) && m.Keys == g.Keys
  {
    FreeInside(v, m);
    var cells := DataCells(FullWalk(Dimension(v)), Marked(PatternOf(v)));
    set k: nat | k < |cells| && m[cells[k]] != (g[cells[k]] == 1)
  }

  /** Each copy of the format information has at most three wrong modules, and so has one copy
      of the version information. */
  ghost predicate Legible(g: map<Cell, int>, m: map<Cell, bool>, v: int)
    requires IsVersion(v) && Square(m.Keys, Dimension(v)) && m.Keys == g.Keys
  {
    var dim, p := Dimension(v), Picture(g);
    InformationInside(m, dim);
    InformationInside(p, dim);
    && Hamming(FormatCopy1(m), FormatCopy1(p)) <= 3
    && Hamming(FormatCopy2(m, dim), FormatCopy2(p, dim)) <= 3
    && (v > 6 ==> Hamming(VersionCopy1(m, dim), VersionCopy1(p, dim)) <= 3
                  || Hamming(VersionCopy2(m, dim), VersionCopy2(p, dim)) <= 3)
  }

  // ---- Reserved cells keep what was drawn

  lemma SamePatterns(g0: map<Cell, int>, v: nat)
    requires IsVersion(v) && Square(g0.Keys, Dimension(v))
    requires Reserves(g0, c => WrittenCell(Dimension(v), AlignmentCentres(v), v > 6, c))
    ensures SamePattern(g0, PatternOf(v))
  {
    hide AlignmentCentres, WrittenCell, MarkedCell, PatternOf;
    var p := PatternOf(v);
    forall c | c in g0 ensures p[c] == !IsEmpty(g0[c]) {
      ReservedCellsAgree(Dimension(v), AlignmentCentres(v), v > 6, c);
    }
  }

  lemma ReservedKept(g0: map<Cell, int>, g: map<Cell, int>, cells: seq<Cell>, bits: seq<bool>, mask: nat, c: Cell)
    requires mask < 8 && Filled(g0, g, DataCells(cells, Reserved(g0)), bits, mask)
    requires c in g0 && !IsEmpty(g0[c])
    ensures c in g && g[c] == g0[c]
  {
    DataCellsOf(cells, Reserved(g0));
  }

  lemma TypeCellTaken(g0: map<Cell, int>, dim: int, bits: seq<bool>, a: nat)
    requires |bits| == 15 && a < 15 && HasTypeInfo(g0, dim, bits)
    ensures TypeCell1(a) in g0 && g0[TypeCell1(a)] == Bit(bits[14 - a]) && !IsEmpty(g0[TypeCell1(a)])
    ensures TypeCell2(dim, a) in g0 && g0[TypeCell2(dim, a)] == Bit(bits[14 - a]) && !IsEmpty(g0[TypeCell2(dim, a)])
  {
    hide TypeCell1, TypeCell2;
  }

  /** Both copies of the format information in the picture are the writer's word. */
  lemma FormatDrawn(g0: map<Cell, int>, g: map<Cell, int>, v: nat, level: Level, mask: nat, cw: seq<Byte>)
    requires IsVersion(v) && mask < 8 && SymbolOver(g0, g, v, level, mask, cw)
    ensures Square(g.Keys, Dimension(v))
    ensures forall a :: 0 <= a < 15 ==> TypeCell1(a) in g && TypeCell2(Dimension(v), a) in g
    ensures FormatCopy1(Picture(g)) == FormatBits(level, mask)
    ensures FormatCopy2(Picture(g), Dimension(v)) == FormatBits(level, mask)
  {
    hide TypeCell1, TypeCell2, HasTypeInfo, Reserves, Filled, FullWalk, FormatBits, Flatten;
    var dim, bits, p := Dimension(v), FormatBits(level, mask), Picture(g);
    FilledKeys(g0, g, DataCells(FullWalk(dim), Reserved(g0)), Flatten(cw), mask);
    InformationInside(p, dim);
    forall i | 0 <= i < 15 ensures FormatCopy1(p)[i] == bits[i] && FormatCopy2(p, dim)[i] == bits[i] {
      TypeCellTaken(g0, dim, bits, 14 - i);
      ReservedKept(g0, g, FullWalk(dim), Flatten(cw), mask, TypeCell1(14 - i));
      ReservedKept(g0, g, FullWalk(dim), Flatten(cw), mask, TypeCell2(dim, 14 - i));
      FormatCopyAt(p, dim, i);
    }
  }

  lemma FilledKeys(g0: map<Cell, int>, g: map<Cell, int>, cells: seq<Cell>, bits: seq<bool>, mask: nat)
    requires mask < 8 && Filled(g0, g, cells, bits, mask)
    ensures g.Keys == g0.Keys
  {
  }

  lemma VersionCellTaken(g0: map<Cell, int>, dim: int, bits: seq<bool>, i: nat)
    requires |bits| == 18 && i < 18 && HasVersionInfo(g0, dim, bits)
    ensures VersionRead1(dim, i) in g0 && g0[VersionRead1(dim, i)] == Bit(bits[i]) && !IsEmpty(g0[VersionRead1(dim, i)])
    ensures VersionRead2(dim, i) in g0 && g0[VersionRead2(dim, i)] == Bit(bits[i]) && !IsEmpty(g0[VersionRead2(dim, i)])
  {
    hide VersionCell1, VersionCell2, Triple;
    var a := Triple(17 - i);
    var o := 17 - i - 3 * a;
    assert 0 <= o < 3 && 17 - (3 * a + o) == i;
    assert VersionCell1(dim, a, o) in g0 && VersionCell2(dim, a, o) in g0;
  }

  lemma VersionDrawn(g0: map<Cell, int>, g: map<Cell, int>, v: nat, level: Level, mask: nat, cw: seq<Byte>)
    requires IsVersion(v) && v > 6 && mask < 8 && SymbolOver(g0, g, v, level, mask, cw)
    ensures HasVersionCells(Picture(g), Dimension(v))
    ensures VersionCopy1(Picture(g), Dimension(v)) == VersionBits(v)
    ensures VersionCopy2(Picture(g), Dimension(v)) == VersionBits(v)
  {
    hide VersionRead1, VersionRead2, HasVersionInfo, Reserves, Filled, FullWalk, VersionBits, Flatten;
    var dim, bits, p := Dimension(v), VersionBits(v), Picture(g);
    FilledKeys(g0, g, DataCells(FullWalk(dim), Reserved(g0)), Flatten(cw), mask);
    InformationInside(p, dim);
    forall i | 0 <= i < 18 ensures VersionCopy1(p, dim)[i] == bits[i] && VersionCopy2(p, dim)[i] == bits[i] {
      VersionCellTaken(g0, dim, bits, i);
      ReservedKept(g0, g, FullWalk(dim), Flatten(cw), mask, VersionRead1(dim, i));
      ReservedKept(g0, g, FullWalk(dim), Flatten(cw), mask, VersionRead2(dim, i));
    }
  }

  /** Level and mask are read right. */
  lemma FormatReadBack(g0: map<Cell, int>, g: map<Cell, int>, m: map<Cell, bool>, v: nat, level: Level, mask: nat, cw: seq<Byte>)
    requires IsVersion(v) && mask < 8 && SymbolOver(g0, g, v, level, mask, cw)
    requires Square(m.Keys, Dimension(v)) && m.Keys == g.Keys && Legible(g, m, v)
    ensures forall a :: 0 <= a < 15 ==> TypeCell1(a) in m && TypeCell2(Dimension(v), a) in m
    ensures FormatDecoded(BitsNum(FormatCopy1(m)), BitsNum(FormatCopy2(m, Dimension(v)))) == Some(FormatData(level, mask))
  {
    hide FormatDecoded, FormatInformation.FormatWord, FormatInformation.FiveOf, FormatInformation.MakeTypeInfoBits, Hamming;
    hide SymbolOver, TypeCell1, TypeCell2, BitsNum;
    InformationInside(m, Dimension(v));
    FormatDrawn(g0, g, v, level, mask, cw);
    FormatDataInverse(level, mask);
    FormatInformation.FormatComputed(FormatInformation.FiveOf(FormatData(level, mask)));
    FormatSurvives(FormatCopy1(m), FormatCopy2(m, Dimension(v)), FormatData(level, mask));
  }

  /** The version is read right. */
  lemma VersionReadRight(g0: map<Cell, int>, g: map<Cell, int>, m: map<Cell, bool>, v: nat, level: Level, mask: nat, cw: seq<Byte>)
    requires IsVersion(v) && mask < 8 && SymbolOver(g0, g, v, level, mask, cw)
    requires Square(m.Keys, Dimension(v)) && m.Keys == g.Keys && Legible(g, m, v)
    ensures HasVersionCells(m, Dimension(v))
    ensures VersionRead(Dimension(v), BitsNum(VersionCopy1(m, Dimension(v))), BitsNum(VersionCopy2(m, Dimension(v)))) == Some(v)
  {
    hide VersionInformation.VersionWord, VersionInformation.SixOf, VersionInformation.MakeVersionInfoBits, Hamming, VersionSearch;
    hide SymbolOver, BitsNum, HasVersionCells, VersionCopy1, VersionCopy2, FormatCopy1, FormatCopy2;
    InformationInside(m, Dimension(v));
    if v > 6 {
      VersionDrawn(g0, g, v, level, mask, cw);
      VersionInformation.VersionComputed(VersionInformation.SixOf(v));
      VersionReadBack(v, VersionCopy1(m, Dimension(v)), VersionCopy2(m, Dimension(v)));
    }
  }

  // ---- The codewords

  function WrongBits(a: seq<bool>, b: seq<bool>): set<nat>
    requires |a| == |b|
  {
    set k: nat | k < |a| && a[k] != b[k]
  }

  lemma SameByte(a: seq<bool>, b: seq<bool>, p: nat)
    requires |a| == |b| && p < |a| / 8 && forall k :: 8 * p <= k < 8 * p + 8 ==> a[k] == b[k]
    ensures Group(a)[p] == Group(b)[p]
  {
    hide ByteOf;
    assert a[8 * p..8 * p + 8] == b[8 * p..8 * p + 8];
  }

  /** A wrong byte holds a wrong bit, so there are no more of them. */
  lemma WrongBytes(a: seq<bool>, b: seq<bool>)
    requires |a| == |b|
    ensures |Damaged(Group(a), Group(b))| <= |WrongBits(a, b)|
  {
    var f := (p: nat) => FirstWrong(a, b, 8 * p);
    hide Group;
    var d, w := Damaged(Group(a), Group(b)), WrongBits(a, b);
    forall p | p in d ensures f(p) in w && 8 * p <= f(p) < 8 * p + 8 {
      if forall k :: 8 * p <= k < 8 * p + 8 ==> a[k] == b[k] {
        SameByte(a, b, p);
      }
      FirstWrongIs(a, b, 8 * p);
    }
    Image(d, w, f);
  }

  /** The first place from k on where the two differ, or the length. */
  function FirstWrong(a: seq<bool>, b: seq<bool>, k: nat): nat
    requires |a| == |b|
    decreases |a| - k
  {
    if k >= |a| then |a| else if a[k] != b[k] then k else FirstWrong(a, b, k + 1)
  }

  lemma {:induction false} FirstWrongIs(a: seq<bool>, b: seq<bool>, k: nat)
    requires |a| == |b| && exists j :: k <= j < |a| && a[j] != b[j]
    ensures k <= FirstWrong(a, b, k) < |a| && a[FirstWrong(a, b, k)] != b[FirstWrong(a, b, k)]
    ensures forall j :: k <= j < |a| && a[j] != b[j] ==> FirstWrong(a, b, k) <= j
    decreases |a| - k
  {
    if a[k] == b[k] {
      FirstWrongIs(a, b, k + 1);
    }
  }

  /** As many free modules as the codewords need, and fewer than eight over. */
  lemma RoomForCodewords(g0: map<Cell, int>, v: nat, cw: seq<Byte>)
    requires IsVersion(v) && |cw| == TotalCodewords(v) && SamePattern(g0, PatternOf(v)) && Square(g0.Keys, Dimension(v))
    ensures var cells := DataCells(FullWalk(Dimension(v)), Marked(PatternOf(v)));
            && cells == DataCells(FullWalk(Dimension(v)), Reserved(g0))
            && |Flatten(cw)| <= |cells| < |Flatten(cw)| + 8
  {
    hide TotalCodewords, PatternOf, FullWalk, AlignmentCentres, MarkedCell;
    SameDataCells(g0, PatternOf(v), FullWalk(Dimension(v)));
    hide DataCells;
    DataCellCount.DataCellsOfVersion(v, Marked(PatternOf(v)));
    DataCellCount.RoomIsExact(v);
  }

  /** The codewords are read right but for those with a wrong module. */
  lemma CodewordsSurvive(g0: map<Cell, int>, g: map<Cell, int>, m: map<Cell, bool>, v: nat, level: Level, mask: nat, cw: seq<Byte>)
    requires IsVersion(v) && mask < 8 && SymbolOver(g0, g, v, level, mask, cw) && |cw| == TotalCodewords(v)
    requires Square(m.Keys, Dimension(v)) && m.Keys == g.Keys
    ensures |CodewordsRead(m, v, mask)| == |cw|
    ensures |Damaged(CodewordsRead(m, v, mask), cw)| <= |WrongModules(g, m, v)|
  {
    hide TotalCodewords, PatternOf, FullWalk, AlignmentCentres, MarkedCell, WrittenCell, Filled, Flatten, DataCells;
    hide HasTypeInfo, HasVersionInfo, Group, UnmaskedGrid, Unmasked, FormatBits, VersionBits;
    var dim := Dimension(v);
    SamePatterns(g0, v);
    RoomForCodewords(g0, v, cw);
    var u := UnmaskedGrid(m, mask, dim);
    var cells := DataCells(FullWalk(dim), Marked(PatternOf(v)));
    PlacementRead(g0, g, Flatten(cw), mask, dim, m, u, PatternOf(v));
    var rest := Repeat(false, |cells| - |Flatten(cw)|);
    var a, b := ReadBits(u, cells), Flatten(cw) + rest;
    GroupFlatten(cw, rest);
    WrongBytes(a, b);
    FewerWrong(WrongBits(a, b), WrongModules(g, m, v));
  }

  lemma FewerWrong(a: set<nat>, b: set<nat>)
    requires a <= b
    ensures |a| <= |b|
  {
    assert b == a + (b - a);
  }

  /** A text of digits or of the alphanumeric characters, written at any level, under any mask,
      is read back from a symbol whose format and version are legible and whose blocks are
      repairable. */
  lemma TextSurvives(F: Field, text: string, level: Level, mask: nat, v: int, g: map<Cell, int>, m: map<Cell, bool>)
    requires IsField(F) && mask < 8 && ChooseMode(text) != ByteMode && EncodedVersion(text, level) == Some(v)
    requires IsVersion(v) && IsSymbol(g, v, level, mask, EncodedCodewords(F, text, level, v))
    requires Square(m.Keys, Dimension(v)) && m.Keys == g.Keys && Legible(g, m, v)
    requires |CodewordsRead(m, v, mask)| == ShapeFor(v, level).Total()
    requires |EncodedData(text, level, v)| == ShapeFor(v, level).TotalData()
    requires Repairable(F, CodewordsRead(m, v, mask), EncodedData(text, level, v), ShapeFor(v, level))
    ensures ReadSymbol(F, m, Dimension(v)) == Result(Text(text))
  {
    hide IsField, SymbolOver, Legible, Repairable, DataOf, ParseSegments, FormatDecoded, VersionRead, BitsNum, TotalCodewords;
    hide EncodedData, EncodedVersion, EncodedCodewords, ShapeFor, CodewordsRead, ChooseMode, Flatten, ReadSymbol;
    hide FormatCopy1, FormatCopy2, VersionCopy1, VersionCopy2, HasVersionCells, TypeCell1, TypeCell2;
    var cw := EncodedCodewords(F, text, level, v);
    var g0 :| SymbolOver(g0, g, v, level, mask, cw);
    ShapeFits(v, level);
    DataRoundTrip(text, level, v);
    VersionReadRight(g0, g, m, v, level, mask, cw);
    FormatReadBack(g0, g, m, v, level, mask, cw);
    DataSurvives(F, CodewordsRead(m, v, mask), EncodedData(text, level, v), ShapeFor(v, level));
    ReadingSteps(F, m, v, level, mask, EncodedData(text, level, v));
  }

  /** The steps of the reader when each of them succeeds. */
  lemma ReadingSteps(F: Field, m: map<Cell, bool>, v: int, level: Level, mask: nat, data: seq<Byte>)
    requires IsField(F) && IsVersion(v) && mask < 8 && Square(m.Keys, Dimension(v))
    requires HasVersionCells(m, Dimension(v))
    requires forall a :: 0 <= a < 15 ==> TypeCell1(a) in m && TypeCell2(Dimension(v), a) in m
    requires VersionRead(Dimension(v), BitsNum(VersionCopy1(m, Dimension(v))), BitsNum(VersionCopy2(m, Dimension(v)))) == Some(v)
    requires FormatDecoded(BitsNum(FormatCopy1(m)), BitsNum(FormatCopy2(m, Dimension(v)))) == Some(FormatData(level, mask))
    requires |CodewordsRead(m, v, mask)| == TotalCodewords(v) == ShapeFor(v, level).Total()
    requires DataOf(F, CodewordsRead(m, v, mask), ShapeFor(v, level), ShapeFor(v, level).Count()) == Some(data)
    ensures ReadSymbol(F, m, Dimension(v)) == Result(ParseSegments(Flatten(data), v, ""))
  {
    hide IsField, DataOf, ParseSegments, FormatDecoded, VersionRead, BitsNum, TotalCodewords, FormatData, LevelForBits;
    hide ShapeFor, CodewordsRead, Flatten, FormatCopy1, FormatCopy2, VersionCopy1, VersionCopy2, HasVersionCells, TypeCell1, TypeCell2;
    FormatDataInverse(level, mask);
    assert Dimension(v) % 4 == 1 && Dimension(v) >= 21;
  }

  /** In particular from a symbol with no more wrong data modules than half the check symbols
      of a block, wherever they are. */
  lemma DamagedTextSurvives(F: Field, text: string, level: Level, mask: nat, v: int, g: map<Cell, int>, m: map<Cell, bool>)
    requires IsField(F) && mask < 8 && ChooseMode(text) != ByteMode && EncodedVersion(text, level) == Some(v)
    requires IsVersion(v) && IsSymbol(g, v, level, mask, EncodedCodewords(F, text, level, v))
    requires Square(m.Keys, Dimension(v)) && m.Keys == g.Keys && Legible(g, m, v)
    requires |WrongModules(g, m, v)| <= GroupsFor(v, level).ec / 2
    ensures ReadSymbol(F, m, Dimension(v)) == Result(Text(text))
  {
    var cw := EncodedCodewords(F, text, level, v);
    var g0 :| SymbolOver(g0, g, v, level, mask, cw);
    var s := ShapeFor(v, level);
    assert s.ec == GroupsFor(v, level).ec;
    ShapeFits(v, level);
    DataRoundTrip(text, level, v);
    CodewordsLen(F, text, level, v);
    hide IsField, SymbolOver, IsSymbol, Legible, Repairable, TotalCodewords, ReadSymbol, WrongModules, GroupsFor;
    hide EncodedData, EncodedVersion, ShapeFor, CodewordsRead, ChooseMode, Codewords;
    CodewordsSurvive(g0, g, m, v, level, mask, cw);
    FewDamagedRepairable(F, CodewordsRead(m, v, mask), EncodedData(text, level, v), s);
    TextSurvives(F, text, level, mask, v, g, m);
  }

  lemma CodewordsLen(F: Field, text: string, level: Level, v: int)
    requires IsField(F) && ChooseMode(text) != ByteMode && EncodedVersion(text, level) == Some(v)
    ensures IsVersion(v) && |EncodedCodewords(F, text, level, v)| == TotalCodewords(v)
  {
    hide IsField, EncodedData, EncodedVersion, ShapeFor, ChooseMode, Interleave, Rows, TotalCodewords, DataCodewords;
    DataRoundTrip(text, level, v);
    ShapeFits(v, level);
    InterleaveParts(BlocksFor(F, EncodedData(text, level, v), ShapeFor(v, level)), ShapeFor(v, level));
  }

  /** And from a symbol without flaws. */
  lemma PrintedTextReads(F: Field, text: string, level: Level, mask: nat, v: int, g: map<Cell, int>)
    requires IsField(F) && mask < 8 && ChooseMode(text) != ByteMode && EncodedVersion(text, level) == Some(v)
    requires IsVersion(v) && IsSymbol(g, v, level, mask, EncodedCodewords(F, text, level, v))
    ensures Square(g.Keys, Dimension(v)) && ReadSymbol(F, Picture(g), Dimension(v)) == Result(Text(text))
  {
    var g0 :| SymbolOver(g0, g, v, level, mask, EncodedCodewords(F, text, level, v));
    FilledKeys(g0, g, DataCells(FullWalk(Dimension(v)), Reserved(g0)), Flatten(EncodedCodewords(F, text, level, v)), mask);
    NoFlaws(g, v);
    assert |WrongModules(g, Picture(g), v)| == 0;
    hide IsField, SymbolOver, IsSymbol, Legible, TotalCodewords, ReadSymbol, WrongModules, GroupsFor, EncodedCodewords;
    DamagedTextSurvives(F, text, level, mask, v, g, Picture(g));
  }

  lemma NoFlaws(g: map<Cell, int>, v: int)
    requires IsVersion(v) && Square(g.Keys, Dimension(v))
    ensures Legible(g, Picture(g), v) && WrongModules(g, Picture(g), v) == {}
  {
    hide Hamming, FormatCopy1, FormatCopy2, VersionCopy1, VersionCopy2, HasVersionCells, PatternOf, DataCells, FullWalk;
    var p, dim := Picture(g), Dimension(v);
    InformationInside(p, dim);
    FreeInside(v, p);
    HammingSame(FormatCopy1(p));
    HammingSame(FormatCopy2(p, dim));
    HammingSame(VersionCopy1(p, dim));
  }
}
