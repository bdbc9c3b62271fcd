/** The writer from the text to the finished symbol. */
module QrEncoder {
  import opened AlignmentTables
  import opened BitArrays
  import opened BitStrings
  import opened BlockCoding
  import opened BlockEncoding
  import opened GaloisField
  import opened GenericField
  import opened InformationReading
  import opened Layout
  import opened MatrixWriting
  import opened Options
  import opened PatternColours
  import opened PatternWriting
  import opened Placement
  import opened QrRoundTrip
  import opened SegmentWriting
  import opened Segments
  import opened SymbolBuilding
  import opened Versions
  import FormatInformation
  import FunctionPatterns
  import PlacementRoundTrip
  import VersionInformation

  // ---- Mode and version

  /** A byte as soon as one character has no code; then alphanumeric as soon as one is not a
      digit; an empty text is left to byte mode. */
  method DetermineMode(content: string) returns (m: Mode)
    ensures m == ChooseMode(content)
  {
    hide AlphanumericCode, IsDigit;
    var hasNumeric, hasAlphanumeric := false, false;
    for i := 0 to |content|
      invariant AllAlphanumeric(content[..i])
      invariant hasAlphanumeric <==> !AllDigits(content[..i])
      invariant AllDigits(content[..i]) ==> (hasNumeric <==> i > 0)
    {
      var c := content[i];
      assert content[..i + 1] == content[..i] + [c];
      if IsDigit(c) {
        DigitCharacter(c);
        hasNumeric := true;
        DigitMore(content, i);
      } else if AlphanumericCode(c) != -1 {
        hasAlphanumeric := true;
        assert !IsDigit(content[..i + 1][i]);
      } else {
        assert AlphanumericCode(content[i]) == -1;
        return ByteMode;
      }
    }
    assert content[..|content|] == content;
    m := if hasAlphanumeric then Alphanumeric else if hasNumeric then Numeric else ByteMode;
  }

  lemma DigitMore(content: string, i: nat)
    requires i < |content| && IsDigit(content[i])
    ensures AllDigits(content[..i + 1]) <==> AllDigits(content[..i])
    ensures AllAlphanumeric(content[..i]) ==> AllAlphanumeric(content[..i + 1])
  {
    DigitCharacter(content[i]);
    if AllDigits(content[..i + 1]) {
      forall k | 0 <= k < i ensures IsDigit(content[..i][k]) {
        assert content[..i + 1][k] == content[..i][k];
      }
    }
  }

  /** The first version that will fit. */
  method FindVersion(numBits: nat, level: Level) returns (r: Option<int>)
    ensures r == ChooseVersion(numBits, level)
  {
    hide WillFit;
    for v := 1 to 41
      invariant ChooseVersion(numBits, level) == ChooseFrom(numBits, level, v)
    {
      if WillFit(numBits, v, level) {
        return Some(v);
      }
    }
    r := None;
  }

  // ---- Blocks of a version

  lemma DivideShape(n: nat, x: nat, c: nat)
    requires c < n
    ensures (x * n + c) / n == x && (x * n + c) % n == c
  {
    var y := x * n + c;
    assert y == (y / n) * n + y % n;
    if y / n > x {
      Product(y / n, x + 1, n);
    } else if y / n < x {
      Product(x, y / n + 1, n);
    }
  }

  /** What the writer computes from the totals is what the table says. */
  lemma SplitIsShape(v: int, level: Level)
    requires IsVersion(v)
    ensures var g := GroupsFor(v, level);
            && 0 < NumBlocks(g) <= DataCodewords(v, level) <= TotalCodewords(v)
            && Split(TotalCodewords(v), DataCodewords(v, level), NumBlocks(g)) == ShapeFor(v, level)
            && TotalCodewords(v) % NumBlocks(g) == DataCodewords(v, level) % NumBlocks(g)
  {
    hide Table, GroupsFor, Rows, TotalCodewords, DataCodewords, GroupTotal, GroupData;
    ShapeFits(v, level);
    var s, g := ShapeFor(v, level), GroupsFor(v, level);
    var n := NumBlocks(g);
    RowsIsProduct(s.d, n);
    RowsIsProduct(s.ec, n);
    assert s.d * n + s.ec * n == (s.d + s.ec) * n;
    assert s.Count() == n;
    DivideShape(n, s.d + s.ec, s.c2);
    DivideShape(n, s.d, s.c2);
    Product(s.d, 1, n);
  }

  // ---- Text to codewords

  /** Header, payload, count field, terminator, blocks.  There is no result just when the text
      leaves fewer than seven bits of the largest version to spare. */
  method EncodeText(field: GenericGF, text: string, level: Level) returns (version: int, result: BitArray?)
    requires field.Valid() && field.generatorBase == 0 && ChooseMode(text) != ByteMode
    ensures result != null <==> EncodedVersion(text, level).Some?
    ensures result != null <==> |SegmentBits(text, 40)| + 7 <= 8 * DataCodewords(40, level)
    ensures result != null ==>
              && EncodedVersion(text, level) == Some(version)
              && fresh(result) && fresh(result.bits) && result.Valid()
              && result.contents == Flatten(EncodedCodewords(field.F, text, level, version))
  {
    hide IsField, ChooseMode, CountBits, NumBits, DataCodewords, TotalCodewords, Terminate, Holds, GroupsFor, Pow2;
    hide ChooseVersion, Group, Flatten;
    RefusedExactly(text, level);
    hide SegmentBits;
    var mode := DetermineMode(text);
    ModeChosen(text);
    version, result := 0, null;
    var headerBits := new BitArray();
    var ok := headerBits.AppendBits(ModeBits(mode), 4);
    var dataBits := MakePayload(text, mode);
    var provisional := FindVersion(headerBits.size + CountBits(mode, 1) + dataBits.size, level);
    if provisional.None? {
      return;
    }
    ChosenIsVersion(headerBits.size + CountBits(mode, 1) + dataBits.size, level);
    var chosen := FindVersion(headerBits.size + CountBits(mode, provisional.value) + dataBits.size, level);
    if chosen.None? {
      return;
    }
    version := chosen.value;
    DataFits(text, level, version);
    CountFits(text, version, level);
    ghost var f := field.F;
    var bits := AssembleSegment(text, version, mode, headerBits, dataBits);
    result := FinishCodewords(field, bits, text, level, version);
  }

  method MakePayload(text: string, mode: Mode) returns (dataBits: BitArray)
    requires mode == ChooseMode(text) && mode != ByteMode
    ensures fresh(dataBits) && fresh(dataBits.bits) && dataBits.Valid() && dataBits.contents == PayloadBits(text)
  {
    hide Holds, NumericBits, AlphanumericBits;
    ModeChosen(text);
    dataBits := new BitArray();
    if mode == Numeric {
      AppendNumericBytes(text, dataBits);
    } else {
      var ok := AppendAlphanumericBytes(text, dataBits);
    }
  }

  lemma ChosenIsVersion(numBits: nat, level: Level)
    ensures ChooseVersion(numBits, level).Some? ==> IsVersion(ChooseVersion(numBits, level).value)
  {
    ChooseFound(numBits, level, 1);
  }

  method AssembleSegment(text: string, version: int, mode: Mode, headerBits: BitArray, dataBits: BitArray) returns (bits: BitArray)
    requires mode == ChooseMode(text) && mode != ByteMode && IsVersion(version)
    requires headerBits.Valid() && headerBits.contents == NumBits(ModeBits(mode), 4)
    requires dataBits.Valid() && dataBits.contents == PayloadBits(text)
    requires |text| < Pow2(CountBits(mode, version))
    ensures fresh(bits) && fresh(bits.bits) && bits.Valid() && bits.contents == SegmentBits(text, version)
  {
    hide Holds, PayloadBits, NumBits, CountBits, Pow2, ChooseMode;
    bits := new BitArray();
    bits.AppendBitArray(headerBits);
    var ok := AppendLengthInfo(|text|, version, mode, bits);
    bits.AppendBitArray(dataBits);
  }

  method FinishCodewords(field: GenericGF, bits: BitArray, ghost text: string, level: Level, version: int) returns (result: BitArray?)
    requires field.Valid() && field.generatorBase == 0 && ChooseMode(text) != ByteMode
    requires EncodedVersion(text, level) == Some(version) && IsVersion(version)
    requires bits.Valid() && bits.contents == SegmentBits(text, version)
    modifies bits, bits.bits
    ensures result != null && fresh(result) && fresh(result.bits) && result.Valid()
    ensures result.contents == Flatten(EncodedCodewords(field.F, text, level, version))
  {
    hide IsField, ChooseMode, DataCodewords, TotalCodewords, Terminate, Holds, GroupsFor, EncodedVersion, SegmentBits, ShapeFor;
    hide Flatten, Group, Split, Codewords;
    DataFits(text, level, version);
    DataRoundTrip(text, level, version);
    ShapeFits(version, level);
    SplitIsShape(version, level);
    TerminateFills(SegmentBits(text, version), DataCodewords(version, level));
    var numDataBytes := DataCodewords(version, level);
    var ok := TerminateBits(numDataBytes, bits);
    PaddedIsGroup(bits.contents);
    hide PaddedBytes;
    result := InterleaveWithEcBytes(field, bits, TotalCodewords(version), numDataBytes, NumBlocks(GroupsFor(version, level)));
  }

  // ---- Codewords to modules

  lemma RoomIsEnough(g0: map<Cell, int>, v: int, cw: seq<Byte>)
    requires IsVersion(v) && |cw| == TotalCodewords(v) && PlacementRoundTrip.Square(g0.Keys, Dimension(v))
    requires Reserves(g0, c => FunctionPatterns.WrittenCell(Dimension(v), AlignmentCentres(v), v > 6, c))
    ensures |Flatten(cw)| <= |DataCells(FullWalk(Dimension(v)), Reserved(g0))|
  {
    hide TotalCodewords, Flatten, FullWalk, DataCells, AlignmentCentres, FunctionPatterns.WrittenCell, PatternOf;
    SamePatterns(g0, v);
    RoomForCodewords(g0, v, cw);
  }

  lemma SymbolMade(g0: map<Cell, int>, g: map<Cell, int>, v: nat, level: Level, mask: nat, cw: seq<Byte>)
    requires IsVersion(v) && mask < 8 && SymbolOver(g0, g, v, level, mask, cw)
    ensures IsSymbol(g, v, level, mask, cw)
  {
  }

  /** Everything into an empty matrix.  The program throws for a mask that does not exist, and
      never for codewords of the right number.  The function patterns have their colours. */
  method BuildMatrix(dataBits: BitArray, level: Level, version: int, mask: nat, matrix: ByteMatrix, ghost cw: seq<Byte>) returns (ok: bool)
    requires IsVersion(version) && matrix.Valid() && matrix.width == matrix.height == Dimension(version)
    requires dataBits.Valid() && dataBits.contents == Flatten(cw) && |cw| == TotalCodewords(version)
    modifies matrix, matrix.bytes
    ensures matrix.Valid() && (ok <==> mask < 8)
    ensures ok ==> IsSymbol(matrix.grid, version, level, mask, cw)
    ensures ok ==> Coloured(matrix.grid, Dimension(version), AlignmentCentres(version))
  {
    hide Holds, Flatten, TotalCodewords, AlignmentCentres, AdjustmentRow, FunctionPatterns.WrittenCell, FunctionPatterns.GoodCentres;
    hide HasTypeInfo, HasVersionInfo, Reserves, Filled, FullWalk, DataCells, FunctionPatterns.Spread;
    hide FormatInformation.MakeTypeInfoBits, VersionInformation.MakeVersionInfoBits, FormatInformation.FiveOf, VersionInformation.SixOf;
    hide IsSymbol, Coloured, Keeps;
    if mask >= 8 {
      return false;
    }
    CentresGood(version);
    var format := FormatInformation.ComputeTypeInfoBits(FormatInformation.FiveOf(FormatData(level, mask)));
    var versionInfo := VersionInformation.ComputeVersionInfoBits(VersionInformation.SixOf(version));
    ok := EmbedReserved(version, AdjustmentRow(version), format, versionInfo, matrix, AlignmentCentres(version));
    ghost var g0 := matrix.grid;
    RoomIsEnough(g0, version, cw);
    ok := EmbedDataBits(dataBits, mask, matrix);
    SymbolMade(g0, matrix.grid, version, level, mask, cw);
    DataKeeps(g0, matrix.grid, FullWalk(Dimension(version)), Flatten(cw), mask);
    ColoursKept(g0, matrix.grid, Dimension(version), AlignmentCentres(version));
  }

  /** The whole writer, for any choice of the mask.  There is no symbol just when the text leaves
      fewer than seven bits of the largest version to spare; otherwise it is the symbol of the text. */
  method EncodeSymbol(field: GenericGF, text: string, level: Level, mask: nat) returns (version: int, matrix: ByteMatrix?)
    requires field.Valid() && field.generatorBase == 0 && ChooseMode(text) != ByteMode && mask < 8
    ensures matrix != null <==> EncodedVersion(text, level).Some?
    ensures matrix != null <==> |SegmentBits(text, 40)| + 7 <= 8 * DataCodewords(40, level)
    ensures matrix != null ==>
              && EncodedVersion(text, level) == Some(version) && IsVersion(version) && matrix.Valid()
              && IsSymbol(matrix.grid, version, level, mask, EncodedCodewords(field.F, text, level, version))
              && Coloured(matrix.grid, Dimension(version), AlignmentCentres(version))
  {
    hide IsField, IsSymbol, EncodedCodewords, Flatten, Holds, ChooseMode, EncodedVersion, SegmentBits, DataCodewords, Coloured;
    var codewords;
    version, codewords := EncodeText(field, text, level);
    if codewords == null {
      return version, null;
    }
    CodewordsLen(field.F, text, level, version);
    var m := new ByteMatrix(Dimension(version), Dimension(version));
    var ok := BuildMatrix(codewords, level, version, mask, m, EncodedCodewords(field.F, text, level, version));
    matrix := m;
  }
}
