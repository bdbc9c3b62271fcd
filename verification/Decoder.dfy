/** The reader from the modules of a symbol to its text. */
module QrDecoder {
  import opened AlignmentTables
  import opened BitMatrices
  import opened BitMatrixParser
  import opened BitStrings
  import opened BlockCoding
  import opened Blocks
  import opened GaloisField
  import opened GenericField
  import opened InformationReading
  import opened Layout
  import opened Options
  import opened Placement
  import opened QrRoundTrip
  import opened ReedSolomonCode
  import opened ReedSolomonDecoding
  import opened Segments
  import opened Versions
  import DataBlocks
  import FunctionPatterns
  import PlacementRoundTrip
  import SegmentReading
  import SymbolBuilding

  lemma UnmaskedOnce(m: map<Cell, bool>, u: map<Cell, bool>, w: map<Cell, bool>, mask: nat, dim: nat)
    requires mask < 8 && Unmasked(m, u, mask, dim, 0, dim) && Unmasked(m, w, mask, dim, 0, dim)
    requires PlacementRoundTrip.Square(m.Keys, dim)
    ensures u == w
  {
    hide IsMasked;
    forall c | c in u ensures u[c] == w[c] {
    }
  }

  lemma PatternOnce(p: map<Cell, bool>, v: int)
    requires IsVersion(v) && PlacementRoundTrip.Square(p.Keys, Dimension(v))
    requires forall c :: c in p ==> (p[c] <==> FunctionPatterns.MarkedCell(Dimension(v), AlignmentCentres(v), v > 6, c))
    ensures p == PatternOf(v)
  {
    hide FunctionPatterns.MarkedCell, AlignmentCentres;
  }

  lemma GridSquare(m: BitMatrix)
    requires m.Valid() && m.width == m.height
    ensures PlacementRoundTrip.Square(m.grid.Keys, m.width)
  {
  }

  /** Mask off, pattern, walk. */
  method ReadCodewordsOf(m: BitMatrix, v: int, mask: nat) returns (r: Option<seq<Byte>>)
    requires m.Valid() && IsVersion(v) && m.width == m.height == Dimension(v) && mask < 8
    modifies m, m.bits
    ensures m.Valid() && PlacementRoundTrip.Square(old(m.grid).Keys, Dimension(v))
    ensures m.grid == UnmaskedGrid(old(m.grid), mask, m.width)
    ensures var cw := CodewordsRead(old(m.grid), v, mask);
            r == if |cw| == TotalCodewords(v) then Some(cw) else None
  {
    hide Represents, Unmasked, UnmaskedGrid, AlignmentCentres, FunctionPatterns.MarkedCell, FunctionPatterns.GoodCentres;
    hide PatternOf, FullWalk, DataCells, TotalCodewords, Group, FunctionPatterns.Spread;
    ghost var g := m.grid;
    GridSquare(m);
    UnmaskBitMatrix(mask, m, m.height);
    UnmaskedOnce(g, m.grid, UnmaskedGrid(g, mask, m.width), mask, m.width);
    CentresGood(v);
    var pattern := FunctionPatterns.BuildFunctionPattern(v, AlignmentCentres(v));
    GridSquare(pattern);
    PatternOnce(pattern.grid, v);
    r := ReadCodewords(m, pattern, TotalCodewords(v));
  }

  /** One block repaired in a copy; only its data bytes are taken over.  The program throws a
      checksum failure when the block is beyond repair. */
  method CorrectErrors(decoder: ReedSolomonDecoder, codewordBytes: seq<Byte>, numDataCodewords: nat) returns (r: Option<seq<Byte>>)
    requires decoder.Valid() && decoder.field.generatorBase == 0
    requires 0 < |codewordBytes| && numDataCodewords <= |codewordBytes| <= 255
    ensures var d := Decode(decoder.field.F, 0, codewordBytes, |codewordBytes| - numDataCodewords);
            r == if d.ok then Some(d.word[..numDataCodewords]) else None
  {
    hide Decode, IsField;
    var codewords := new Elem[|codewordBytes|](i => 0);
    for i := 0 to |codewordBytes|
      invariant codewords[..i] == codewordBytes[..i]
    {
      codewords[i] := codewordBytes[i];
    }
    assert codewords[..] == codewordBytes;
    var ok := decoder.DecodeInPlace(codewords, |codewordBytes| - numDataCodewords);
    if !ok {
      return None;
    }
    r := Some(codewords[..numDataCodewords]);
    assert codewords[..numDataCodewords] == codewords[..][..numDataCodewords];
  }

  lemma {:induction false} DataOfFails(F: Field, cw: seq<Byte>, s: Shape, i: nat, n: nat)
    requires IsField(F) && |cw| == s.Total() && i <= n <= s.Count() && DataOf(F, cw, s, i).None?
    ensures DataOf(F, cw, s, n).None?
    decreases n
  {
    hide IsField, Decode;
    if i < n {
      DataOfFails(F, cw, s, i, n - 1);
    }
  }

  lemma DataOfNothing(F: Field, cw: seq<Byte>, s: Shape)
    requires IsField(F) && |cw| == s.Total()
    ensures DataOf(F, cw, s, 0) == Some([])
  {
  }

  lemma DataOfStep(F: Field, cw: seq<Byte>, s: Shape, i: nat)
    requires IsField(F) && |cw| == s.Total() && i < s.Count() && DataOf(F, cw, s, i).Some?
    ensures var r := Decode(F, 0, BlockRead(cw, s, i), s.ec);
            DataOf(F, cw, s, i + 1) == if r.ok then Some(DataOf(F, cw, s, i).value + r.word[..s.DataLen(i)]) else None
  {
    hide IsField, Decode, BlockRead;
  }

  /** All blocks one after the other. */
  method CorrectBlocks(decoder: ReedSolomonDecoder, cw: seq<Byte>, s: Shape) returns (r: Option<seq<Byte>>)
    requires decoder.Valid() && decoder.field.generatorBase == 0 && |cw| == s.Total()
    requires s.c1 >= 1 && s.d >= 1 && s.d + 1 + s.ec <= 255
    ensures r == DataOf(decoder.field.F, cw, s, s.Count())
  {
    hide IsField, Decode, Rows, DataOf, BlockRead;
    DataOfNothing(decoder.field.F, cw, s);
    var blocks := DataBlocks.GetDataBlocks(cw, s);
    var result: seq<Byte> := [];
    for i := 0 to |blocks|
      invariant DataOf(decoder.field.F, cw, s, i) == Some(result)
    {
      assert blocks[i] == BlockRead(cw, s, i);
      DataOfStep(decoder.field.F, cw, s, i);
      var part := CorrectErrors(decoder, blocks[i], s.DataLen(i));
      if part.None? {
        DataOfFails(decoder.field.F, cw, s, i + 1, s.Count());
        return None;
      }
      result := result + part.value;
    }
    r := Some(result);
  }

  // ---- One attempt

  /** Version and format information. */
  datatype Information = Information(version: int, format: nat)

  ghost function InformationRead(m: map<Cell, bool>, dim: nat): (r: Option<Information>)
    requires dim >= 21 && dim % 4 == 1 && PlacementRoundTrip.Square(m.Keys, dim)
    ensures r.Some? ==> IsVersion(r.value.version) && Dimension(r.value.version) == dim
  {
    InformationInside(m, dim);
    VersionReadFits(dim, BitsNum(VersionCopy1(m, dim)), BitsNum(VersionCopy2(m, dim)));
    match VersionRead(dim, BitsNum(VersionCopy1(m, dim)), BitsNum(VersionCopy2(m, dim)))
    case None => None
    case Some(v) =>
      match FormatDecoded(BitsNum(FormatCopy1(m)), BitsNum(FormatCopy2(m, dim)))
      case None => None
      case Some(w) => Some(Information(v, w))
  }

  /** The text under the modules, once version and format are known. */
  ghost function DataRead(F: Field, m: map<Cell, bool>, i: Information): Reading
    requires IsField(F) && IsVersion(i.version) && PlacementRoundTrip.Square(m.Keys, Dimension(i.version))
  {
    var level, cw := LevelForBits(i.format / 8 % 4), CodewordsRead(m, i.version, i.format % 8);
    if |cw| != TotalCodewords(i.version) then FormatError else
    ShapeFits(i.version, level);
    var s := ShapeFor(i.version, level);
    match DataOf(F, cw, s, s.Count())
    case None => ChecksumError
    case Some(data) => Result(ParseSegments(Flatten(data), i.version, ""))
  }

  lemma ReadSymbolParts(F: Field, m: map<Cell, bool>, dim: nat)
    requires IsField(F) && dim >= 21 && dim % 4 == 1 && PlacementRoundTrip.Square(m.Keys, dim)
    ensures ReadSymbol(F, m, dim)
         == match InformationRead(m, dim) case None => FormatError case Some(i) => DataRead(F, m, i)
  {
    hide VersionRead, FormatDecoded, BitsNum, CodewordsRead, TotalCodewords, DataOf, ShapeFor, Flatten, ParseSegments, IsField;
    hide FormatCopy1, FormatCopy2, VersionCopy1, VersionCopy2, LevelForBits;
  }

  method ReadInformation(m: BitMatrix, mirror: bool) returns (r: Option<Information>)
    requires m.Valid() && m.width == m.height >= 21 && m.width % 4 == 1
    ensures PlacementRoundTrip.Square(Seen(m.grid, mirror).Keys, m.width)
    ensures r == InformationRead(Seen(m.grid, mirror), m.width)
  {
    hide Represents, VersionRead, FormatDecoded, BitsNum, Seen;
    hide FormatCopy1, FormatCopy2, VersionCopy1, VersionCopy2, SymbolBuilding.TypeCell1, SymbolBuilding.TypeCell2, HasVersionCells;
    SeenSquare(m, mirror);
    var version := ReadVersion(m, mirror);
    if version.None? {
      return None;
    }
    var format := ReadFormatInformation(m, mirror);
    if format.None? {
      return None;
    }
    r := Some(Information(version.value, format.value));
  }

  /** Codewords, blocks and segments; the mask is taken off the matrix. */
  method DecodeData(field: GenericGF, m: BitMatrix, i: Information) returns (r: Reading)
    requires field.Valid() && field.generatorBase == 0 && m.Valid()
    requires IsVersion(i.version) && m.width == m.height == Dimension(i.version)
    modifies m, m.bits
    ensures m.Valid() && PlacementRoundTrip.Square(old(m.grid).Keys, m.width)
    ensures m.grid == UnmaskedGrid(old(m.grid), i.format % 8, m.width)
    ensures r == DataRead(field.F, old(m.grid), i)
  {
    hide Represents, IsField, CodewordsRead, TotalCodewords, DataOf, ShapeFor, Flatten, ParseSegments, LevelForBits, Rows, UnmaskedGrid;
    var level := LevelForBits(i.format / 8 % 4);
    var cw := ReadCodewordsOf(m, i.version, i.format % 8);
    if cw.None? {
      return FormatError;
    }
    ShapeFits(i.version, level);
    var decoder := new ReedSolomonDecoder(field);
    var data := CorrectBlocks(decoder, cw.value, ShapeFor(i.version, level));
    if data.None? {
      return ChecksumError;
    }
    var parsed := SegmentReading.DecodeSegments(data.value, i.version);
    r := Result(parsed);
  }

  // ---- Two attempts

  /** Nothing came of the attempt.  What a segment of an open kind does is not known. */
  predicate Failed(r: Reading) {
    r.FormatError? || r.ChecksumError? || r == Result(Malformed)
  }

  lemma TransposedSquare(g: map<Cell, bool>, dim: nat)
    requires PlacementRoundTrip.Square(g.Keys, dim)
    ensures PlacementRoundTrip.Square(Transposed(g).Keys, dim) && Transposed(Transposed(g)) == g
  {
  }

  /** What the reader makes of a square matrix: when the symbol as it is gives nothing, its mirror
      image is tried, and when that gives nothing either, the first failure stands. */
  ghost function ReadBoth(F: Field, g: map<Cell, bool>, dim: nat): Reading
    requires IsField(F) && PlacementRoundTrip.Square(g.Keys, dim)
  {
    var first := ReadSymbol(F, g, dim);
    if dim < 21 || dim % 4 != 1 || !Failed(first) then first else
    TransposedSquare(g, dim);
    var second := ReadSymbol(F, Transposed(g), dim);
    if Failed(second) then first else second
  }

  /** The pair of places has been exchanged before column x reaches row y. */
  predicate Exchanged(c: Cell, x: int, y: int) {
    if c.x < c.y then c.x < x || (c.x == x && c.y < y)
    else c.y < c.x && (c.y < x || (c.y == x && c.x < y))
  }

  ghost predicate PartlyTransposed(g0: map<Cell, bool>, g: map<Cell, bool>, x: int, y: int) {
    && g.Keys == g0.Keys
    && forall c :: c in g0 ==>
         Cell(c.y, c.x) in g0 && g[c] == if Exchanged(c, x, y) then g0[Cell(c.y, c.x)] else g0[c]
  }

  lemma PairExchanged(g0: map<Cell, bool>, g: map<Cell, bool>, x: int, y: int)
    requires PartlyTransposed(g0, g, x, y) && x < y && Cell(x, y) in g && Cell(y, x) in g
    ensures g[Cell(x, y)] == g[Cell(y, x)] ==> PartlyTransposed(g0, g, x, y + 1)
    ensures g[Cell(x, y)] != g[Cell(y, x)] ==>
              PartlyTransposed(g0, g[Cell(y, x) := !g[Cell(y, x)]][Cell(x, y) := !g[Cell(x, y)]], x, y + 1)
  {
    forall c | c in g0 && c != Cell(x, y) && c != Cell(y, x) ensures Exchanged(c, x, y + 1) == Exchanged(c, x, y) {
    }
    assert !Exchanged(Cell(x, y), x, y) && !Exchanged(Cell(y, x), x, y);
    hide Exchanged;
  }

  lemma ColumnExchanged(g0: map<Cell, bool>, g: map<Cell, bool>, x: int, dim: nat)
    requires PlacementRoundTrip.Square(g0.Keys, dim)
    ensures PartlyTransposed(g0, g, x, dim) ==> PartlyTransposed(g0, g, x + 1, x + 2)
  {
    forall c | c in g0 ensures Exchanged(c, x, dim) == Exchanged(c, x + 1, x + 2) {
    }
    hide Exchanged;
  }

  lemma NothingExchanged(g: map<Cell, bool>, dim: nat)
    requires PlacementRoundTrip.Square(g.Keys, dim)
    ensures PartlyTransposed(g, g, 0, 1)
  {
  }

  lemma AllExchanged(g0: map<Cell, bool>, g: map<Cell, bool>, dim: nat)
    requires PlacementRoundTrip.Square(g0.Keys, dim) && PartlyTransposed(g0, g, dim, dim + 1)
    ensures g == Transposed(g0)
  {
    forall c | c in g0 ensures g[c] == g0[Cell(c.y, c.x)] {
    }
  }

  /** Exchanges x and y, pair by pair. */
  method Mirror(m: BitMatrix)
    requires m.Valid() && m.width == m.height
    modifies m, m.bits
    ensures m.Valid() && m.grid == Transposed(old(m.grid))
  {
    hide Represents, PartlyTransposed, Transposed;
    ghost var g := m.grid;
    GridInside(m.bits[..], m.grid, m.width, m.height);
    NothingExchanged(g, m.width);
    for x := 0 to m.width
      invariant m.Valid() && m.grid.Keys == g.Keys && PartlyTransposed(g, m.grid, x, x + 1)
    {
      for y := x + 1 to m.height
        invariant m.Valid() && m.grid.Keys == g.Keys && PartlyTransposed(g, m.grid, x, y)
      {
        PairExchanged(g, m.grid, x, y);
        var a := m.Get(x, y);
        var b := m.Get(y, x);
        if a != b {
          m.Flip(y, x);
          m.Flip(x, y);
        }
      }
      ColumnExchanged(g, m.grid, x, m.width);
    }
    AllExchanged(g, m.grid, m.width);
  }

  lemma UnmaskedTwice(g: map<Cell, bool>, mask: nat, dim: nat, r: map<Cell, bool>)
    requires mask < 8 && PlacementRoundTrip.Square(g.Keys, dim)
    requires Unmasked(UnmaskedGrid(g, mask, dim), r, mask, dim, 0, dim)
    ensures r == g
  {
    hide IsMasked;
    forall c | c in r ensures r[c] == g[c] {
    }
  }

  /** The whole reader. */
  method DecodeBitMatrix(field: GenericGF, m: BitMatrix) returns (r: Reading)
    requires field.Valid() && field.generatorBase == 0 && m.Valid() && m.width == m.height
    modifies m, m.bits
    ensures PlacementRoundTrip.Square(old(m.grid).Keys, m.width)
    ensures r == ReadBoth(field.F, old(m.grid), m.width)
  {
    hide Represents, IsField, ReadSymbol, InformationRead, DataRead, UnmaskedGrid, Unmasked, Transposed;
    ghost var g, dim := m.grid, m.width;
    GridSquare(m);
    if m.height < 21 || m.height % 4 != 1 {
      SmallFails(field.F, g, dim);
      return FormatError;
    }
    TransposedSquare(g, dim);
    ReadSymbolParts(field.F, g, dim);
    ReadSymbolParts(field.F, Transposed(g), dim);
    var info := ReadInformation(m, false);
    r := FormatError;
    if info.Some? {
      r := DecodeData(field, m, info.value);
      if !Failed(r) {
        return;
      }
      UnmaskBitMatrix(info.value.format % 8, m, m.height);
      UnmaskedTwice(g, info.value.format % 8, dim, m.grid);
    }
    var mirrored := ReadInformation(m, true);
    if mirrored.None? {
      return;
    }
    Mirror(m);
    var second := DecodeData(field, m, mirrored.value);
    if !Failed(second) {
      r := second;
    }
  }

  lemma SmallFails(F: Field, g: map<Cell, bool>, dim: nat)
    requires IsField(F) && PlacementRoundTrip.Square(g.Keys, dim) && (dim < 21 || dim % 4 != 1)
    ensures ReadBoth(F, g, dim) == FormatError
  {
  }

  /** A symbol that is read as it is, is read; its mirror image is, when it is not taken for
      another symbol as it is. */
  lemma MirroredIsRead(F: Field, g: map<Cell, bool>, dim: nat, text: string)
    requires IsField(F) && PlacementRoundTrip.Square(g.Keys, dim) && dim >= 21 && dim % 4 == 1
    requires ReadSymbol(F, g, dim) == Result(Text(text))
    ensures ReadBoth(F, g, dim) == Result(Text(text))
    ensures PlacementRoundTrip.Square(Transposed(g).Keys, dim)
    ensures ReadBoth(F, Transposed(g), dim)
         == if Failed(ReadSymbol(F, Transposed(g), dim)) then Result(Text(text)) else ReadSymbol(F, Transposed(g), dim)
  {
    hide ReadSymbol, IsField, Transposed;
    TransposedSquare(g, dim);
  }

  /** In particular the mirror image of a damaged symbol of a text, when its first attempt fails. */
  lemma MirroredTextReads(F: Field, text: string, level: Level, mask: nat, v: int, g: map<Cell, int>, m: map<Cell, bool>)
    requires IsField(F) && mask < 8 && ChooseMode(text) != ByteMode && EncodedVersion(text, level) == Some(v)
    requires IsVersion(v) && IsSymbol(g, v, level, mask, EncodedCodewords(F, text, level, v))
    requires PlacementRoundTrip.Square(m.Keys, Dimension(v)) && m.Keys == g.Keys && Legible(g, m, v)
    requires |WrongModules(g, m, v)| <= GroupsFor(v, level).ec / 2
    ensures ReadBoth(F, m, Dimension(v)) == Result(Text(text))
    ensures PlacementRoundTrip.Square(Transposed(m).Keys, Dimension(v))
    ensures Failed(ReadSymbol(F, Transposed(m), Dimension(v))) ==> ReadBoth(F, Transposed(m), Dimension(v)) == Result(Text(text))
  {
    hide ReadSymbol, IsField, Transposed, ReadBoth, IsSymbol, EncodedCodewords, EncodedVersion, ChooseMode, Legible, WrongModules, GroupsFor;
    DamagedTextSurvives(F, text, level, mask, v, g, m);
    MirroredIsRead(F, m, Dimension(v), text);
  }
}
