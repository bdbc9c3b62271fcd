/** A text written and read with the field of the QR code, from one end to the other. */
module QrLoop {
  import opened AlignmentTables
  import opened BitMatrices
  import opened Bytes
  import opened FieldTables
  import opened GaloisField
  import opened GenericField
  import opened MatrixWriting
  import opened Options
  import opened PatternColours
  import opened Placement
  import opened QrDecoder
  import opened QrEncoder
  import opened QrRoundTrip
  import opened Segments
  import opened Versions
  import PlacementRoundTrip

  /** The symbol with one pixel to a module. */
  method Print(matrix: ByteMatrix) returns (m: BitMatrix)
    requires matrix.Valid() && matrix.width >= 1 && matrix.height >= 1
    ensures fresh(m) && fresh(m.bits) && m.Valid() && m.width == matrix.width && m.height == matrix.height
    ensures m.grid == Picture(matrix.grid)
    ensures matrix.Valid() && matrix.grid == old(matrix.grid)
  {
    hide Represents;
    m := new BitMatrix(matrix.width, matrix.height);
    GridInside(m.bits[..], m.grid, m.width, m.height);
    for y := 0 to matrix.height
      invariant m.Valid() && m.grid.Keys == matrix.grid.Keys
      invariant forall c :: c in m.grid ==> m.grid[c] == (c.y < y && matrix.grid[c] == 1)
    {
      for x := 0 to matrix.width
        invariant m.Valid() && m.grid.Keys == matrix.grid.Keys
        invariant forall c :: c in m.grid ==>
                    m.grid[c] == ((c.y < y || (c.y == y && c.x < x)) && matrix.grid[c] == 1)
      {
        var v := matrix.Get(x, y);
        if v == 1 {
          m.Set(x, y);
        }
      }
    }
  }

  /** The field of the QR code, whose polynomial is 285. */
  ghost function QrField(): (F: Field)
    ensures IsField(F)
  {
    QrGenerates();
    TablesMakeField(285);
    TableField(285)
  }

  /** The writer with the field of the QR code: the symbol of the text
      with the check symbols of that field and the function patterns in their colours, or none just
      when the text leaves fewer than seven bits of the largest version to spare. */
  method WriteSymbol(text: string, level: Level, mask: nat) returns (field: GenericGF, version: int, matrix: ByteMatrix?)
    requires ChooseMode(text) != ByteMode && mask < 8
    ensures fresh(field) && field.Valid() && field.F == QrField() && field.generatorBase == 0
    ensures matrix != null <==> |SegmentBits(text, 40)| + 7 <= 8 * DataCodewords(40, level)
    ensures matrix != null ==>
              && EncodedVersion(text, level) == Some(version) && IsVersion(version) && matrix.Valid()
              && IsSymbol(matrix.grid, version, level, mask, EncodedCodewords(QrField(), text, level, version))
              && Coloured(matrix.grid, Dimension(version), AlignmentCentres(version))
  {
    hide IsField, Generates, IsSymbol, EncodedCodewords, ChooseMode, EncodedVersion, SegmentBits, DataCodewords, Coloured;
    QrGenerates();
    field := new GenericGF(285, 0);
    version, matrix := EncodeSymbol(field, text, level, mask);
  }

  /** What is written is read: every text of digits or of the alphanumeric characters that is not
      refused comes back, at every level and under every mask. */
  method WriteAndRead(text: string, level: Level, mask: nat) returns (r: Option<Reading>)
    requires ChooseMode(text) != ByteMode && mask < 8
    ensures r == if |SegmentBits(text, 40)| + 7 <= 8 * DataCodewords(40, level) then Some(Result(Text(text))) else None
  {
    hide IsField, Generates, IsSymbol, EncodedCodewords, ChooseMode, EncodedVersion, ReadSymbol, ReadBoth, SegmentBits, DataCodewords;
    hide Coloured, QrField;
    var field, version, matrix := WriteSymbol(text, level, mask);
    if matrix == null {
      return None;
    }
    ghost var g := matrix.grid;
    PrintedTextReads(field.F, text, level, mask, version, g);
    SquareSides(matrix.width, matrix.height, g, Dimension(version));
    MirroredIsRead(field.F, Picture(g), Dimension(version), text);
    var m := Print(matrix);
    var reading := DecodeBitMatrix(field, m);
    r := Some(reading);
  }

  /** In that field the eighth power of x is 29, the lower eight bits of 285; so it is the field of
      the polynomial of degree eight with the terms 8, 4, 3, 2 and 0. */
  lemma EighthPower()
    ensures QrField().exp(8) == 29
  {
    hide Generates, NextPower;
    DoublingBelow();
    assert Power(285, 8) == 29;
    QrGenerates();
    assert QrField() == TableField(285);
  }

  lemma DoublingBelow()
    ensures NextPower(285, 1) == 2 && NextPower(285, 2) == 4 && NextPower(285, 4) == 8 && NextPower(285, 8) == 16
    ensures NextPower(285, 16) == 32 && NextPower(285, 32) == 64 && NextPower(285, 64) == 128 && NextPower(285, 128) == 29
  {
    XorNothing();
  }

  lemma XorNothing()
    ensures Xor(0, 29) == 29
  {
  }

  lemma SquareSides(width: nat, height: nat, g: map<Cell, int>, dim: nat)
    requires forall c: Cell :: c in g <==> 0 <= c.x < width && 0 <= c.y < height
    requires PlacementRoundTrip.Square(g.Keys, dim) && dim > 0
    ensures width == height == dim
  {
    assert Cell(0, 0) in g && Cell(dim - 1, 0) in g && Cell(0, dim - 1) in g;
    assert Cell(dim, 0) !in g && Cell(0, dim) !in g;
  }
}
