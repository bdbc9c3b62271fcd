/** Drawing the reserved cells: finders, separators, timing, alignment, format and version. */
module PatternWriting {
  import opened BitMatrices
  import opened FunctionPatterns
  import opened MatrixWriting
  import opened PatternColours
  import opened Placement

  /** The 7 by 7 finder: a border, a white ring, a black heart. */
  function FinderModule(o: int, i: int): int {
    if o == 0 || o == 6 || i == 0 || i == 6 || (2 <= o <= 4 && 2 <= i <= 4) then 1 else 0
  }

  /** The 5 by 5 alignment pattern. */
  function AlignmentModule(o: int, i: int): int {
    if o == 0 || o == 4 || i == 0 || i == 4 || (o == 2 && i == 2) then 1 else 0
  }

  function White(o: int, i: int): int {
    0
  }

  /** Only the region changes, and becomes the pattern. */
  ghost predicate Drawn(g0: map<Cell, int>, g: map<Cell, int>, left: int, top: int, w: int, h: int, p: (int, int) -> int) {
    && g.Keys == g0.Keys
    && forall c :: c in g ==> g[c] == if InRegion(c, left, top, w, h) then p(c.x - left, c.y - top) else g0[c]
  }

  method EmbedPositionDetectionPattern(x: int, y: int, matrix: ByteMatrix)
    requires matrix.Valid() && 0 <= x && 0 <= y && x + 7 <= matrix.width && y + 7 <= matrix.height
    modifies matrix, matrix.bytes
    ensures matrix.Valid() && Drawn(old(matrix.grid), matrix.grid, x, y, 7, 7, FinderModule)
  {
    hide FinderModule;
    ghost var g0 := matrix.grid;
    for i := 0 to 7
      invariant matrix.Valid() && Drawn(g0, matrix.grid, x, y, 7, i, FinderModule)
    {
      for o := 0 to 7
        invariant matrix.Valid() && matrix.grid.Keys == g0.Keys
        invariant forall c :: c in matrix.grid ==>
                    matrix.grid[c] == if InRegion(c, x, y, 7, i) || InRegion(c, x, y + i, o, 1)
                                      then FinderModule(c.x - x, c.y - y) else g0[c]
      {
        matrix.SetNumber(x + o, y + i, FinderModule(o, i));
      }
    }
  }

  method EmbedPositionAdjustmentPattern(x: int, y: int, matrix: ByteMatrix)
    requires matrix.Valid() && 0 <= x && 0 <= y && x + 5 <= matrix.width && y + 5 <= matrix.height
    modifies matrix, matrix.bytes
    ensures matrix.Valid() && Drawn(old(matrix.grid), matrix.grid, x, y, 5, 5, AlignmentModule)
  {
    hide AlignmentModule;
    ghost var g0 := matrix.grid;
    for i := 0 to 5
      invariant matrix.Valid() && Drawn(g0, matrix.grid, x, y, 5, i, AlignmentModule)
    {
      for o := 0 to 5
        invariant matrix.Valid() && matrix.grid.Keys == g0.Keys
        invariant forall c :: c in matrix.grid ==>
                    matrix.grid[c] == if InRegion(c, x, y, 5, i) || InRegion(c, x, y + i, o, 1)
                                      then AlignmentModule(c.x - x, c.y - y) else g0[c]
      {
        matrix.SetNumber(x + o, y + i, AlignmentModule(o, i));
      }
    }
  }

  ghost predicate AllEmpty(g: map<Cell, int>, left: int, top: int, w: int, h: int) {
    forall c :: c in g && InRegion(c, left, top, w, h) ==> IsEmpty(g[c])
  }

  /** Eight white cells in a row; the program throws on a cell that is taken. */
  method EmbedHorizontalSeparationPattern(x: int, y: int, matrix: ByteMatrix) returns (ok: bool)
    requires matrix.Valid() && 0 <= x && 0 <= y && x + 8 <= matrix.width && y + 1 <= matrix.height
    modifies matrix, matrix.bytes
    ensures matrix.Valid() && matrix.grid.Keys == old(matrix.grid).Keys
    ensures ok <==> AllEmpty(old(matrix.grid), x, y, 8, 1)
    ensures ok ==> Drawn(old(matrix.grid), matrix.grid, x, y, 8, 1, White)
  {
    ghost var g0 := matrix.grid;
    for i := 0 to 8
      invariant matrix.Valid() && matrix.grid.Keys == g0.Keys && AllEmpty(g0, x, y, i, 1)
      invariant forall c :: c in matrix.grid ==>
                  matrix.grid[c] == if InRegion(c, x, y, i, 1) then 0 else g0[c]
    {
      var v := matrix.Get(x + i, y);
      if !IsEmpty(v) {
        assert InRegion(Cell(x + i, y), x, y, 8, 1) && !IsEmpty(g0[Cell(x + i, y)]);
        return false;
      }
      matrix.SetNumber(x + i, y, 0);
    }
    ok := true;
  }

  /** Seven white cells in a column. */
  method EmbedVerticalSeparationPattern(x: int, y: int, matrix: ByteMatrix) returns (ok: bool)
    requires matrix.Valid() && 0 <= x && 0 <= y && x + 1 <= matrix.width && y + 7 <= matrix.height
    modifies matrix, matrix.bytes
    ensures matrix.Valid() && matrix.grid.Keys == old(matrix.grid).Keys
    ensures ok <==> AllEmpty(old(matrix.grid), x, y, 1, 7)
    ensures ok ==> Drawn(old(matrix.grid), matrix.grid, x, y, 1, 7, White)
  {
    ghost var g0 := matrix.grid;
    for i := 0 to 7
      invariant matrix.Valid() && matrix.grid.Keys == g0.Keys && AllEmpty(g0, x, y, 1, i)
      invariant forall c :: c in matrix.grid ==>
                  matrix.grid[c] == if InRegion(c, x, y, 1, i) then 0 else g0[c]
    {
      var v := matrix.Get(x, y + i);
      if !IsEmpty(v) {
        assert InRegion(Cell(x, y + i), x, y, 1, 7) && !IsEmpty(g0[Cell(x, y + i)]);
        return false;
      }
      matrix.SetNumber(x, y + i, 0);
    }
    ok := true;
  }

  /** Drawn cells are 0 or 1, and the others empty. */
  ghost predicate Reserves(g: map<Cell, int>, s: Cell -> bool) {
    forall c :: c in g ==> if s(c) then g[c] == 0 || g[c] == 1 else IsEmpty(g[c])
  }

  /** The first k of the nine parts of the finders. */
  predicate Part(dim: int, k: int, c: Cell) {
    || (k >= 1 && InRegion(c, 0, 0, 7, 7)) || (k >= 2 && InRegion(c, dim - 7, 0, 7, 7))
    || (k >= 3 && InRegion(c, 0, dim - 7, 7, 7)) || (k >= 4 && InRegion(c, 0, 7, 8, 1))
    || (k >= 5 && InRegion(c, dim - 8, 7, 8, 1)) || (k >= 6 && InRegion(c, 0, dim - 8, 8, 1))
    || (k >= 7 && InRegion(c, 7, 0, 1, 7)) || (k >= 8 && InRegion(c, dim - 8, 0, 1, 7))
    || (k >= 9 && InRegion(c, 7, dim - 7, 1, 7))
  }

  /** The first k parts have their colours, and the other cells are empty. */
  ghost predicate PartDrawn(clean: bool, g: map<Cell, int>, dim: int, k: int) {
    clean ==> forall c :: c in g ==> if Part(dim, k, c) then g[c] == FinderColour(dim, c) else IsEmpty(g[c])
  }

  lemma PartsStart(g: map<Cell, int>, dim: int)
    ensures PartDrawn(Reserves(g, c => false), g, dim, 0)
  {
  }

  /** A finder is the next part. */
  lemma FinderPart(clean: bool, g0: map<Cell, int>, g: map<Cell, int>, dim: int, k: int, left: int, top: int)
    requires PartDrawn(clean, g0, dim, k) && Drawn(g0, g, left, top, 7, 7, FinderModule) && dim >= 21
    requires (k == 0 && left == 0 && top == 0) || (k == 1 && left == dim - 7 && top == 0)
             || (k == 2 && left == 0 && top == dim - 7)
    ensures PartDrawn(clean, g, dim, k + 1)
  {
    hide FinderModule, FinderColour;
    if clean {
      forall c | c in g
        ensures if Part(dim, k + 1, c) then g[c] == FinderColour(dim, c) else IsEmpty(g[c])
      {
        if InRegion(c, left, top, 7, 7) {
          FinderModuleColour(dim, left, top, c);
        }
      }
    }
  }

  /** The module drawn has the colour of its ring. */
  lemma FinderModuleColour(dim: int, left: int, top: int, c: Cell)
    requires dim >= 21 && InRegion(c, left, top, 7, 7)
    requires (left == 0 && top == 0) || (left == dim - 7 && top == 0) || (left == 0 && top == dim - 7)
    ensures FinderModule(c.x - left, c.y - top) == FinderColour(dim, c)
  {
  }

  lemma SeparatorColour(dim: int, k: int, left: int, top: int, w: int, h: int, c: Cell)
    requires dim >= 21 && IsSeparator(dim, k, left, top, w, h) && InRegion(c, left, top, w, h)
    ensures FinderColour(dim, c) == 0
  {
  }

  predicate IsSeparator(dim: int, k: int, left: int, top: int, w: int, h: int) {
    || (k == 3 && left == 0 && top == 7 && w == 8 && h == 1)
    || (k == 4 && left == dim - 8 && top == 7 && w == 8 && h == 1)
    || (k == 5 && left == 0 && top == dim - 8 && w == 8 && h == 1)
    || (k == 6 && left == 7 && top == 0 && w == 1 && h == 7)
    || (k == 7 && left == dim - 8 && top == 0 && w == 1 && h == 7)
    || (k == 8 && left == 7 && top == dim - 7 && w == 1 && h == 7)
  }

  /** The cells of the next separator are free. */
  lemma SeparatorFree(clean: bool, g: map<Cell, int>, dim: int, k: int, left: int, top: int, w: int, h: int)
    requires PartDrawn(clean, g, dim, k) && dim >= 21 && IsSeparator(dim, k, left, top, w, h)
    requires forall c :: c in g ==> 0 <= c.x < dim && 0 <= c.y < dim
    ensures clean ==> AllEmpty(g, left, top, w, h)
  {
  }

  /** A separator is the next part. */
  lemma SeparatorPart(clean: bool, g0: map<Cell, int>, g: map<Cell, int>, dim: int, k: int, left: int, top: int, w: int, h: int)
    requires PartDrawn(clean, g0, dim, k) && IsSeparator(dim, k, left, top, w, h) && Drawn(g0, g, left, top, w, h, White)
    requires dim >= 21
    ensures PartDrawn(clean, g, dim, k + 1)
  {
    hide FinderColour;
    if clean {
      forall c | c in g
        ensures if Part(dim, k + 1, c) then g[c] == FinderColour(dim, c) else IsEmpty(g[c])
      {
        if InRegion(c, left, top, w, h) {
          SeparatorColour(dim, k, left, top, w, h, c);
        }
      }
    }
  }

  lemma PartsEnd(clean: bool, g: map<Cell, int>, dim: int)
    requires PartDrawn(clean, g, dim, 9) && dim >= 21
    requires forall c :: c in g ==> 0 <= c.x < dim && 0 <= c.y < dim
    ensures clean ==> Reserves(g, c => FinderCell(dim, c)) && FindersColoured(g, dim)
  {
    hide FindersColoured;
    if clean {
      forall c | c in g && FinderCell(dim, c) ensures g[c] == FinderColour(dim, c) {
      }
      ColoursByPart(g, dim);
      forall c | c in g ensures if FinderCell(dim, c) then g[c] == 0 || g[c] == 1 else IsEmpty(g[c]) {
      }
    }
  }

  /** The six separators. */
  method EmbedSeparators(matrix: ByteMatrix, ghost clean: bool) returns (ok: bool)
    requires matrix.Valid() && matrix.width == matrix.height >= 21
    requires PartDrawn(clean, matrix.grid, matrix.width, 3)
    modifies matrix, matrix.bytes
    ensures matrix.Valid() && matrix.grid.Keys == old(matrix.grid).Keys
    ensures clean ==> ok
    ensures ok ==> PartDrawn(clean, matrix.grid, matrix.width, 9)
  {
    hide PartDrawn, Drawn, AllEmpty;
    var dim: int := matrix.width;
    label S3:
    SeparatorFree(clean, matrix.grid, dim, 3, 0, 7, 8, 1);
    ok := EmbedHorizontalSeparationPattern(0, 7, matrix);
    if !ok {
      return;
    }
    SeparatorPart(clean, old@S3(matrix.grid), matrix.grid, dim, 3, 0, 7, 8, 1);
    label S4:
    SeparatorFree(clean, matrix.grid, dim, 4, dim - 8, 7, 8, 1);
    ok := EmbedHorizontalSeparationPattern(dim - 8, 7, matrix);
    if !ok {
      return;
    }
    SeparatorPart(clean, old@S4(matrix.grid), matrix.grid, dim, 4, dim - 8, 7, 8, 1);
    label S5:
    SeparatorFree(clean, matrix.grid, dim, 5, 0, dim - 8, 8, 1);
    ok := EmbedHorizontalSeparationPattern(0, dim - 8, matrix);
    if !ok {
      return;
    }
    SeparatorPart(clean, old@S5(matrix.grid), matrix.grid, dim, 5, 0, dim - 8, 8, 1);
    label S6:
    SeparatorFree(clean, matrix.grid, dim, 6, 7, 0, 1, 7);
    ok := EmbedVerticalSeparationPattern(7, 0, matrix);
    if !ok {
      return;
    }
    SeparatorPart(clean, old@S6(matrix.grid), matrix.grid, dim, 6, 7, 0, 1, 7);
    label S7:
    SeparatorFree(clean, matrix.grid, dim, 7, dim - 8, 0, 1, 7);
    ok := EmbedVerticalSeparationPattern(dim - 8, 0, matrix);
    if !ok {
      return;
    }
    SeparatorPart(clean, old@S7(matrix.grid), matrix.grid, dim, 7, dim - 8, 0, 1, 7);
    label S8:
    SeparatorFree(clean, matrix.grid, dim, 8, 7, dim - 7, 1, 7);
    ok := EmbedVerticalSeparationPattern(7, dim - 7, matrix);
    if !ok {
      return;
    }
    SeparatorPart(clean, old@S8(matrix.grid), matrix.grid, dim, 8, 7, dim - 7, 1, 7);
  }

  /** The three finders with their separators.  On an empty symbol nothing is thrown. */
  method EmbedPositionDetectionPatternsAndSeparators(matrix: ByteMatrix) returns (ok: bool)
    requires matrix.Valid() && matrix.width == matrix.height >= 21
    modifies matrix, matrix.bytes
    ensures matrix.Valid() && matrix.grid.Keys == old(matrix.grid).Keys
    ensures Reserves(old(matrix.grid), c => false) ==> ok && Reserves(matrix.grid, c => FinderCell(matrix.width, c))
    ensures Reserves(old(matrix.grid), c => false) ==> FindersColoured(matrix.grid, matrix.width)
  {
    hide PartDrawn, Reserves, FindersColoured;
    var dim: int := matrix.width;
    ghost var clean := Reserves(matrix.grid, c => false);
    PartsStart(matrix.grid, dim);
    label L0:
    EmbedPositionDetectionPattern(0, 0, matrix);
    FinderPart(clean, old@L0(matrix.grid), matrix.grid, dim, 0, 0, 0);
    label L1:
    EmbedPositionDetectionPattern(dim - 7, 0, matrix);
    FinderPart(clean, old@L1(matrix.grid), matrix.grid, dim, 1, dim - 7, 0);
    label L2:
    EmbedPositionDetectionPattern(0, dim - 7, matrix);
    FinderPart(clean, old@L2(matrix.grid), matrix.grid, dim, 2, 0, dim - 7);
    ok := EmbedSeparators(matrix, clean);
    if !ok {
      return;
    }
    PartsEnd(clean, matrix.grid, dim);
  }
}
