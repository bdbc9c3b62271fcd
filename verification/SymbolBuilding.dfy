/** Building the whole symbol: the remaining reserved areas, and then the data. */
module SymbolBuilding {
  import opened FunctionPatterns
  import opened MatrixWriting
  import opened PatternColours
  import opened PatternWriting
  import opened Placement

  /** The black module beside the lower left finder; the program throws when its cell is white. */
  method EmbedDarkDotAtLeftBottomCorner(matrix: ByteMatrix) returns (ok: bool)
    requires matrix.Valid() && matrix.width >= 9 && matrix.height >= 8
    modifies matrix, matrix.bytes
    ensures matrix.Valid()
    ensures ok <==> old(matrix.grid)[Cell(8, matrix.height - 8)] != 0
    ensures matrix.grid == if ok then old(matrix.grid)[Cell(8, matrix.height - 8) := 1] else old(matrix.grid)
  {
    var v := matrix.Get(8, matrix.height - 8);
    if v == 0 {
      return false;
    }
    matrix.SetNumber(8, matrix.height - 8, 1);
    ok := true;
  }

  // ---- Timing

  ghost predicate Timed(g0: map<Cell, int>, g: map<Cell, int>, t: int) {
    && g.Keys == g0.Keys
    && forall c :: c in g ==>
         g[c] == if IsEmpty(g0[c]) && c.y == 6 && 8 <= c.x < t then (c.x + 1) % 2
                 else if IsEmpty(g0[c]) && c.x == 6 && 8 <= c.y < t then (c.y + 1) % 2
                 else g0[c]
  }

  lemma TimedStep(g0: map<Cell, int>, g: map<Cell, int>, t: int)
    requires Timed(g0, g, t) && t >= 8 && Cell(t, 6) in g && Cell(6, t) in g
    ensures g[Cell(t, 6)] == g0[Cell(t, 6)] && g[Cell(6, t)] == g0[Cell(6, t)]
    ensures var h := if IsEmpty(g0[Cell(t, 6)]) then g[Cell(t, 6) := (t + 1) % 2] else g;
            Timed(g0, if IsEmpty(g0[Cell(6, t)]) then h[Cell(6, t) := (t + 1) % 2] else h, t + 1)
  {
  }

  /** Alternating modules in row 6 and column 6, on the cells that are free. */
  method EmbedTimingPatterns(matrix: ByteMatrix)
    requires matrix.Valid() && matrix.width == matrix.height >= 21
    modifies matrix, matrix.bytes
    ensures matrix.Valid() && Timed(old(matrix.grid), matrix.grid, matrix.width - 8)
  {
    hide Timed;
    ghost var g0 := matrix.grid;
    var dim: int := matrix.width;
    TimedNone(g0);
    for t := 8 to dim - 8
      invariant matrix.Valid() && Timed(g0, matrix.grid, t)
    {
      TimedStep(g0, matrix.grid, t);
      var bit := (t + 1) % 2;
      var v := matrix.Get(t, 6);
      if IsEmpty(v) {
        matrix.SetNumber(t, 6, bit);
      }
      v := matrix.Get(6, t);
      if IsEmpty(v) {
        matrix.SetNumber(6, t, bit);
      }
    }
  }

  lemma TimedNone(g: map<Cell, int>)
    ensures Timed(g, g, 8)
  {
  }

  // ---- Alignment

  /** The cells taken before the alignment patterns are drawn. */
  predicate Corners(dim: int, c: Cell) {
    FinderCell(dim, c) || DarkCell(dim, c)
  }

  ghost predicate AlignedSoFar(g: map<Cell, int>, dim: int, centres: seq<int>, i: int, o: int) {
    forall c :: c in g ==>
      if Corners(dim, c) || FunctionPatterns.Drawn(centres, i, o, c) then g[c] == 0 || g[c] == 1 else IsEmpty(g[c])
  }

  /** A centre is free exactly when it is not one of the three on the finders. */
  lemma CentreFree(g: map<Cell, int>, dim: int, centres: seq<int>, i: int, o: int)
    requires AlignedSoFar(g, dim, centres, i, o) && GoodCentres(centres, dim) && dim >= 21
    requires 0 <= i < |centres| && 0 <= o < |centres| && Cell(centres[o], centres[i]) in g
    ensures IsEmpty(g[Cell(centres[o], centres[i])]) <==> !Corner(i, o, |centres|)
  {
    hide FunctionPatterns.Drawn;
    var c := Cell(centres[o], centres[i]);
    CentreInside(centres, dim, i);
    CentreInside(centres, dim, o);
    NotDrawn(centres, dim, i, o, c);
  }

  /** The alignment patterns do not overlap. */
  lemma NotDrawn(centres: seq<int>, dim: int, i: int, o: int, c: Cell)
    requires GoodCentres(centres, dim) && 0 <= i < |centres| && 0 <= o < |centres| && InBox(c, centres[o], centres[i])
    ensures !FunctionPatterns.Drawn(centres, i, o, c)
  {
    forall k: int, l: int | k < i || (k == i && l < o) ensures !InAlignment(centres, k, l, c) {
      if 0 <= k < |centres| && 0 <= l < |centres| {
        if k < i {
          assert centres[k] + 5 <= centres[i];
        } else {
          assert centres[l] + 5 <= centres[o];
        }
      }
    }
  }

  lemma BoxFree(g: map<Cell, int>, dim: int, centres: seq<int>, i: int, o: int, c: Cell)
    requires AlignedSoFar(g, dim, centres, i, o) && GoodCentres(centres, dim) && dim >= 21
    requires InAlignment(centres, i, o, c) && c in g
    ensures IsEmpty(g[c])
  {
    hide FunctionPatterns.Drawn, GoodCentres;
    AlignmentClear(centres, dim, i, o, c);
    NotDrawn(centres, dim, i, o, c);
  }

  /** A pattern is drawn on empty cells, in its colours, and the earlier ones stay. */
  lemma AlignmentStep(g: map<Cell, int>, g': map<Cell, int>, dim: int, centres: seq<int>, i: int, o: int)
    requires AlignedSoFar(g, dim, centres, i, o) && 0 <= i < |centres| && 0 <= o < |centres|
    requires GoodCentres(centres, dim) && dim >= 21
    requires if Corner(i, o, |centres|) then g' == g
             else PatternWriting.Drawn(g, g', centres[o] - 2, centres[i] - 2, 5, 5, AlignmentModule)
    requires AlignmentsSoFar(g, centres, i, o)
    ensures Keeps(g, g') && AlignmentsSoFar(g', centres, i, o + 1)
  {
    hide GoodCentres, AlignedSoFar, AlignmentColoured, AlignmentModule;
    if !Corner(i, o, |centres|) {
      forall c | c in g && !IsEmpty(g[c]) ensures g'[c] == g[c] {
        if InBox(c, centres[o], centres[i]) {
          BoxFree(g, dim, centres, i, o, c);
        }
      }
      PatternColour(g, g', centres[o], centres[i]);
    }
    SoFarKept(g, g', centres, i, o);
  }

  lemma PatternColour(g: map<Cell, int>, g': map<Cell, int>, x: int, y: int)
    requires PatternWriting.Drawn(g, g', x - 2, y - 2, 5, 5, AlignmentModule)
    ensures AlignmentColoured(g', x, y)
  {
    hide AlignmentModule, Ring;
    forall c | c in g' && InBox(c, x, y) ensures g'[c] == if Ring(c, x, y) == 1 then 0 else 1 {
      ModuleColour(c, x, y);
    }
  }

  lemma ModuleColour(c: Cell, x: int, y: int)
    requires InBox(c, x, y)
    ensures AlignmentModule(c.x - (x - 2), c.y - (y - 2)) == if Ring(c, x, y) == 1 then 0 else 1
  {
  }

  lemma NextRow(g: map<Cell, int>, centres: seq<int>, i: int)
    requires AlignmentsSoFar(g, centres, i, |centres|)
    ensures AlignmentsSoFar(g, centres, i + 1, 0)
  {
    hide AlignmentColoured, Corner;
  }

  lemma AllRows(g: map<Cell, int>, centres: seq<int>)
    requires AlignmentsSoFar(g, centres, |centres|, 0)
    ensures AlignmentsColoured(g, centres)
  {
    hide AlignmentColoured, Corner;
  }

  lemma NoRows(g: map<Cell, int>, centres: seq<int>)
    ensures AlignmentsSoFar(g, centres, 0, 0)
  {
    hide AlignmentColoured, Corner;
  }

  lemma AlignedStep(g: map<Cell, int>, g': map<Cell, int>, dim: int, centres: seq<int>, i: int, o: int)
    requires AlignedSoFar(g, dim, centres, i, o) && 0 <= i < |centres| && 0 <= o < |centres|
    requires if Corner(i, o, |centres|) then g' == g
             else PatternWriting.Drawn(g, g', centres[o] - 2, centres[i] - 2, 5, 5, AlignmentModule)
    ensures AlignedSoFar(g', dim, centres, i, o + 1)
  {
    hide FunctionPatterns.Drawn, AlignmentModule;
    AlignmentModules();
    forall c | c in g'
      ensures if Corners(dim, c) || FunctionPatterns.Drawn(centres, i, o + 1, c) then g'[c] == 0 || g'[c] == 1
              else IsEmpty(g'[c])
    {
      DrawnStep(centres, i, o, c);
    }
  }

  lemma AlignmentModules()
    ensures forall o, i :: AlignmentModule(o, i) == 0 || AlignmentModule(o, i) == 1
  {
  }

  lemma AlignedRow(g: map<Cell, int>, dim: int, centres: seq<int>, i: int)
    requires AlignedSoFar(g, dim, centres, i, |centres|)
    ensures AlignedSoFar(g, dim, centres, i + 1, 0)
  {
    hide FunctionPatterns.Drawn;
    forall c | c in g
      ensures FunctionPatterns.Drawn(centres, i, |centres|, c) <==> FunctionPatterns.Drawn(centres, i + 1, 0, c)
    {
      DrawnRow(centres, i, c);
    }
  }

  lemma AlignedNone(g: map<Cell, int>, dim: int, centres: seq<int>)
    requires Reserves(g, c => Corners(dim, c))
    ensures AlignedSoFar(g, dim, centres, 0, 0)
  {
    hide FunctionPatterns.Drawn;
    forall c | c in g ensures !FunctionPatterns.Drawn(centres, 0, 0, c) {
      DrawnNone(centres, c);
    }
  }

  ghost predicate BeforeTiming(dim: int, centres: seq<int>, c: Cell) {
    Corners(dim, c) || AlignmentCell(centres, c)
  }

  lemma AlignedAll(g: map<Cell, int>, dim: int, centres: seq<int>)
    requires AlignedSoFar(g, dim, centres, |centres|, 0)
    ensures Reserves(g, c => BeforeTiming(dim, centres, c))
  {
    hide FunctionPatterns.Drawn, AlignmentCell;
    forall c | c in g ensures FunctionPatterns.Drawn(centres, |centres|, 0, c) <==> AlignmentCell(centres, c) {
      DrawnAll(centres, c);
    }
  }

  lemma CoordinateUsed(coordinates: seq<int>, centres: seq<int>, dim: int, a: nat)
    requires GoodCentres(centres, dim) && dim >= 21 && a < |coordinates|
    requires centres <= coordinates && forall k :: |centres| <= k < |coordinates| ==> coordinates[k] == -1
    ensures a < |centres| <==> coordinates[a] >= 0
    ensures a < |centres| ==> coordinates[a] == centres[a] && 6 <= centres[a] <= dim - 7
  {
    if a < |centres| {
      CentreInside(centres, dim, a);
    }
  }

  /** An alignment pattern around every pair of centres, unless the centre is taken.  The row
      of the table ends in unused places of value -1. */
  method EmbedPositionAdjustmentPatterns(coordinates: seq<int>, matrix: ByteMatrix, ghost centres: seq<int>)
    requires matrix.Valid() && matrix.width == matrix.height >= 21 && GoodCentres(centres, matrix.width)
    requires centres <= coordinates && forall k :: |centres| <= k < |coordinates| ==> coordinates[k] == -1
    requires Reserves(matrix.grid, c => Corners(matrix.width, c))
    modifies matrix, matrix.bytes
    ensures matrix.Valid() && matrix.grid.Keys == old(matrix.grid).Keys
    ensures Reserves(matrix.grid, c => BeforeTiming(matrix.width, centres, c))
    ensures Keeps(old(matrix.grid), matrix.grid) && AlignmentsColoured(matrix.grid, centres)
  {
    hide AlignedSoFar, PatternWriting.Drawn, GoodCentres, Reserves, Keeps, AlignmentsSoFar;
    ghost var g0 := matrix.grid;
    ghost var dim: int := matrix.width;
    ghost var n := |centres|;
    AlignedNone(g0, dim, centres);
    NoRows(g0, centres);
    KeepsItself(g0);
    for a := 0 to |coordinates|
      invariant matrix.Valid() && matrix.grid.Keys == g0.Keys && Keeps(g0, matrix.grid)
      invariant AlignedSoFar(matrix.grid, dim, centres, if a < n then a else n, 0)
      invariant AlignmentsSoFar(matrix.grid, centres, if a < n then a else n, 0)
    {
      var y := coordinates[a];
      CoordinateUsed(coordinates, centres, dim, a);
      if y >= 0 {
        AlignmentRow(coordinates, a, matrix, g0, centres);
        AlignedRow(matrix.grid, dim, centres, a);
        NextRow(matrix.grid, centres, a);
      }
    }
    AlignedAll(matrix.grid, dim, centres);
    AllRows(matrix.grid, centres);
  }

  /** The patterns of one row of centres. */
  method AlignmentRow(coordinates: seq<int>, a: nat, matrix: ByteMatrix, ghost g0: map<Cell, int>, ghost centres: seq<int>)
    requires matrix.Valid() && matrix.width == matrix.height >= 21 && GoodCentres(centres, matrix.width)
    requires centres <= coordinates && forall k :: |centres| <= k < |coordinates| ==> coordinates[k] == -1
    requires a < |centres| && AlignedSoFar(matrix.grid, matrix.width, centres, a, 0)
    requires Keeps(g0, matrix.grid) && AlignmentsSoFar(matrix.grid, centres, a, 0)
    modifies matrix, matrix.bytes
    ensures matrix.Valid() && matrix.grid.Keys == g0.Keys
    ensures AlignedSoFar(matrix.grid, matrix.width, centres, a, |centres|)
    ensures Keeps(g0, matrix.grid) && AlignmentsSoFar(matrix.grid, centres, a, |centres|)
  {
    hide AlignedSoFar, GoodCentres, Keeps, AlignmentsSoFar, PatternWriting.Drawn;
    KeptKeys(g0, matrix.grid);
    ghost var dim: int := matrix.width;
    ghost var n := |centres|;
    var y := coordinates[a];
    CoordinateUsed(coordinates, centres, dim, a);
    for u := 0 to |coordinates|
      invariant matrix.Valid() && matrix.grid.Keys == g0.Keys && Keeps(g0, matrix.grid)
      invariant AlignedSoFar(matrix.grid, dim, centres, a, if u < n then u else n)
      invariant AlignmentsSoFar(matrix.grid, centres, a, if u < n then u else n)
    {
      var x := coordinates[u];
      CoordinateUsed(coordinates, centres, dim, u);
      if x >= 0 {
        ghost var g := matrix.grid;
        CentreFree(g, dim, centres, a, u);
        var v := matrix.Get(x, y);
        if IsEmpty(v) {
          EmbedPositionAdjustmentPattern(x - 2, y - 2, matrix);
        }
        AlignedStep(g, matrix.grid, dim, centres, a, u);
        AlignmentStep(g, matrix.grid, dim, centres, a, u);
        KeepsTwice(g0, g, matrix.grid);
        KeptKeys(g0, matrix.grid);
      }
    }
  }

  // ---- Format information

  /** Where bit a of the format information goes, counted from the lowest, in the first copy. */
  function TypeCell1(a: nat): Cell
    requires a < 15
  {
    if a < 6 then Cell(8, a) else if a < 8 then Cell(8, a + 1) else if a == 8 then Cell(7, 8) else Cell(14 - a, 8)
  }

  /** The same in the second copy, split between the two other finders. */
  function TypeCell2(dim: int, a: nat): Cell
    requires a < 15
  {
    if a < 8 then Cell(dim - a - 1, 8) else Cell(8, dim - 7 + (a - 8))
  }

  function Bit(b: bool): int {
    if b then 1 else 0
  }

  /** Both copies of the lowest n bits are in place, and nothing else changed. */
  ghost predicate TypePlaced(g0: map<Cell, int>, g: map<Cell, int>, dim: int, bits: seq<bool>, n: nat)
    requires |bits| == 15 && n <= 15
  {
    && g.Keys == g0.Keys
    && (forall a :: 0 <= a < n ==> TypeCell1(a) in g && g[TypeCell1(a)] == Bit(bits[14 - a]))
    && (forall a :: 0 <= a < n ==> TypeCell2(dim, a) in g && g[TypeCell2(dim, a)] == Bit(bits[14 - a]))
    && (forall c :: c in g && (forall a :: 0 <= a < n ==> c != TypeCell1(a) && c != TypeCell2(dim, a)) ==> g[c] == g0[c])
  }

  lemma TypeStep(g0: map<Cell, int>, g: map<Cell, int>, dim: int, bits: seq<bool>, n: nat)
    requires |bits| == 15 && n < 15 && dim >= 21 && TypePlaced(g0, g, dim, bits, n)
    requires TypeCell1(n) in g && TypeCell2(dim, n) in g
    ensures TypePlaced(g0, g[TypeCell1(n) := Bit(bits[14 - n])][TypeCell2(dim, n) := Bit(bits[14 - n])], dim, bits, n + 1)
  {
  }

  method EmbedTypeInfo(bits: seq<bool>, matrix: ByteMatrix)
    requires |bits| == 15 && matrix.Valid() && matrix.width == matrix.height >= 21
    modifies matrix, matrix.bytes
    ensures matrix.Valid() && TypePlaced(old(matrix.grid), matrix.grid, matrix.width, bits, 15)
  {
    hide TypePlaced;
    ghost var g0 := matrix.grid;
    var dim: int := matrix.width;
    TypeNone(g0, dim, bits);
    for a := 0 to 15
      invariant matrix.Valid() && TypePlaced(g0, matrix.grid, dim, bits, a)
    {
      TypeStep(g0, matrix.grid, dim, bits, a);
      var bit := bits[15 - 1 - a];
      var c := TypeCell1(a);
      matrix.SetBoolean(c.x, c.y, bit);
      if a < 8 {
        matrix.SetBoolean(matrix.width - a - 1, 8, bit);
      } else {
        matrix.SetBoolean(8, matrix.height - 7 + (a - 8), bit);
      }
    }
  }

  lemma TypeNone(g: map<Cell, int>, dim: int, bits: seq<bool>)
    requires |bits| == 15
    ensures TypePlaced(g, g, dim, bits, 0)
  {
  }

  /** The cells of the format information are those of its area. */
  lemma TypeCells(dim: int, c: Cell)
    requires dim >= 21
    ensures TypeCell(dim, c) <==> exists a :: 0 <= a < 15 && (c == TypeCell1(a) || c == TypeCell2(dim, a))
  {
    if TypeCell(dim, c) {
      var a := if c.x == 8 && c.y <= 8 then (if c.y < 6 then c.y else c.y - 1)
               else if c.y == 8 && c.x < 8 then (if c.x == 7 then 8 else 14 - c.x)
               else if c.y == 8 then dim - 1 - c.x
               else c.y - dim + 15;
      assert 0 <= a < 15 && (c == TypeCell1(a) || c == TypeCell2(dim, a));
    }
  }

  // ---- Version information

  /** Where bit 3 * a + o of the version information goes. */
  function VersionCell1(dim: int, a: int, o: int): Cell {
    Cell(a, dim - 11 + o)
  }

  function VersionCell2(dim: int, a: int, o: int): Cell {
    Cell(dim - 11 + o, a)
  }

  ghost predicate VersionPlaced(g0: map<Cell, int>, g: map<Cell, int>, dim: int, bits: seq<bool>, n: nat)
    requires |bits| == 18 && n <= 18
  {
    && g.Keys == g0.Keys
    && (forall a, o :: 0 <= a && 0 <= o < 3 && 3 * a + o < n ==>
          VersionCell1(dim, a, o) in g && g[VersionCell1(dim, a, o)] == Bit(bits[17 - (3 * a + o)]))
    && (forall a, o :: 0 <= a && 0 <= o < 3 && 3 * a + o < n ==>
          VersionCell2(dim, a, o) in g && g[VersionCell2(dim, a, o)] == Bit(bits[17 - (3 * a + o)]))
    && (forall c :: c in g && !(VersionCell(dim, c)) ==> g[c] == g0[c])
  }

  lemma VersionStep(g0: map<Cell, int>, g: map<Cell, int>, dim: int, bits: seq<bool>, a: nat, o: nat)
    requires |bits| == 18 && a < 6 && o < 3 && dim >= 45 && VersionPlaced(g0, g, dim, bits, 3 * a + o)
    requires VersionCell1(dim, a, o) in g && VersionCell2(dim, a, o) in g
    ensures VersionPlaced(g0, g[VersionCell1(dim, a, o) := Bit(bits[17 - (3 * a + o)])]
                               [VersionCell2(dim, a, o) := Bit(bits[17 - (3 * a + o)])], dim, bits, 3 * a + o + 1)
  {
    hide Bit;
    var v := Bit(bits[17 - (3 * a + o)]);
    var p, q := VersionCell1(dim, a, o), VersionCell2(dim, a, o);
    var g' := g[p := v][q := v];
    forall b, r | 0 <= b && 0 <= r < 3 && 3 * b + r < 3 * a + o + 1
      ensures VersionCell1(dim, b, r) in g' && g'[VersionCell1(dim, b, r)] == Bit(bits[17 - (3 * b + r)])
      ensures VersionCell2(dim, b, r) in g' && g'[VersionCell2(dim, b, r)] == Bit(bits[17 - (3 * b + r)])
    {
      if 3 * b + r == 3 * a + o {
        assert b == a && r == o;
      }
    }
  }

  method EmbedVersionInfo(bits: seq<bool>, matrix: ByteMatrix)
    requires |bits| == 18 && matrix.Valid() && matrix.width == matrix.height >= 45
    modifies matrix, matrix.bytes
    ensures matrix.Valid() && VersionPlaced(old(matrix.grid), matrix.grid, matrix.width, bits, 18)
  {
    hide VersionPlaced;
    ghost var g0 := matrix.grid;
    var dim: int := matrix.width;
    VersionNone(g0, dim, bits);
    var i: int := 17;
    for a := 0 to 6
      invariant i == 17 - 3 * a
      invariant matrix.Valid() && VersionPlaced(g0, matrix.grid, dim, bits, 3 * a)
    {
      for o := 0 to 3
        invariant i == 17 - (3 * a + o)
        invariant matrix.Valid() && VersionPlaced(g0, matrix.grid, dim, bits, 3 * a + o)
      {
        VersionStep(g0, matrix.grid, dim, bits, a, o);
        var bit := bits[i];
        i := i - 1;
        matrix.SetBoolean(a, matrix.height - 11 + o, bit);
        matrix.SetBoolean(matrix.height - 11 + o, a, bit);
      }
    }
  }

  lemma VersionNone(g: map<Cell, int>, dim: int, bits: seq<bool>)
    requires |bits| == 18
    ensures VersionPlaced(g, g, dim, bits, 0)
  {
  }

  lemma VersionCells(dim: int, c: Cell)
    requires VersionCell(dim, c)
    ensures exists a, o :: 0 <= a && 0 <= o < 3 && 3 * a + o < 18
                           && (c == VersionCell1(dim, a, o) || c == VersionCell2(dim, a, o))
  {
    if 0 <= c.x < 6 && dim - 11 <= c.y < dim - 8 {
      assert c == VersionCell1(dim, c.x, c.y - dim + 11) && 3 * c.x + (c.y - dim + 11) < 18;
    } else {
      assert c == VersionCell2(dim, c.y, c.x - dim + 11) && 3 * c.y + (c.x - dim + 11) < 18;
    }
  }

  // ---- The whole reserved area

  ghost predicate HasTypeInfo(g: map<Cell, int>, dim: int, bits: seq<bool>)
    requires |bits| == 15
  {
    forall a :: 0 <= a < 15 ==>
      && TypeCell1(a) in g && g[TypeCell1(a)] == Bit(bits[14 - a])
      && TypeCell2(dim, a) in g && g[TypeCell2(dim, a)] == Bit(bits[14 - a])
  }

  ghost predicate HasVersionInfo(g: map<Cell, int>, dim: int, bits: seq<bool>)
    requires |bits| == 18
  {
    forall a, o :: 0 <= a < 6 && 0 <= o < 3 ==>
      && VersionCell1(dim, a, o) in g && g[VersionCell1(dim, a, o)] == Bit(bits[17 - (3 * a + o)])
      && VersionCell2(dim, a, o) in g && g[VersionCell2(dim, a, o)] == Bit(bits[17 - (3 * a + o)])
  }

  ghost predicate BeforeType(dim: int, centres: seq<int>, c: Cell) {
    BeforeTiming(dim, centres, c) || TimingCell(dim, c)
  }

  ghost predicate BeforeVersion(dim: int, centres: seq<int>, c: Cell) {
    BeforeType(dim, centres, c) || TypeCell(dim, c)
  }

  lemma AfterTiming(g0: map<Cell, int>, g: map<Cell, int>, dim: int, centres: seq<int>)
    requires Reserves(g0, c => BeforeTiming(dim, centres, c)) && Timed(g0, g, dim - 8)
    ensures Reserves(g, c => BeforeType(dim, centres, c))
  {
    hide BeforeTiming;
  }

  /** The timing patterns fill empty cells only, and get their colours. */
  lemma TimingDrawn(g0: map<Cell, int>, g: map<Cell, int>, dim: int, centres: seq<int>)
    requires Reserves(g0, c => BeforeTiming(dim, centres, c)) && Timed(g0, g, dim - 8) && dim >= 21
    ensures Keeps(g0, g) && TimingColoured(g, dim, centres)
  {
    hide AlignmentCell;
  }

  /** The format information is put into empty cells. */
  lemma TypeKeeps(g0: map<Cell, int>, g: map<Cell, int>, dim: int, centres: seq<int>, bits: seq<bool>)
    requires |bits| == 15 && dim >= 21 && GoodCentres(centres, dim)
    requires Reserves(g0, c => BeforeType(dim, centres, c)) && TypePlaced(g0, g, dim, bits, 15)
    ensures Keeps(g0, g)
  {
    hide TypeCell1, TypeCell2, GoodCentres;
    forall c | c in g0 && !IsEmpty(g0[c]) ensures g[c] == g0[c] {
      TypeFree(dim, centres, c);
      TypeCells(dim, c);
    }
  }

  lemma TypeFree(dim: int, centres: seq<int>, c: Cell)
    requires dim >= 21 && GoodCentres(centres, dim) && BeforeType(dim, centres, c)
    ensures !TypeCell(dim, c)
  {
    hide GoodCentres, InAlignment;
    if AlignmentCell(centres, c) {
      var i: int, o: int :| InAlignment(centres, i, o, c);
      AlignmentClear(centres, dim, i, o, c);
    }
  }

  /** So is the version information, when the alignment patterns are far enough apart. */
  lemma VersionKeeps(g0: map<Cell, int>, g: map<Cell, int>, dim: int, centres: seq<int>, bits: seq<bool>)
    requires |bits| == 18 && dim >= 45 && GoodCentres(centres, dim) && Spread(centres)
    requires Reserves(g0, c => BeforeVersion(dim, centres, c)) && VersionPlaced(g0, g, dim, bits, 18)
    ensures Keeps(g0, g)
  {
    hide VersionCell1, VersionCell2, GoodCentres, Spread;
    forall c | c in g0 && !IsEmpty(g0[c]) ensures g[c] == g0[c] {
      VersionFree(dim, centres, c);
    }
  }

  lemma VersionFree(dim: int, centres: seq<int>, c: Cell)
    requires dim >= 45 && GoodCentres(centres, dim) && Spread(centres) && BeforeVersion(dim, centres, c)
    ensures !VersionCell(dim, c)
  {
    hide GoodCentres, Spread, InAlignment;
    if AlignmentCell(centres, c) {
      var i: int, o: int :| InAlignment(centres, i, o, c);
      AlignmentOffVersion(centres, dim, i, o, c);
    }
  }

  lemma AfterType(g0: map<Cell, int>, g: map<Cell, int>, dim: int, centres: seq<int>, bits: seq<bool>)
    requires |bits| == 15 && dim >= 21
    requires Reserves(g0, c => BeforeType(dim, centres, c)) && TypePlaced(g0, g, dim, bits, 15)
    ensures Reserves(g, c => BeforeVersion(dim, centres, c)) && HasTypeInfo(g, dim, bits)
  {
    hide BeforeType, TypeCell1, TypeCell2, TypeCell;
    forall c | c in g ensures if BeforeVersion(dim, centres, c) then g[c] == 0 || g[c] == 1 else IsEmpty(g[c]) {
      TypeCells(dim, c);
    }
  }

  lemma AfterVersion(g0: map<Cell, int>, g: map<Cell, int>, dim: int, centres: seq<int>, format: seq<bool>, bits: seq<bool>)
    requires |format| == 15 && |bits| == 18 && dim >= 45
    requires Reserves(g0, c => BeforeVersion(dim, centres, c)) && HasTypeInfo(g0, dim, format)
    requires VersionPlaced(g0, g, dim, bits, 18)
    ensures Reserves(g, c => WrittenCell(dim, centres, true, c))
    ensures HasTypeInfo(g, dim, format) && HasVersionInfo(g, dim, bits)
  {
    hide AlignmentCell, VersionCell1, VersionCell2;
    forall c | c in g ensures if WrittenCell(dim, centres, true, c) then g[c] == 0 || g[c] == 1 else IsEmpty(g[c]) {
      if VersionCell(dim, c) {
        VersionCells(dim, c);
      }
    }
  }

  lemma WithoutVersion(g: map<Cell, int>, dim: int, centres: seq<int>)
    requires Reserves(g, c => BeforeVersion(dim, centres, c))
    ensures Reserves(g, c => WrittenCell(dim, centres, false, c))
  {
    hide AlignmentCell;
  }

  lemma AfterDark(g0: map<Cell, int>, g: map<Cell, int>, dim: int)
    requires dim >= 21 && Cell(8, dim - 8) in g0
    requires Reserves(g0, c => FinderCell(dim, c)) && g == g0[Cell(8, dim - 8) := 1]
    ensures g0[Cell(8, dim - 8)] != 0
    ensures Reserves(g, c => Corners(dim, c)) && Keeps(g0, g)
  {
    assert !FinderCell(dim, Cell(8, dim - 8));
  }

  /** Finders, dark module, alignment and timing: each drawn on cells still empty. */
  lemma Assembled(g1: map<Cell, int>, g2: map<Cell, int>, g3: map<Cell, int>, g4: map<Cell, int>, dim: int, centres: seq<int>)
    requires FindersColoured(g1, dim) && Keeps(g1, g2) && Keeps(g2, g3) && Keeps(g3, g4)
    requires Cell(8, dim - 8) in g2 && g2[Cell(8, dim - 8)] == 1
    requires AlignmentsColoured(g3, centres) && TimingColoured(g4, dim, centres)
    ensures Coloured(g4, dim, centres)
  {
    hide FindersColoured, AlignmentsColoured, TimingColoured;
    KeepsTwice(g1, g2, g3);
    KeepsTwice(g1, g3, g4);
    FindersKept(g1, g4, dim);
    AlignmentsKept(g3, g4, centres);
  }

  /** The patterns of every symbol, on an empty matrix.  Nothing is thrown. */
  method EmbedBasicPatterns(version: nat, coordinates: seq<int>, matrix: ByteMatrix, ghost centres: seq<int>) returns (ok: bool)
    requires version >= 1 && matrix.Valid() && matrix.width == matrix.height == 17 + 4 * version
    requires GoodCentres(centres, 17 + 4 * version) && (version == 1 ==> centres == [])
    requires centres <= coordinates && forall k :: |centres| <= k < |coordinates| ==> coordinates[k] == -1
    requires Reserves(matrix.grid, c => false)
    modifies matrix, matrix.bytes
    ensures ok && matrix.Valid()
    ensures Reserves(matrix.grid, c => BeforeType(17 + 4 * version, centres, c))
    ensures Coloured(matrix.grid, 17 + 4 * version, centres)
  {
    hide Reserves, Timed, GoodCentres, FindersColoured, AlignmentsColoured, TimingColoured, Keeps, Coloured;
    ghost var dim: int := 17 + 4 * version;
    ok := EmbedPositionDetectionPatternsAndSeparators(matrix);
    if !ok {
      return;
    }
    ghost var g1 := matrix.grid;
    AfterDark(g1, g1[Cell(8, dim - 8) := 1], dim);
    ok := EmbedDarkDotAtLeftBottomCorner(matrix);
    if !ok {
      return;
    }
    ghost var g2 := matrix.grid;
    if version < 2 {
      NoAlignment(g2, dim);
    } else {
      EmbedPositionAdjustmentPatterns(coordinates, matrix, centres);
    }
    ghost var g3 := matrix.grid;
    EmbedTimingPatterns(matrix);
    AfterTiming(g3, matrix.grid, dim, centres);
    TimingDrawn(g3, matrix.grid, dim, centres);
    Assembled(g1, g2, g3, matrix.grid, dim, centres);
  }

  /** Everything but the data.  Nothing is thrown; the reserved cells are those the reader
      will step over, they have their colours, and the format and version information is
      readable. */
  method EmbedReserved(version: nat, coordinates: seq<int>, format: seq<bool>, versionInfo: seq<bool>,
                       matrix: ByteMatrix, ghost centres: seq<int>) returns (ok: bool)
    requires version >= 1 && |format| == 15 && |versionInfo| == 18
    requires matrix.Valid() && matrix.width == matrix.height == 17 + 4 * version
    requires GoodCentres(centres, 17 + 4 * version) && (version == 1 ==> centres == [])
    requires centres <= coordinates && forall k :: |centres| <= k < |coordinates| ==> coordinates[k] == -1
    modifies matrix, matrix.bytes
    ensures ok && matrix.Valid()
    ensures Reserves(matrix.grid, c => WrittenCell(17 + 4 * version, centres, version > 6, c))
    ensures HasTypeInfo(matrix.grid, 17 + 4 * version, format)
    ensures version > 6 ==> HasVersionInfo(matrix.grid, 17 + 4 * version, versionInfo)
    ensures version <= 6 || Spread(centres) ==> Coloured(matrix.grid, 17 + 4 * version, centres)
  {
    hide Reserves, TypePlaced, VersionPlaced, HasTypeInfo, HasVersionInfo, GoodCentres, Coloured, Keeps, Spread;
    ghost var dim: int := 17 + 4 * version;
    matrix.Clear(255);
    Cleared(matrix.grid);
    ok := EmbedBasicPatterns(version, coordinates, matrix, centres);
    ghost var g := matrix.grid;
    EmbedTypeInfo(format, matrix);
    AfterType(g, matrix.grid, dim, centres, format);
    TypeKeeps(g, matrix.grid, dim, centres, format);
    ColoursKept(g, matrix.grid, dim, centres);
    if version < 7 {
      WithoutVersion(matrix.grid, dim, centres);
    } else {
      g := matrix.grid;
      EmbedVersionInfo(versionInfo, matrix);
      AfterVersion(g, matrix.grid, dim, centres, format, versionInfo);
      if Spread(centres) {
        VersionKeeps(g, matrix.grid, dim, centres, versionInfo);
        ColoursKept(g, matrix.grid, dim, centres);
      }
    }
  }

  lemma NoAlignment(g: map<Cell, int>, dim: int)
    requires Reserves(g, c => Corners(dim, c))
    ensures Reserves(g, c => BeforeTiming(dim, [], c)) && Keeps(g, g) && AlignmentsColoured(g, [])
  {
  }

  lemma Cleared(g: map<Cell, int>)
    requires forall c :: c in g ==> g[c] == 255
    ensures Reserves(g, c => false)
  {
  }
}
