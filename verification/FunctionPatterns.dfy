/** The reserved cells of a symbol (section 6.3 of ISO/IEC 18004:2015): what the writer draws
    before the data, and the pattern the reader builds to step over it. */
module FunctionPatterns {
  import opened BitMatrices
  import opened Placement

  // ---- The areas

  predicate FinderCell(dim: int, c: Cell) {
    (c.x < 8 && c.y < 8) || (c.x >= dim - 8 && c.y < 8) || (c.x < 8 && c.y >= dim - 8)
  }

  predicate DarkCell(dim: int, c: Cell) {
    c.x == 8 && c.y == dim - 8
  }

  predicate InBox(c: Cell, x: int, y: int) {
    x - 2 <= c.x <= x + 2 && y - 2 <= c.y <= y + 2
  }

  /** The three pairs of alignment centres that fall on the finders. */
  predicate Corner(i: int, o: int, n: int) {
    (i == 0 && (o == 0 || o == n - 1)) || (i == n - 1 && o == 0)
  }

  /** In the alignment pattern of the i-th row and o-th column of centres. */
  predicate InAlignment(centres: seq<int>, i: int, o: int, c: Cell) {
    0 <= i < |centres| && 0 <= o < |centres| && !Corner(i, o, |centres|) && InBox(c, centres[o], centres[i])
  }

  ghost predicate AlignmentCell(centres: seq<int>, c: Cell) {
    exists i: int, o: int :: InAlignment(centres, i, o, c)
  }

  predicate TimingCell(dim: int, c: Cell) {
    (c.y == 6 && 8 <= c.x < dim - 8) || (c.x == 6 && 8 <= c.y < dim - 8)
  }

  predicate TypeCell(dim: int, c: Cell) {
    || (c.x == 8 && (0 <= c.y < 6 || c.y == 7 || c.y == 8)) || (c.y == 8 && (0 <= c.x < 6 || c.x == 7))
    || (c.y == 8 && dim - 8 <= c.x < dim) || (c.x == 8 && dim - 7 <= c.y < dim)
  }

  predicate VersionCell(dim: int, c: Cell) {
    (0 <= c.x < 6 && dim - 11 <= c.y < dim - 8) || (0 <= c.y < 6 && dim - 11 <= c.x < dim - 8)
  }

  /** All the writer draws. */
  ghost predicate WrittenCell(dim: int, centres: seq<int>, versionInfo: bool, c: Cell) {
    || FinderCell(dim, c) || DarkCell(dim, c) || AlignmentCell(centres, c) || TimingCell(dim, c) || TypeCell(dim, c)
    || (versionInfo && VersionCell(dim, c))
  }

  /** The regions the reader marks. */
  ghost predicate MarkedCell(dim: int, centres: seq<int>, versionInfo: bool, c: Cell) {
    || InRegion(c, 0, 0, 9, 9) || InRegion(c, dim - 8, 0, 8, 9) || InRegion(c, 0, dim - 8, 9, 8)
    || AlignmentCell(centres, c)
    || InRegion(c, 6, 9, 1, dim - 17) || InRegion(c, 9, 6, dim - 17, 1)
    || (versionInfo && (InRegion(c, dim - 11, 0, 3, 6) || InRegion(c, 0, dim - 11, 6, 3)))
  }

  /** Writer and reader reserve the same cells, whatever the dimension, when their alignment patterns
      are the same. */
  lemma ReservedCellsAgree(dim: int, centres: seq<int>, versionInfo: bool, c: Cell)
    requires dim >= 21 && 0 <= c.x < dim && 0 <= c.y < dim
    ensures WrittenCell(dim, centres, versionInfo, c) <==> MarkedCell(dim, centres, versionInfo, c)
  {
    hide AlignmentCell;
  }

  // ---- Alignment centres

  /** Centres from column 6 to the seventh-last one, at least five apart. */
  ghost predicate GoodCentres(centres: seq<int>, dim: int) {
    && (centres != [] ==> |centres| >= 2 && centres[0] == 6 && centres[|centres| - 1] == dim - 7)
    && forall i, j :: 0 <= i < j < |centres| ==> centres[i] + 5 <= centres[j]
  }

  /** Centres far enough apart to keep the alignment patterns off the version information. */
  ghost predicate Spread(s: seq<int>) {
    forall i, j :: 0 <= i < j < |s| ==> s[i] + 7 <= s[j]
  }

  // ---- The reader's pattern

  /** In an alignment pattern before the i-th row and o-th column. */
  ghost predicate Drawn(centres: seq<int>, i: int, o: int, c: Cell) {
    exists k: int, l: int :: InAlignment(centres, k, l, c) && (k < i || (k == i && l < o))
  }

  lemma DrawnNone(centres: seq<int>, c: Cell)
    ensures !Drawn(centres, 0, 0, c)
  {
  }

  lemma DrawnStep(centres: seq<int>, i: int, o: int, c: Cell)
    ensures Drawn(centres, i, o + 1, c) <==> Drawn(centres, i, o, c) || InAlignment(centres, i, o, c)
  {
    hide InAlignment;
  }

  lemma DrawnRow(centres: seq<int>, i: int, c: Cell)
    ensures Drawn(centres, i, |centres|, c) <==> Drawn(centres, i + 1, 0, c)
  {
  }

  lemma DrawnAll(centres: seq<int>, c: Cell)
    ensures Drawn(centres, |centres|, 0, c) <==> AlignmentCell(centres, c)
  {
  }

  ghost predicate MarkedSoFar(g0: map<Cell, bool>, g: map<Cell, bool>, centres: seq<int>, i: int, o: int) {
    g.Keys == g0.Keys && forall c :: c in g ==> (g[c] <==> (g0[c] || Drawn(centres, i, o, c)))
  }

  lemma MarkedStep(g0: map<Cell, bool>, g: map<Cell, bool>, g': map<Cell, bool>, centres: seq<int>, i: int, o: int)
    requires MarkedSoFar(g0, g, centres, i, o) && g'.Keys == g.Keys
    requires forall c :: c in g ==> (g'[c] <==> (g[c] || InAlignment(centres, i, o, c)))
    ensures MarkedSoFar(g0, g', centres, i, o + 1)
  {
    hide Drawn, InAlignment;
    forall c | c in g' ensures g'[c] <==> (g0[c] || Drawn(centres, i, o + 1, c)) {
      DrawnStep(centres, i, o, c);
    }
  }

  lemma MarkedRow(g0: map<Cell, bool>, g: map<Cell, bool>, centres: seq<int>, i: int)
    requires MarkedSoFar(g0, g, centres, i, |centres|)
    ensures MarkedSoFar(g0, g, centres, i + 1, 0)
  {
    hide Drawn;
    forall c | c in g ensures g[c] <==> (g0[c] || Drawn(centres, i + 1, 0, c)) {
      DrawnRow(centres, i, c);
    }
  }

  lemma MarkedNone(g: map<Cell, bool>, centres: seq<int>)
    ensures MarkedSoFar(g, g, centres, 0, 0)
  {
    hide Drawn;
    forall c | c in g ensures !Drawn(centres, 0, 0, c) {
      DrawnNone(centres, c);
    }
  }

  lemma MarkedAll(g0: map<Cell, bool>, g: map<Cell, bool>, centres: seq<int>)
    requires MarkedSoFar(g0, g, centres, |centres|, 0)
    ensures g.Keys == g0.Keys && forall c :: c in g ==> (g[c] <==> (g0[c] || AlignmentCell(centres, c)))
  {
    hide Drawn, AlignmentCell;
    forall c | c in g ensures g[c] <==> (g0[c] || AlignmentCell(centres, c)) {
      DrawnAll(centres, c);
    }
  }

  lemma SameBox(centres: seq<int>, i: int, o: int)
    requires 0 <= i < |centres| && 0 <= o < |centres|
    ensures forall c :: InAlignment(centres, i, o, c)
                        <==> !Corner(i, o, |centres|) && InRegion(c, centres[o] - 2, centres[i] - 2, 5, 5)
  {
  }

  /** Marks the alignment patterns. */
  method MarkAlignment(m: BitMatrix, centres: seq<int>)
    requires m.Valid() && m.width == m.height >= 21 && GoodCentres(centres, m.width)
    modifies m, m.bits
    ensures m.Valid() && m.grid.Keys == old(m.grid).Keys
    ensures forall c :: c in m.grid ==> (m.grid[c] <==> (old(m.grid)[c] || AlignmentCell(centres, c)))
  {
    hide MarkedSoFar, AlignmentCell, InAlignment, InRegion, Represents;
    ghost var g0 := m.grid;
    var n := |centres|;
    MarkedNone(g0, centres);
    for i := 0 to n
      invariant m.Valid() && MarkedSoFar(g0, m.grid, centres, i, 0)
    {
      var y := centres[i] - 2;
      for o := 0 to n
        invariant m.Valid() && MarkedSoFar(g0, m.grid, centres, i, o)
      {
        ghost var g := m.grid;
        if !Corner(i, o, n) {
          CentreInside(centres, m.width, i);
          CentreInside(centres, m.width, o);
          var ok := m.SetRegion(centres[o] - 2, y, 5, 5);
          assert ok;
        }
        SameBox(centres, i, o);
        MarkedStep(g0, g, m.grid, centres, i, o);
      }
      MarkedRow(g0, m.grid, centres, i);
    }
    MarkedAll(g0, m.grid, centres);
  }

  lemma CentreInside(centres: seq<int>, dim: int, i: int)
    requires GoodCentres(centres, dim) && dim >= 21 && 0 <= i < |centres|
    ensures 6 <= centres[i] <= dim - 7
    ensures 0 < i ==> centres[i] >= 11
    ensures i < |centres| - 1 ==> centres[i] <= dim - 12
  {
    assert 0 < i ==> centres[0] + 5 <= centres[i];
    assert i < |centres| - 1 ==> centres[i] + 5 <= centres[|centres| - 1];
  }

  method BuildFunctionPattern(version: nat, centres: seq<int>) returns (m: BitMatrix)
    requires version >= 1 && GoodCentres(centres, 17 + 4 * version)
    ensures fresh(m) && fresh(m.bits) && m.Valid() && m.width == m.height == 17 + 4 * version
    ensures forall c :: c in m.grid ==>
              (m.grid[c] <==> MarkedCell(17 + 4 * version, centres, version > 6, c))
  {
    hide AlignmentCell, GoodCentres, InRegion, Represents;
    var dim := 17 + 4 * version;
    m := new BitMatrix(dim, dim);
    var ok := m.SetRegion(0, 0, 9, 9);
    ok := m.SetRegion(dim - 8, 0, 8, 9);
    ok := m.SetRegion(0, dim - 8, 9, 8);
    MarkAlignment(m, centres);
    ok := m.SetRegion(6, 9, 1, dim - 17);
    ok := m.SetRegion(9, 6, dim - 17, 1);
    if version > 6 {
      ok := m.SetRegion(dim - 11, 0, 3, 6);
      ok := m.SetRegion(0, dim - 11, 6, 3);
    }
  }
}
