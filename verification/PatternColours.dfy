/** The colours of the function patterns, as section 6.3 of ISO/IEC 18004:2015 describes them by
    their rings and lines: 1 is dark, 0 is light. */
module PatternColours {
  import opened FunctionPatterns
  import opened MatrixWriting
  import opened Placement

  function Abs(n: int): nat {
    if n < 0 then -n else n
  }

  /** How many rings c lies out from the cell at (x, y). */
  function Ring(c: Cell, x: int, y: int): nat {
    var dx, dy := Abs(c.x - x), Abs(c.y - y);
    if dx < dy then dy else dx
  }

  /** Around the centre of a finder the second ring is light, and so is the fourth, the
      separator; the centre, the first and the third are dark. */
  function FinderRing(ring: nat): int {
    if ring == 2 || ring == 4 then 0 else 1
  }

  /** The finder with its separator, as far as it lies in the symbol. */
  ghost predicate FinderColoured(g: map<Cell, int>, x: int, y: int) {
    forall c :: c in g && Ring(c, x, y) <= 4 ==> g[c] == FinderRing(Ring(c, x, y))
  }

  ghost predicate FindersColoured(g: map<Cell, int>, dim: int) {
    FinderColoured(g, 3, 3) && FinderColoured(g, dim - 4, 3) && FinderColoured(g, 3, dim - 4)
  }

  /** Around the centre of an alignment pattern only the first ring is light. */
  ghost predicate AlignmentColoured(g: map<Cell, int>, x: int, y: int) {
    forall c :: c in g && InBox(c, x, y) ==> g[c] == if Ring(c, x, y) == 1 then 0 else 1
  }

  predicate IsPair(centres: seq<int>, i: int, o: int) {
    0 <= i < |centres| && 0 <= o < |centres| && !Corner(i, o, |centres|)
  }

  /** The patterns before the i-th row and o-th column of centres. */
  ghost predicate AlignmentsSoFar(g: map<Cell, int>, centres: seq<int>, i: int, o: int) {
    forall k, l :: IsPair(centres, k, l) && (k < i || (k == i && l < o)) ==> AlignmentColoured(g, centres[l], centres[k])
  }

  ghost predicate AlignmentsColoured(g: map<Cell, int>, centres: seq<int>) {
    forall k, l :: IsPair(centres, k, l) ==> AlignmentColoured(g, centres[l], centres[k])
  }

  /** Row 6 and column 6 between the finders are dark in even places and light in odd ones. */
  ghost predicate TimingColoured(g: map<Cell, int>, dim: int, centres: seq<int>) {
    forall c :: c in g && TimingCell(dim, c) && !AlignmentCell(centres, c)
      ==> g[c] == if (c.x + c.y) % 2 == 0 then 1 else 0
  }

  ghost predicate Coloured(g: map<Cell, int>, dim: int, centres: seq<int>) {
    && FindersColoured(g, dim)
    && Cell(8, dim - 8) in g && g[Cell(8, dim - 8)] == 1
    && AlignmentsColoured(g, centres)
    && TimingColoured(g, dim, centres)
  }

  // ---- The finders part by part

  /** The colour of a cell of the finders and separators. */
  function FinderColour(dim: int, c: Cell): int {
    if Ring(c, 3, 3) in {2, 4} || Ring(c, dim - 4, 3) in {2, 4} || Ring(c, 3, dim - 4) in {2, 4} then 0 else 1
  }

  /** No cell of a finder is near another finder. */
  lemma ColoursByPart(g: map<Cell, int>, dim: int)
    requires dim >= 21 && forall c :: c in g ==> 0 <= c.x < dim && 0 <= c.y < dim
    requires forall c :: c in g && FinderCell(dim, c) ==> g[c] == FinderColour(dim, c)
    ensures FindersColoured(g, dim)
  {
    forall c | c in g && Ring(c, 3, 3) <= 4 ensures g[c] == FinderRing(Ring(c, 3, 3)) {
      assert FinderCell(dim, c);
    }
    forall c | c in g && Ring(c, dim - 4, 3) <= 4 ensures g[c] == FinderRing(Ring(c, dim - 4, 3)) {
      assert FinderCell(dim, c);
    }
    forall c | c in g && Ring(c, 3, dim - 4) <= 4 ensures g[c] == FinderRing(Ring(c, 3, dim - 4)) {
      assert FinderCell(dim, c);
    }
  }

  // ---- What was drawn stays

  /** Only empty cells change. */
  ghost predicate Keeps(g0: map<Cell, int>, g: map<Cell, int>) {
    g.Keys == g0.Keys && forall c :: c in g0 && !IsEmpty(g0[c]) ==> g[c] == g0[c]
  }

  lemma FindersKept(g0: map<Cell, int>, g: map<Cell, int>, dim: int)
    requires FindersColoured(g0, dim) && Keeps(g0, g)
    ensures FindersColoured(g, dim)
  {
    hide Ring;
  }

  lemma AlignmentKept(g0: map<Cell, int>, g: map<Cell, int>, x: int, y: int)
    requires AlignmentColoured(g0, x, y) && Keeps(g0, g)
    ensures AlignmentColoured(g, x, y)
  {
    hide Ring, InBox;
  }

  lemma SoFarKept(g0: map<Cell, int>, g: map<Cell, int>, centres: seq<int>, i: int, o: int)
    requires AlignmentsSoFar(g0, centres, i, o) && Keeps(g0, g)
    ensures AlignmentsSoFar(g, centres, i, o)
  {
    hide AlignmentColoured, Keeps, Corner;
    forall k, l | IsPair(centres, k, l) && (k < i || (k == i && l < o)) ensures AlignmentColoured(g, centres[l], centres[k]) {
      AlignmentKept(g0, g, centres[l], centres[k]);
    }
  }

  lemma AlignmentsKept(g0: map<Cell, int>, g: map<Cell, int>, centres: seq<int>)
    requires AlignmentsColoured(g0, centres) && Keeps(g0, g)
    ensures AlignmentsColoured(g, centres)
  {
    hide AlignmentColoured, Keeps, Corner;
    forall k, l | IsPair(centres, k, l) ensures AlignmentColoured(g, centres[l], centres[k]) {
      AlignmentKept(g0, g, centres[l], centres[k]);
    }
  }

  lemma TimingKept(g0: map<Cell, int>, g: map<Cell, int>, dim: int, centres: seq<int>)
    requires TimingColoured(g0, dim, centres) && Keeps(g0, g)
    ensures TimingColoured(g, dim, centres)
  {
    hide AlignmentCell, TimingCell;
  }

  lemma ColoursKept(g0: map<Cell, int>, g: map<Cell, int>, dim: int, centres: seq<int>)
    requires Coloured(g0, dim, centres) && Keeps(g0, g)
    ensures Coloured(g, dim, centres)
  {
    hide FindersColoured, AlignmentsColoured, TimingColoured;
    FindersKept(g0, g, dim);
    AlignmentsKept(g0, g, centres);
    TimingKept(g0, g, dim, centres);
  }

  lemma KeepsTwice(g0: map<Cell, int>, g1: map<Cell, int>, g2: map<Cell, int>)
    requires Keeps(g0, g1) && Keeps(g1, g2)
    ensures Keeps(g0, g2)
  {
  }

  /** Filling the free cells with data keeps what was drawn. */
  lemma DataKeeps(g0: map<Cell, int>, g: map<Cell, int>, walk: seq<Cell>, bits: seq<bool>, mask: nat)
    requires IsMask(mask) && Filled(g0, g, DataCells(walk, Reserved(g0)), bits, mask)
    ensures Keeps(g0, g)
  {
    hide Module;
    DataCellsOf(walk, Reserved(g0));
  }

  lemma KeepsItself(g: map<Cell, int>)
    ensures Keeps(g, g)
  {
  }

  lemma KeptKeys(g0: map<Cell, int>, g: map<Cell, int>)
    requires Keeps(g0, g)
    ensures g.Keys == g0.Keys
  {
  }

  // ---- The alignment patterns do not touch what else is drawn

  /** An alignment pattern is clear of the finders, the dark module and the format information. */
  lemma AlignmentClear(centres: seq<int>, dim: int, i: int, o: int, c: Cell)
    requires GoodCentres(centres, dim) && dim >= 21 && InAlignment(centres, i, o, c)
    ensures !FinderCell(dim, c) && !DarkCell(dim, c) && !TypeCell(dim, c)
  {
    hide GoodCentres;
    CentreInside(centres, dim, i);
    CentreInside(centres, dim, o);
  }

  /** With centres further apart it is clear of the version information, too. */
  lemma AlignmentOffVersion(centres: seq<int>, dim: int, i: int, o: int, c: Cell)
    requires GoodCentres(centres, dim) && Spread(centres) && dim >= 45 && InAlignment(centres, i, o, c)
    ensures !VersionCell(dim, c)
  {
    var n := |centres|;
    CentreInside(centres, dim, i);
    CentreInside(centres, dim, o);
    assert i < n - 1 ==> centres[i] + 7 <= centres[n - 1];
    assert o < n - 1 ==> centres[o] + 7 <= centres[n - 1];
    assert 0 < i ==> centres[0] + 7 <= centres[i];
    assert 0 < o ==> centres[0] + 7 <= centres[o];
  }

  // ---- The ratio a reader searches for

  /** Row and column through the centre of a finder run dark, light, three times dark, light,
      dark, with light on either side as far as the symbol goes. */
  lemma FinderRatio(g: map<Cell, int>, x: int, y: int, k: int)
    requires FinderColoured(g, x, y) && -4 <= k <= 4
    ensures Cell(x + k, y) in g ==> g[Cell(x + k, y)] == [0, 1, 0, 1, 1, 1, 0, 1, 0][k + 4]
    ensures Cell(x, y + k) in g ==> g[Cell(x, y + k)] == [0, 1, 0, 1, 1, 1, 0, 1, 0][k + 4]
  {
  }

  predicate AllEven(centres: seq<int>) {
    forall k :: 0 <= k < |centres| ==> centres[k] % 2 == 0
  }

  /** Where the timing lines run through alignment patterns the colours go on in turn, as the
      centres stand in even columns and rows. */
  lemma TimingUnbroken(g: map<Cell, int>, dim: int, centres: seq<int>, c: Cell)
    requires Coloured(g, dim, centres) && GoodCentres(centres, dim) && AllEven(centres)
    requires c in g && TimingCell(dim, c)
    ensures g[c] == if (c.x + c.y) % 2 == 0 then 1 else 0
  {
    hide GoodCentres, FindersColoured, InAlignment;
    if AlignmentCell(centres, c) {
      var i: int, o: int :| InAlignment(centres, i, o, c);
      PatternOnLine(g, dim, centres, i, o, c);
    }
  }

  lemma PatternOnLine(g: map<Cell, int>, dim: int, centres: seq<int>, i: int, o: int, c: Cell)
    requires AlignmentsColoured(g, centres) && GoodCentres(centres, dim) && AllEven(centres)
    requires c in g && TimingCell(dim, c) && InAlignment(centres, i, o, c)
    ensures g[c] == if (c.x + c.y) % 2 == 0 then 1 else 0
  {
    assert IsPair(centres, i, o) && AlignmentColoured(g, centres[o], centres[i]);
    assert 0 < i ==> centres[0] + 5 <= centres[i];
    assert 0 < o ==> centres[0] + 5 <= centres[o];
  }
}
