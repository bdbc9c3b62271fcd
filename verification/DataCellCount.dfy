/** How many data modules a symbol has: exactly enough for the version's codewords. */
module DataCellCount {
  import opened AlignmentTables
  import opened BitMatrices
  import opened FunctionPatterns
  import opened Placement
  import opened Versions

  // ---- Rectangles

  function Rect(x: int, y: int, w: nat, h: nat): (s: set<Cell>)
    ensures forall c :: c in s <==> InRegion(c, x, y, w, h)
  {
    set i, j | x <= i < x + w && y <= j < y + h :: Cell(i, j)
  }

  lemma {:induction false} RowSize(x: int, y: int, w: nat)
    ensures |Rect(x, y, w, 1)| == w
    decreases w
  {
    if w == 0 {
      assert Rect(x, y, w, 1) == {};
    } else {
      RowSize(x, y, w - 1);
      assert Rect(x, y, w, 1) == Rect(x, y, w - 1, 1) + {Cell(x + w - 1, y)};
    }
  }

  lemma {:induction false} RectSize(x: int, y: int, w: nat, h: nat)
    ensures |Rect(x, y, w, h)| == w * h
    decreases h
  {
    if h == 0 {
      assert Rect(x, y, w, h) == {};
    } else {
      RectSize(x, y, w, h - 1);
      RowSize(x, y + h - 1, w);
      Joined(Rect(x, y, w, h - 1), Rect(x, y + h - 1, w, 1));
      assert Rect(x, y, w, h) == Rect(x, y, w, h - 1) + Rect(x, y + h - 1, w, 1);
      assert w * h == w * (h - 1) + w;
    }
  }

  lemma Joined(a: set<Cell>, b: set<Cell>)
    requires a !! b
    ensures |a + b| == |a| + |b|
  {
  }

  ghost predicate Away(a: set<Cell>, x: int, y: int, w: nat, h: nat) {
    forall c :: c in a ==> !InRegion(c, x, y, w, h)
  }

  /** A rectangle that does not overlap adds its area. */
  lemma AddRect(a: set<Cell>, x: int, y: int, w: nat, h: nat)
    requires Away(a, x, y, w, h)
    ensures |a + Rect(x, y, w, h)| == |a| + w * h
  {
    RectSize(x, y, w, h);
    Joined(a, Rect(x, y, w, h));
  }

  // ---- The fixed areas

  /** Column 6 and the rest of the upper corners. */
  function Upper(dim: nat): set<Cell>
    requires dim >= 21
  {
    Rect(6, 0, 1, dim) + Rect(0, 0, 6, 9) + Rect(7, 0, 2, 9) + Rect(dim - 8, 0, 8, 9)
  }

  /** With them the rest of the lower left corner and of row 6. */
  function Fixed(dim: nat): set<Cell>
    requires dim >= 21
  {
    Upper(dim) + Rect(0, dim - 8, 6, 8) + Rect(7, dim - 8, 2, 8) + Rect(9, 6, dim - 17, 1)
  }

  lemma UpperSize(dim: nat)
    requires dim >= 21
    ensures |Upper(dim)| == dim + 144
  {
    hide Rect;
    RectSize(6, 0, 1, dim);
    AddRect(Rect(6, 0, 1, dim), 0, 0, 6, 9);
    AddRect(Rect(6, 0, 1, dim) + Rect(0, 0, 6, 9), 7, 0, 2, 9);
    AddRect(Rect(6, 0, 1, dim) + Rect(0, 0, 6, 9) + Rect(7, 0, 2, 9), dim - 8, 0, 8, 9);
  }

  lemma UpperAway(dim: nat)
    requires dim >= 21
    ensures Away(Upper(dim), 0, dim - 8, 6, 8) && Away(Upper(dim), 7, dim - 8, 2, 8) && Away(Upper(dim), 9, 6, dim - 17, 1)
  {
    hide Rect;
  }

  lemma FixedSize(dim: nat)
    requires dim >= 21
    ensures |Fixed(dim)| == 2 * dim + 191
  {
    hide Rect, Upper;
    UpperSize(dim);
    UpperAway(dim);
    var s := Upper(dim);
    AddRect(s, 0, dim - 8, 6, 8);
    AddRect(s + Rect(0, dim - 8, 6, 8), 7, dim - 8, 2, 8);
    AddRect(s + Rect(0, dim - 8, 6, 8) + Rect(7, dim - 8, 2, 8), 9, 6, dim - 17, 1);
  }

  function VersionArea(dim: nat): set<Cell>
    requires dim >= 21
  {
    Rect(dim - 11, 0, 3, 6) + Rect(0, dim - 11, 6, 3)
  }

  lemma VersionAreaSize(dim: nat)
    requires dim >= 21
    ensures |VersionArea(dim)| == 36
  {
    hide Rect;
    RectSize(dim - 11, 0, 3, 6);
    AddRect(Rect(dim - 11, 0, 3, 6), 0, dim - 11, 6, 3);
  }

  // ---- The alignment patterns outside row 6 and column 6

  /** Centres far enough apart that nothing overlaps. */
  ghost predicate Apart(s: seq<int>) {
    forall i, j :: 0 <= i < j < |s| ==> s[i] + 5 <= s[j]
  }

  lemma ApartPrefix(s: seq<int>)
    requires Apart(s) && s != []
    ensures Apart(s[..|s| - 1]) && Before(s[..|s| - 1], s[|s| - 1])
  {
  }

  ghost predicate Before(s: seq<int>, m: int) {
    forall i :: 0 <= i < |s| ==> s[i] + 5 <= m
  }

  /** The patterns on column 6, less that column. */
  function Sides(s: seq<int>): set<Cell> {
    if s == [] then {} else
    var m := s[|s| - 1];
    Sides(s[..|s| - 1]) + Rect(4, m - 2, 2, 5) + Rect(7, m - 2, 2, 5)
  }

  lemma {:induction false} SidesOf(s: seq<int>, c: Cell)
    ensures c in Sides(s) <==> (c.x == 4 || c.x == 5 || c.x == 7 || c.x == 8)
                               && exists i :: 0 <= i < |s| && s[i] - 2 <= c.y <= s[i] + 2
    decreases |s|
  {
    if s != [] {
      SidesOf(s[..|s| - 1], c);
    }
  }

  lemma SidesAway(s: seq<int>, m: int)
    requires Before(s, m)
    ensures Away(Sides(s), 4, m - 2, 2, 5) && Away(Sides(s) + Rect(4, m - 2, 2, 5), 7, m - 2, 2, 5)
  {
    hide Sides, Rect;
    forall c | c in Sides(s) ensures !InRegion(c, 4, m - 2, 2, 5) && !InRegion(c, 7, m - 2, 2, 5) {
      SidesOf(s, c);
    }
  }

  lemma SidesStep(s: seq<int>, m: int)
    requires Before(s, m)
    ensures |Sides(s) + Rect(4, m - 2, 2, 5) + Rect(7, m - 2, 2, 5)| == |Sides(s)| + 20
  {
    hide Sides, Rect;
    SidesAway(s, m);
    AddRect(Sides(s), 4, m - 2, 2, 5);
    AddRect(Sides(s) + Rect(4, m - 2, 2, 5), 7, m - 2, 2, 5);
  }

  lemma {:induction false} SidesSize(s: seq<int>)
    requires Apart(s)
    ensures |Sides(s)| == 20 * |s|
    decreases |s|
  {
    hide Rect, Apart, Before;
    if s != [] {
      ApartPrefix(s);
      SidesSize(s[..|s| - 1]);
      SidesStep(s[..|s| - 1], s[|s| - 1]);
    }
  }

  /** The patterns on row 6, less that row. */
  function Tops(s: seq<int>): set<Cell> {
    if s == [] then {} else
    var m := s[|s| - 1];
    Tops(s[..|s| - 1]) + Rect(m - 2, 4, 5, 2) + Rect(m - 2, 7, 5, 2)
  }

  lemma {:induction false} TopsOf(s: seq<int>, c: Cell)
    ensures c in Tops(s) <==> (c.y == 4 || c.y == 5 || c.y == 7 || c.y == 8)
                              && exists i :: 0 <= i < |s| && s[i] - 2 <= c.x <= s[i] + 2
    decreases |s|
  {
    if s != [] {
      TopsOf(s[..|s| - 1], c);
    }
  }

  lemma TopsAway(s: seq<int>, m: int)
    requires Before(s, m)
    ensures Away(Tops(s), m - 2, 4, 5, 2) && Away(Tops(s) + Rect(m - 2, 4, 5, 2), m - 2, 7, 5, 2)
  {
    hide Tops, Rect;
    forall c | c in Tops(s) ensures !InRegion(c, m - 2, 4, 5, 2) && !InRegion(c, m - 2, 7, 5, 2) {
      TopsOf(s, c);
    }
  }

  lemma TopsStep(s: seq<int>, m: int)
    requires Before(s, m)
    ensures |Tops(s) + Rect(m - 2, 4, 5, 2) + Rect(m - 2, 7, 5, 2)| == |Tops(s)| + 20
  {
    hide Tops, Rect;
    TopsAway(s, m);
    AddRect(Tops(s), m - 2, 4, 5, 2);
    AddRect(Tops(s) + Rect(m - 2, 4, 5, 2), m - 2, 7, 5, 2);
  }

  lemma {:induction false} TopsSize(s: seq<int>)
    requires Apart(s)
    ensures |Tops(s)| == 20 * |s|
    decreases |s|
  {
    hide Rect, Apart, Before;
    if s != [] {
      ApartPrefix(s);
      TopsSize(s[..|s| - 1]);
      TopsStep(s[..|s| - 1], s[|s| - 1]);
    }
  }

  /** The patterns of one row of centres. */
  function BoxRow(xs: seq<int>, y: int): set<Cell> {
    if xs == [] then {} else BoxRow(xs[..|xs| - 1], y) + Rect(xs[|xs| - 1] - 2, y - 2, 5, 5)
  }

  lemma {:induction false} BoxRowOf(xs: seq<int>, y: int, c: Cell)
    ensures c in BoxRow(xs, y) <==> y - 2 <= c.y <= y + 2 && exists i :: 0 <= i < |xs| && xs[i] - 2 <= c.x <= xs[i] + 2
    decreases |xs|
  {
    if xs != [] {
      BoxRowOf(xs[..|xs| - 1], y, c);
    }
  }

  lemma BoxRowAway(xs: seq<int>, m: int, y: int)
    requires Before(xs, m)
    ensures Away(BoxRow(xs, y), m - 2, y - 2, 5, 5)
  {
    hide BoxRow;
    forall c | c in BoxRow(xs, y) ensures !InRegion(c, m - 2, y - 2, 5, 5) {
      BoxRowOf(xs, y, c);
    }
  }

  lemma {:induction false} BoxRowSize(xs: seq<int>, y: int)
    requires Apart(xs)
    ensures |BoxRow(xs, y)| == 25 * |xs|
    decreases |xs|
  {
    hide Rect, Apart, Before, Away;
    if xs != [] {
      var t, m := xs[..|xs| - 1], xs[|xs| - 1];
      ApartPrefix(xs);
      BoxRowSize(t, y);
      BoxRowAway(t, m, y);
      AddRect(BoxRow(t, y), m - 2, y - 2, 5, 5);
    }
  }

  function Boxes(xs: seq<int>, ys: seq<int>): set<Cell> {
    if ys == [] then {} else Boxes(xs, ys[..|ys| - 1]) + BoxRow(xs, ys[|ys| - 1])
  }

  lemma {:induction false} BoxesOf(xs: seq<int>, ys: seq<int>, c: Cell)
    ensures c in Boxes(xs, ys) <==>
            && (exists i :: 0 <= i < |ys| && ys[i] - 2 <= c.y <= ys[i] + 2)
            && (exists i :: 0 <= i < |xs| && xs[i] - 2 <= c.x <= xs[i] + 2)
    decreases |ys|
  {
    if ys != [] {
      BoxesOf(xs, ys[..|ys| - 1], c);
      BoxRowOf(xs, ys[|ys| - 1], c);
    }
  }

  lemma BoxesAway(xs: seq<int>, ys: seq<int>, m: int)
    requires Before(ys, m)
    ensures Boxes(xs, ys) !! BoxRow(xs, m)
  {
    hide Boxes, BoxRow;
    forall c | c in Boxes(xs, ys) ensures c !in BoxRow(xs, m) {
      BoxesOf(xs, ys, c);
      BoxRowOf(xs, m, c);
    }
  }

  lemma {:induction false} BoxesSize(xs: seq<int>, ys: seq<int>)
    requires Apart(xs) && Apart(ys)
    ensures |Boxes(xs, ys)| == 25 * (|xs| * |ys|)
    decreases |ys|
  {
    hide BoxRow, Apart, Before;
    if ys != [] {
      var t, m := ys[..|ys| - 1], ys[|ys| - 1];
      ApartPrefix(ys);
      BoxesSize(xs, t);
      BoxRowSize(xs, m);
      BoxesAway(xs, t, m);
      Joined(Boxes(xs, t), BoxRow(xs, m));
      assert |xs| * |ys| == |xs| * |t| + |xs|;
    }
  }

  // ---- All cells the walk steps over

  function Middle(s: seq<int>): seq<int>
    requires |s| >= 2
  {
    s[1..|s| - 1]
  }

  function Alignment(s: seq<int>): set<Cell> {
    if |s| < 2 then {} else Sides(Middle(s)) + Tops(Middle(s)) + Boxes(s[1..], s[1..])
  }

  /** Column 6 and everything reserved. */
  function Blocked(dim: nat, s: seq<int>, versionInfo: bool): set<Cell>
    requires dim >= 21
  {
    Fixed(dim) + Alignment(s) + if versionInfo then VersionArea(dim) else {}
  }

  predicate Near(c: int, m: int) {
    m - 2 <= c <= m + 2
  }

  ghost predicate NearSome(c: int, s: seq<int>) {
    exists i :: 0 <= i < |s| && Near(c, s[i])
  }

  /** The alignment patterns piece by piece. */
  lemma AlignmentOf(s: seq<int>, c: Cell)
    requires |s| >= 2
    ensures c in Alignment(s) <==>
            || ((c.x == 4 || c.x == 5 || c.x == 7 || c.x == 8) && NearSome(c.y, Middle(s)))
            || ((c.y == 4 || c.y == 5 || c.y == 7 || c.y == 8) && NearSome(c.x, Middle(s)))
            || (NearSome(c.x, s[1..]) && NearSome(c.y, s[1..]))
  {
    hide Sides, Tops, Boxes;
    SidesOf(Middle(s), c);
    TopsOf(Middle(s), c);
    BoxesOf(s[1..], s[1..], c);
    SomeNear(c.y, Middle(s));
    SomeNear(c.x, Middle(s));
    SomeNear(c.x, s[1..]);
    SomeNear(c.y, s[1..]);
  }

  lemma SomeNear(c: int, s: seq<int>)
    ensures NearSome(c, s) <==> exists i :: 0 <= i < |s| && s[i] - 2 <= c <= s[i] + 2
  {
    if i :| 0 <= i < |s| && s[i] - 2 <= c <= s[i] + 2 {
      assert Near(c, s[i]);
    }
  }

  /** Where middle centres, and all but the first, can be near. */
  lemma NearRange(s: seq<int>, dim: int, c: int)
    requires GoodCentres(s, dim) && Spread(s) && |s| >= 2
    ensures NearSome(c, Middle(s)) ==> 11 <= c <= dim - 12 && NearSome(c, s[1..])
    ensures NearSome(c, s[1..]) ==> 11 <= c <= dim - 5
  {
    var m, r := Middle(s), s[1..];
    forall i | 0 <= i < |r| ensures 13 <= r[i] <= dim - 7 && (i < |m| ==> m[i] == r[i] && r[i] <= dim - 14) {
      assert r[i] == s[i + 1] && s[0] + 7 <= s[i + 1];
      assert i + 1 < |s| - 1 ==> s[i + 1] + 7 <= s[|s| - 1];
    }
    if NearSome(c, m) {
      var i :| 0 <= i < |m| && Near(c, m[i]);
      assert Near(c, r[i]);
    }
  }

  /** An alignment cell is in column 6, in row 6 between the corners, or in one of the pieces. */
  lemma AlignmentPieces(s: seq<int>, dim: int, c: Cell)
    requires GoodCentres(s, dim) && Spread(s) && |s| >= 2
    ensures AlignmentCell(s, c) <==>
            || (Near(c.x, 6) && NearSome(c.y, Middle(s)))
            || (Near(c.y, 6) && NearSome(c.x, Middle(s)))
            || (NearSome(c.x, s[1..]) && NearSome(c.y, s[1..]))
  {
    var m, r, n := Middle(s), s[1..], |s|;
    if AlignmentCell(s, c) {
      var i: int, o: int :| InAlignment(s, i, o, c);
      if o == 0 {
        assert m[i - 1] == s[i] && Near(c.y, m[i - 1]);
      } else if i == 0 {
        assert m[o - 1] == s[o] && Near(c.x, m[o - 1]);
      } else {
        assert r[i - 1] == s[i] && Near(c.y, r[i - 1]);
        assert r[o - 1] == s[o] && Near(c.x, r[o - 1]);
      }
    }
    if Near(c.x, 6) && NearSome(c.y, m) {
      var i :| 0 <= i < |m| && Near(c.y, m[i]);
      assert m[i] == s[i + 1] && InAlignment(s, i + 1, 0, c);
    }
    if Near(c.y, 6) && NearSome(c.x, m) {
      var o :| 0 <= o < |m| && Near(c.x, m[o]);
      assert m[o] == s[o + 1] && InAlignment(s, 0, o + 1, c);
    }
    if NearSome(c.x, r) && NearSome(c.y, r) {
      var o :| 0 <= o < |r| && Near(c.x, r[o]);
      var i :| 0 <= i < |r| && Near(c.y, r[i]);
      assert r[o] == s[o + 1] && r[i] == s[i + 1] && InAlignment(s, i + 1, o + 1, c);
    }
  }

  lemma BlockedOf(dim: nat, s: seq<int>, versionInfo: bool, c: Cell)
    requires dim >= 21 && GoodCentres(s, dim) && Spread(s)
    requires 0 <= c.x < dim && 0 <= c.y < dim
    ensures c in Blocked(dim, s, versionInfo) <==> c.x == 6 || MarkedCell(dim, s, versionInfo, c)
  {
    hide Rect, AlignmentCell, Alignment, NearSome, GoodCentres, Spread;
    if |s| >= 2 {
      AlignmentOf(s, c);
      AlignmentPieces(s, dim, c);
      NearRange(s, dim, c.x);
      NearRange(s, dim, c.y);
    } else {
      NoCentres(s, dim, c);
    }
  }

  lemma NoCentres(s: seq<int>, dim: int, c: Cell)
    requires GoodCentres(s, dim) && |s| < 2
    ensures s == [] && !AlignmentCell(s, c) && c !in Alignment(s)
  {
  }

  function AlignmentArea(k: int): int {
    if k < 2 then 0 else 40 * (k - 2) + 25 * ((k - 1) * (k - 1))
  }

  lemma AlignmentSize(s: seq<int>, dim: int)
    requires GoodCentres(s, dim) && Spread(s)
    ensures |Alignment(s)| == AlignmentArea(|s|)
  {
    if |s| >= 2 {
      var m, r := Middle(s), s[1..];
      hide Sides, Tops, Boxes;
      SidesSize(m);
      TopsSize(m);
      BoxesSize(r, r);
      forall c | c in Sides(m) ensures c !in Tops(m) && c !in Boxes(r, r) {
        SidesOf(m, c);
        TopsOf(m, c);
        BoxesOf(r, r, c);
        SomeNear(c.y, m);
        SomeNear(c.x, m);
        SomeNear(c.x, r);
        NearRange(s, dim, c.y);
        NearRange(s, dim, c.x);
      }
      forall c | c in Tops(m) ensures c !in Boxes(r, r) {
        TopsOf(m, c);
        BoxesOf(r, r, c);
        SomeNear(c.y, r);
        NearRange(s, dim, c.y);
      }
      Joined(Sides(m), Tops(m));
      Joined(Sides(m) + Tops(m), Boxes(r, r));
    }
  }

  lemma BlockedSize(dim: nat, s: seq<int>, versionInfo: bool)
    requires dim >= 21 && GoodCentres(s, dim) && Spread(s)
    ensures |Blocked(dim, s, versionInfo)| == 2 * dim + 191 + AlignmentArea(|s|) + if versionInfo then 36 else 0
  {
    FixedSize(dim);
    VersionAreaSize(dim);
    AlignmentSize(s, dim);
    forall c | c in Alignment(s) ensures c !in Fixed(dim) && c !in VersionArea(dim) {
      AlignmentAside(dim, s, c);
    }
    forall c | c in VersionArea(dim) ensures c !in Fixed(dim) {
      VersionAside(dim, c);
    }
    hide Fixed, VersionArea, Alignment, AlignmentArea, GoodCentres, Spread;
    Joined(Fixed(dim), Alignment(s));
    Joined(Fixed(dim) + Alignment(s), VersionArea(dim));
  }

  lemma AlignmentAside(dim: nat, s: seq<int>, c: Cell)
    requires dim >= 21 && GoodCentres(s, dim) && Spread(s) && c in Alignment(s)
    ensures c !in Fixed(dim) && c !in VersionArea(dim)
  {
    hide Rect, NearSome, GoodCentres, Spread, Alignment;
    if |s| >= 2 {
      AlignmentOf(s, c);
      NearRange(s, dim, c.x);
      NearRange(s, dim, c.y);
    } else {
      NoCentres(s, dim, c);
    }
  }

  lemma VersionAside(dim: nat, c: Cell)
    requires dim >= 21 && c in VersionArea(dim)
    ensures c !in Fixed(dim)
  {
    hide Rect;
  }

  lemma BlockedInside(dim: nat, s: seq<int>, versionInfo: bool, c: Cell)
    requires dim >= 21 && GoodCentres(s, dim) && Spread(s) && c in Blocked(dim, s, versionInfo)
    ensures 0 <= c.x < dim && 0 <= c.y < dim
  {
    hide Rect, NearSome, GoodCentres, Spread, Alignment;
    if |s| >= 2 {
      AlignmentOf(s, c);
      NearRange(s, dim, c.x);
      NearRange(s, dim, c.y);
    } else {
      NoCentres(s, dim, c);
    }
  }

  lemma {:induction false} DistinctSize(s: seq<Cell>)
    requires DistinctCells(s)
    ensures |set c | c in s| == |s|
    decreases |s|
  {
    if s != [] {
      var t := s[..|s| - 1];
      DistinctSize(t);
      assert (set c | c in s) == (set c | c in t) + {s[|s| - 1]};
    }
  }

  /** The data cells of a square are its cells less the blocked ones. */
  lemma FreeCount(dim: nat, reserved: Cell -> bool, blocked: set<Cell>)
    requires dim % 2 == 1 && dim >= 9
    requires forall c :: c in blocked ==> 0 <= c.x < dim && 0 <= c.y < dim
    requires forall c: Cell :: 0 <= c.x < dim && 0 <= c.y < dim ==> (c in blocked <==> c.x == 6 || reserved(c))
    ensures |DataCells(FullWalk(dim), reserved)| == dim * dim - |blocked|
  {
    hide FullWalk, DataCells, Rect;
    var cells := DataCells(FullWalk(dim), reserved);
    WalkVisitsOnce(dim);
    DataCellsOf(FullWalk(dim), reserved);
    DistinctSize(cells);
    var free := set c | c in cells;
    RectSize(0, 0, dim, dim);
    assert free + blocked == Rect(0, 0, dim, dim);
    Joined(free, blocked);
  }

  /** The modules of a version that hold data. */
  function DataModules(v: int): int
    requires IsVersion(v)
  {
    var dim := 17 + 4 * v;
    dim * dim - (2 * dim + 191 + AlignmentArea(CentreCount(v)) + if v > 6 then 36 else 0)
  }

  lemma Room1(v: int)
    requires 1 <= v <= 5
    ensures 8 * TotalCodewords(v) <= DataModules(v) < 8 * TotalCodewords(v) + 8
  {
  }

  lemma Room2(v: int)
    requires 6 <= v <= 10
    ensures 8 * TotalCodewords(v) <= DataModules(v) < 8 * TotalCodewords(v) + 8
  {
  }

  lemma Room3(v: int)
    requires 11 <= v <= 15
    ensures 8 * TotalCodewords(v) <= DataModules(v) < 8 * TotalCodewords(v) + 8
  {
  }

  lemma Room4(v: int)
    requires 16 <= v <= 20
    ensures 8 * TotalCodewords(v) <= DataModules(v) < 8 * TotalCodewords(v) + 8
  {
  }

  lemma Room5(v: int)
    requires 21 <= v <= 25
    ensures 8 * TotalCodewords(v) <= DataModules(v) < 8 * TotalCodewords(v) + 8
  {
  }

  lemma Room6(v: int)
    requires 26 <= v <= 30
    ensures 8 * TotalCodewords(v) <= DataModules(v) < 8 * TotalCodewords(v) + 8
  {
  }

  lemma Room7(v: int)
    requires 31 <= v <= 35
    ensures 8 * TotalCodewords(v) <= DataModules(v) < 8 * TotalCodewords(v) + 8
  {
  }

  lemma Room8(v: int)
    requires 36 <= v <= 40
    ensures 8 * TotalCodewords(v) <= DataModules(v) < 8 * TotalCodewords(v) + 8
  {
  }

  /** The modules left for data hold exactly the codewords of the version, and fewer than
      eight remain. */
  lemma RoomIsExact(v: int)
    requires IsVersion(v)
    ensures 8 * TotalCodewords(v) <= DataModules(v) < 8 * TotalCodewords(v) + 8
  {
    hide TotalCodewords, DataModules;
    if v <= 5 {
      Room1(v);
    } else if v <= 10 {
      Room2(v);
    } else if v <= 15 {
      Room3(v);
    } else if v <= 20 {
      Room4(v);
    } else if v <= 25 {
      Room5(v);
    } else if v <= 30 {
      Room6(v);
    } else if v <= 35 {
      Room7(v);
    } else {
      Room8(v);
    }
  }

  lemma FreeInSymbol(dim: nat, s: seq<int>, versionInfo: bool, reserved: Cell -> bool)
    requires dim >= 21 && dim % 2 == 1 && GoodCentres(s, dim) && Spread(s)
    requires forall c: Cell :: 0 <= c.x < dim && 0 <= c.y < dim ==> (reserved(c) <==> MarkedCell(dim, s, versionInfo, c))
    ensures |DataCells(FullWalk(dim), reserved)|
            == dim * dim - (2 * dim + 191 + AlignmentArea(|s|) + if versionInfo then 36 else 0)
  {
    hide GoodCentres, Spread, MarkedCell, Blocked, AlignmentArea, FullWalk, DataCells;
    BlockedSize(dim, s, versionInfo);
    forall c: Cell | 0 <= c.x < dim && 0 <= c.y < dim
      ensures c in Blocked(dim, s, versionInfo) <==> c.x == 6 || reserved(c)
    {
      BlockedOf(dim, s, versionInfo, c);
    }
    forall c | c in Blocked(dim, s, versionInfo) ensures 0 <= c.x < dim && 0 <= c.y < dim {
      BlockedInside(dim, s, versionInfo, c);
    }
    FreeCount(dim, reserved, Blocked(dim, s, versionInfo));
  }

  /** The walk over the free modules of a version: as many as the codewords need. */
  lemma DataCellsOfVersion(v: int, reserved: Cell -> bool)
    requires IsVersion(v)
    requires forall c: Cell :: 0 <= c.x < Dimension(v) && 0 <= c.y < Dimension(v) ==>
               (reserved(c) <==> MarkedCell(Dimension(v), AlignmentCentres(v), v > 6, c))
    ensures |DataCells(FullWalk(Dimension(v)), reserved)| == DataModules(v)
    ensures |DataCells(FullWalk(Dimension(v)), reserved)| / 8 == TotalCodewords(v)
  {
    hide AlignmentCentres, GoodCentres, Spread, MarkedCell, TotalCodewords, AlignmentArea, FullWalk, DataCells;
    CentresGood(v);
    RoomIsExact(v);
    FreeInSymbol(Dimension(v), AlignmentCentres(v), v > 6, reserved);
  }
}
