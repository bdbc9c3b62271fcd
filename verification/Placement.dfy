/** Where the bits go (sections 7.7 and 7.8 of ISO/IEC 18004:2015): the zig-zag walk over
    the symbol, two columns at a time, column 6 skipped, and the eight masks. */
module Placement {

  /** Column and row. */
  datatype Cell = Cell(x: int, y: int)

  // ---- The walk

  /** The two cells of each row of the columns col and col - 1, from the r-th row on. */
  function Strip(dim: nat, col: int, up: bool, r: nat): seq<Cell>
    requires r <= dim
    decreases dim - r
  {
    if r == dim then [] else
    var y := if up then dim - 1 - r else r;
    [Cell(col, y), Cell(col - 1, y)] + Strip(dim, col, up, r + 1)
  }

  /** The column a strip starts from: column 6 is stepped over. */
  function StripColumn(col: int): int {
    if col == 6 then 5 else col
  }

  /** The walk from column col leftwards. */
  function Walk(dim: nat, col: int, up: bool): seq<Cell>
    decreases col
  {
    if col <= 0 then [] else
    var c := StripColumn(col);
    Strip(dim, c, up, 0) + Walk(dim, c - 2, !up)
  }

  /** All cells in the order of the walk. */
  function FullWalk(dim: nat): seq<Cell> {
    Walk(dim, dim - 1, true)
  }

  ghost predicate DistinctCells(cells: seq<Cell>) {
    forall i, j :: 0 <= i < j < |cells| ==> cells[i] != cells[j]
  }

  lemma {:induction false} StripCells(dim: nat, col: int, up: bool, r: nat, c: Cell)
    requires r <= dim
    ensures c in Strip(dim, col, up, r)
            <==> (c.x == col || c.x == col - 1) && (if up then 0 <= c.y < dim - r else r <= c.y < dim)
    decreases dim - r
  {
    if r < dim {
      StripCells(dim, col, up, r + 1, c);
    }
  }

  lemma {:induction false} StripDistinct(dim: nat, col: int, up: bool, r: nat)
    requires r <= dim
    ensures DistinctCells(Strip(dim, col, up, r))
    decreases dim - r
  {
    if r < dim {
      var y := if up then dim - 1 - r else r;
      StripDistinct(dim, col, up, r + 1);
      StripCells(dim, col, up, r + 1, Cell(col, y));
      StripCells(dim, col, up, r + 1, Cell(col - 1, y));
    }
  }

  /** From an odd dimension on, the walk covers exactly the columns up to col but column 6. */
  lemma {:induction false} WalkCells(dim: nat, col: int, up: bool, c: Cell)
    requires col % 2 == if col <= 5 then 1 else 0
    requires col >= -1
    ensures c in Walk(dim, col, up) <==> 0 <= c.x <= col && c.x != 6 && 0 <= c.y < dim
    decreases col
  {
    if col > 0 {
      var s := StripColumn(col);
      StripCells(dim, s, up, 0, c);
      WalkCells(dim, s - 2, !up, c);
    }
  }

  lemma {:induction false} WalkDistinct(dim: nat, col: int, up: bool)
    requires col % 2 == if col <= 5 then 1 else 0
    requires col >= -1
    ensures DistinctCells(Walk(dim, col, up))
    decreases col
  {
    if col > 0 {
      var s := StripColumn(col);
      var a, b := Strip(dim, s, up, 0), Walk(dim, s - 2, !up);
      assert Walk(dim, col, up) == a + b;
      hide Walk, Strip;
      StripDistinct(dim, s, up, 0);
      WalkDistinct(dim, s - 2, !up);
      forall i, j | 0 <= i < |a| && 0 <= j < |b| ensures a[i] != b[j] {
        StripCells(dim, s, up, 0, a[i]);
        WalkCells(dim, s - 2, !up, b[j]);
      }
    }
  }

  /** Every cell outside column 6 is visited, and visited once. */
  lemma WalkVisitsOnce(dim: nat)
    requires dim % 2 == 1 && dim >= 9
    ensures DistinctCells(FullWalk(dim))
    ensures forall c: Cell :: c in FullWalk(dim) <==> 0 <= c.x < dim && c.x != 6 && 0 <= c.y < dim
  {
    WalkDistinct(dim, dim - 1, true);
    forall c: Cell ensures c in FullWalk(dim) <==> 0 <= c.x < dim && c.x != 6 && 0 <= c.y < dim {
      WalkCells(dim, dim - 1, true, c);
    }
  }

  // ---- The walk, cell by cell

  lemma {:induction false} StripAt(dim: nat, col: int, up: bool, from: nat, r: nat, u: nat)
    requires from <= r < dim && u < 2
    ensures |Strip(dim, col, up, from)| == 2 * (dim - from)
    ensures Strip(dim, col, up, from)[2 * (r - from) + u] == Cell(col - u, if up then dim - 1 - r else r)
    decreases dim - from
  {
    StripLen(dim, col, up, from);
    if from < r {
      StripAt(dim, col, up, from + 1, r, u);
    }
  }

  lemma {:induction false} StripLen(dim: nat, col: int, up: bool, from: nat)
    requires from <= dim
    ensures |Strip(dim, col, up, from)| == 2 * (dim - from)
    decreases dim - from
  {
    if from < dim {
      StripLen(dim, col, up, from + 1);
    }
  }

  /** The right column of the s-th strip counted from the right. */
  function ColumnAt(col: int, s: nat): int {
    if col % 2 == 0 && col - 2 * s <= 6 then col - 2 * s - 1 else col - 2 * s
  }

  /** Where the s-th strip begins in the walk. */
  function Offset(dim: nat, s: nat): nat {
    if s == 0 then 0 else 2 * dim + Offset(dim, s - 1)
  }

  lemma WalkFurther(dim: nat, col: int, up: bool, k: nat)
    requires col > 0
    ensures var c := StripColumn(col);
            var more := Walk(dim, c - 2, !up);
            && |Strip(dim, c, up, 0)| == 2 * dim && |Walk(dim, col, up)| == 2 * dim + |more|
            && (k < 2 * dim ==> Walk(dim, col, up)[k] == Strip(dim, c, up, 0)[k])
            && (k < |more| ==> Walk(dim, col, up)[2 * dim + k] == more[k])
  {
    hide Strip;
    StripLen(dim, StripColumn(col), up, 0);
  }

  lemma {:induction false} StripOfWalk(dim: nat, col: int, up: bool, s: nat, r: nat, u: nat)
    requires r < dim && u < 2 && (col % 2 == 0 ==> col >= 6) && ColumnAt(col, s) >= 1
    ensures Offset(dim, s) + 2 * r + u < |Walk(dim, col, up)|
    ensures Walk(dim, col, up)[Offset(dim, s) + 2 * r + u]
            == Cell(ColumnAt(col, s) - u, if up == (s % 2 == 0) then dim - 1 - r else r)
    decreases s
  {
    hide Strip, Walk;
    var c := StripColumn(col);
    if s == 0 {
      WalkFurther(dim, col, up, 2 * r + u);
      StripAt(dim, c, up, 0, r, u);
    } else {
      StripOfWalk(dim, c - 2, !up, s - 1, r, u);
      WalkFurther(dim, col, up, Offset(dim, s - 1) + 2 * r + u);
    }
  }

  /** The walk goes up the two rightmost columns, down the next two, and so on, right before left
      in every row, column 6 left out. */
  lemma WalkAt(dim: nat, s: nat, r: nat, u: nat)
    requires dim % 2 == 1 && dim >= 9 && 2 * s < dim - 1 && r < dim && u < 2
    ensures Offset(dim, s) == 2 * dim * s && Offset(dim, s) + 2 * r + u < |FullWalk(dim)|
    ensures FullWalk(dim)[Offset(dim, s) + 2 * r + u]
            == Cell((if dim - 1 - 2 * s > 6 then dim - 1 - 2 * s else dim - 2 - 2 * s) - u,
                    if s % 2 == 0 then dim - 1 - r else r)
  {
    hide Offset, Walk;
    StripOfWalk(dim, dim - 1, true, s, r, u);
    OffsetIs(dim, s);
  }

  lemma {:induction false} OffsetIs(dim: nat, s: nat)
    ensures Offset(dim, s) == 2 * dim * s
  {
    if s > 0 {
      OffsetIs(dim, s - 1);
    }
  }

  // ---- The walk unfolded, for the loops that follow it

  lemma WalkStarts(dim: nat)
    ensures FullWalk(dim) == Walk(dim, dim - 1, true)
  {
  }

  lemma WalkContinues(dim: nat, col: int, up: bool)
    requires col > 0
    ensures Walk(dim, col, up) == Strip(dim, StripColumn(col), up, 0) + Walk(dim, StripColumn(col) - 2, !up)
  {
  }

  lemma WalkEnds(dim: nat, col: int, up: bool)
    requires col <= 0
    ensures Walk(dim, col, up) == []
  {
  }

  lemma StripContinues(dim: nat, col: int, up: bool, r: nat)
    requires r < dim
    ensures var y := if up then dim - 1 - r else r;
            Strip(dim, col, up, r) == [Cell(col, y), Cell(col - 1, y)] + Strip(dim, col, up, r + 1)
  {
  }

  lemma StripEnds(dim: nat, col: int, up: bool)
    ensures Strip(dim, col, up, dim) == []
  {
  }

  /** The next two cells of a walk without repetitions are new. */
  lemma NotVisited(all: seq<Cell>, visited: seq<Cell>, pair: seq<Cell>, rest: seq<Cell>)
    requires DistinctCells(all) && all == visited + pair + rest
    ensures forall c :: c in pair ==> c !in visited
  {
    forall i, j | 0 <= i < |visited| && 0 <= j < |pair| ensures visited[i] != pair[j] {
      assert all[i] == visited[i] && all[|visited| + j] == pair[j];
    }
  }

  // ---- The masks

  /** The writer's condition for inverting a bit: an intermediate value is zero. */
  function MaskBit(mask: nat, x: nat, y: nat): bool
    requires mask < 8
  {
    var v := match mask
      case 0 => (y + x) % 2
      case 1 => y % 2
      case 2 => x % 3
      case 3 => (y + x) % 3
      case 4 => (y / 2 + x / 3) % 2
      case 5 => y * x % 2 + y * x % 3
      case 6 => (y * x % 2 + y * x % 3) % 2
      case _ => (y * x % 3 + (y + x) % 2) % 2;
    v == 0
  }

  /** The reader's predicates, i being the row and j the column. */
  predicate IsMasked(mask: nat, i: nat, j: nat)
    requires mask < 8
  {
    match mask
    case 0 => (i + j) % 2 == 0
    case 1 => i % 2 == 0
    case 2 => j % 3 == 0
    case 3 => (i + j) % 3 == 0
    case 4 => (i / 2 + j / 3) % 2 == 0
    case 5 => i * j % 6 == 0
    case 6 => i * j % 6 < 3
    case _ => (i + j + i * j % 3) % 2 == 0
  }

  lemma ModTwo(k: nat, r: nat)
    ensures (2 * k + r) % 2 == r % 2
  {
  }

  lemma ModThree(k: nat, r: nat)
    ensures (3 * k + r) % 3 == r % 3
  {
  }

  lemma SixSplits(n: nat)
    ensures n % 6 == 0 <==> n % 2 + n % 3 == 0
    ensures n % 6 < 3 <==> (n % 2 + n % 3) % 2 == 0
  {
    var k, r := n / 6, n % 6;
    ModTwo(3 * k, r);
    ModThree(2 * k, r);
    assert 2 * (3 * k) + r == n && 3 * (2 * k) + r == n;
    if r == 0 {
    } else if r == 1 {
    } else if r == 2 {
    } else if r == 3 {
    } else if r == 4 {
    } else {
      assert r == 5;
    }
  }

  lemma SumParity(a: nat, b: nat)
    ensures (a + b % 2) % 2 == (b + a) % 2
  {
  }

  /** Writer and reader agree on every mask at every cell. */
  lemma MasksAgree(mask: nat, x: nat, y: nat)
    requires mask < 8
    ensures MaskBit(mask, x, y) <==> IsMasked(mask, y, x)
  {
    SixSplits(y * x);
    SumParity(y * x % 3, y + x);
  }

  // ---- Data cells

  /** The cells that are not reserved, in order. */
  function DataCells(cells: seq<Cell>, reserved: Cell -> bool): seq<Cell> {
    if cells == [] then [] else
    var n := |cells| - 1;
    DataCells(cells[..n], reserved) + if reserved(cells[n]) then [] else [cells[n]]
  }

  lemma {:induction false} DataCellsOf(cells: seq<Cell>, reserved: Cell -> bool)
    ensures |DataCells(cells, reserved)| <= |cells|
    ensures forall c :: c in DataCells(cells, reserved) <==> c in cells && !reserved(c)
    ensures DistinctCells(cells) ==> DistinctCells(DataCells(cells, reserved))
    decreases |cells|
  {
    if cells != [] {
      var n := |cells| - 1;
      DataCellsOf(cells[..n], reserved);
      assert cells == cells[..n] + [cells[n]];
    }
  }

  lemma DataCellsStep(cells: seq<Cell>, c: Cell, reserved: Cell -> bool)
    ensures DataCells(cells + [c], reserved)
            == DataCells(cells, reserved) + if reserved(c) then [] else [c]
  {
    assert (cells + [c])[..|cells|] == cells;
  }

  /** Reserved in the same cells means the same data cells. */
  lemma {:induction false} SameReserved(cells: seq<Cell>, r: Cell -> bool, s: Cell -> bool)
    requires forall c :: c in cells ==> r(c) == s(c)
    ensures DataCells(cells, r) == DataCells(cells, s)
    decreases |cells|
  {
    if cells != [] {
      SameReserved(cells[..|cells| - 1], r, s);
    }
  }
}
