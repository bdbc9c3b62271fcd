/** Writing the data bits into the symbol. */
module MatrixWriting {
  import opened BitArrays
  import opened Placement

  /** The modules of a symbol under construction: 0, 1, or 255 for a cell still empty. */
  class ByteMatrix {
    const width: nat
    const height: nat
    const bytes: array2<int>

    /** The value of every cell. */
    ghost var grid: map<Cell, int>

    ghost predicate Valid()
      reads this, bytes
    {
      && bytes.Length0 == height && bytes.Length1 == width
      && (forall c: Cell :: c in grid <==> Within(c))
      && (forall c: Cell :: Within(c) ==> grid[c] == bytes[c.y, c.x])
    }

    predicate Within(c: Cell) {
      0 <= c.x < width && 0 <= c.y < height
    }

    constructor (width: nat, height: nat)
      ensures Valid() && this.width == width && this.height == height && fresh(bytes)
      ensures forall c :: c in grid ==> grid[c] == 0
    {
      this.width := width;
      this.height := height;
      bytes := new int[height, width]((y, x) => 0);
      grid := map x: int, y: int | 0 <= x < width && 0 <= y < height :: Cell(x, y) := 0;
    }

    method Get(x: int, y: int) returns (v: int)
      requires Valid() && Within(Cell(x, y))
      ensures Cell(x, y) in grid && v == grid[Cell(x, y)]
    {
      v := bytes[y, x];
    }

    method SetNumber(x: int, y: int, v: int)
      requires Valid() && Within(Cell(x, y))
      modifies this, bytes
      ensures Valid() && grid == old(grid)[Cell(x, y) := v]
    {
      bytes[y, x] := v;
      grid := grid[Cell(x, y) := v];
    }

    method SetBoolean(x: int, y: int, b: bool)
      requires Valid() && Within(Cell(x, y))
      modifies this, bytes
      ensures Valid() && grid == old(grid)[Cell(x, y) := if b then 1 else 0]
    {
      SetNumber(x, y, if b then 1 else 0);
    }

    method Clear(v: int)
      requires Valid()
      modifies this, bytes
      ensures Valid() && forall c :: c in grid ==> grid[c] == v
    {
      for y := 0 to height
        invariant forall i, j :: 0 <= i < y && 0 <= j < width ==> bytes[i, j] == v
      {
        for x := 0 to width
          invariant forall i, j :: 0 <= i < y && 0 <= j < width ==> bytes[i, j] == v
          invariant forall j :: 0 <= j < x ==> bytes[y, j] == v
        {
          bytes[y, x] := v;
        }
      }
      grid := map x: int, y: int | 0 <= x < width && 0 <= y < height :: Cell(x, y) := v;
    }
  }

  predicate IsEmpty(v: int) {
    v == 255
  }

  /** A cell is reserved unless it is an empty cell of the symbol. */
  ghost function Reserved(g: map<Cell, int>): Cell -> bool {
    c => c !in g || !IsEmpty(g[c])
  }

  /** The writer's mask test; 255 stands for no mask. */
  predicate IsMask(mask: nat) {
    mask < 8 || mask == 255
  }

  function Inverts(mask: nat, c: Cell): bool
    requires IsMask(mask) && c.x >= 0 && c.y >= 0
  {
    mask != 255 && MaskBit(mask, c.x, c.y)
  }

  /** What the k-th data cell receives: the k-th bit, or false past the end, masked. */
  ghost function Module(bits: seq<bool>, k: nat, mask: nat, c: Cell): int
    requires IsMask(mask) && c.x >= 0 && c.y >= 0
  {
    var b := if k < |bits| then bits[k] else false;
    if b != Inverts(mask, c) then 1 else 0
  }

  ghost predicate Inside(cells: seq<Cell>) {
    forall k :: 0 <= k < |cells| ==> cells[k].x >= 0 && cells[k].y >= 0
  }

  /** g is g0 with the given cells filled in order, and nothing else changed. */
  ghost predicate Filled(g0: map<Cell, int>, g: map<Cell, int>, cells: seq<Cell>, bits: seq<bool>, mask: nat)
    requires IsMask(mask)
  {
    && g.Keys == g0.Keys && Inside(cells)
    && (forall k :: 0 <= k < |cells| ==> cells[k] in g && g[cells[k]] == Module(bits, k, mask, cells[k]))
    && (forall c :: c in g0 && c !in cells ==> g[c] == g0[c])
  }

  /** The state of the walk: what was visited, and how many bits are used up. */
  ghost predicate Walked(g0: map<Cell, int>, g: map<Cell, int>, visited: seq<Cell>, bits: seq<bool>, mask: nat, i: nat)
    requires IsMask(mask)
  {
    var cells := DataCells(visited, Reserved(g0));
    Filled(g0, g, cells, bits, mask) && i == if |bits| < |cells| then |bits| else |cells|
  }

  lemma WalkedStart(g: map<Cell, int>, bits: seq<bool>, mask: nat)
    requires IsMask(mask)
    ensures Walked(g, g, [], bits, mask, 0)
  {
  }

  /** One data cell more is filled. */
  lemma FilledStep(g0: map<Cell, int>, g: map<Cell, int>, cells: seq<Cell>, bits: seq<bool>, mask: nat, c: Cell)
    requires IsMask(mask) && Filled(g0, g, cells, bits, mask)
    requires c in g0 && c.x >= 0 && c.y >= 0 && c !in cells
    ensures c in g && g[c] == g0[c]
    ensures Filled(g0, g[c := Module(bits, |cells|, mask, c)], cells + [c], bits, mask)
  {
    hide Inverts, Module;
    var g', cells' := g[c := Module(bits, |cells|, mask, c)], cells + [c];
    assert g'.Keys == g.Keys;
    forall k | 0 <= k < |cells'| ensures cells'[k] in g' && g'[cells'[k]] == Module(bits, k, mask, cells'[k]) {
      assert k < |cells| ==> cells'[k] == cells[k] && cells[k] in cells;
    }
    forall d | d in g0 && d !in cells' ensures g'[d] == g0[d] {
      assert c in cells';
    }
  }

  /** One cell further. */
  lemma WalkedStep(g0: map<Cell, int>, g: map<Cell, int>, visited: seq<Cell>, bits: seq<bool>, mask: nat, i: nat, c: Cell)
    requires IsMask(mask) && Walked(g0, g, visited, bits, mask, i)
    requires c in g0 && c.x >= 0 && c.y >= 0 && c !in visited
    ensures c in g && g[c] == g0[c]
    ensures !IsEmpty(g0[c]) ==> Walked(g0, g, visited + [c], bits, mask, i)
    ensures IsEmpty(g0[c]) ==>
              var b := if i < |bits| then bits[i] else false;
              var v := if b != Inverts(mask, c) then 1 else 0;
              Walked(g0, g[c := v], visited + [c], bits, mask, if i < |bits| then i + 1 else i)
  {
    hide Inverts, Filled;
    var cells := DataCells(visited, Reserved(g0));
    DataCellsOf(visited, Reserved(g0));
    DataCellsStep(visited, c, Reserved(g0));
    assert c !in cells && cells + [] == cells;
    FilledStep(g0, g, cells, bits, mask, c);
  }

  /** The two cells of one row of a strip. */
  method EmbedPair(dataBits: BitArray, mask: nat, matrix: ByteMatrix, col: int, y: int, start: nat,
                   ghost g0: map<Cell, int>, ghost visited: seq<Cell>) returns (i: nat)
    requires IsMask(mask) && matrix.Valid() && dataBits.Valid() && matrix.grid.Keys == g0.Keys
    requires 0 < col < matrix.width && 0 <= y < matrix.height
    requires Cell(col, y) !in visited && Cell(col - 1, y) !in visited
    requires Walked(g0, matrix.grid, visited, dataBits.contents, mask, start)
    modifies matrix, matrix.bytes
    ensures Walked(g0, matrix.grid, visited + [Cell(col, y), Cell(col - 1, y)], dataBits.contents, mask, i)
    ensures matrix.Valid() && matrix.grid.Keys == g0.Keys
  {
    hide Walked, MaskBit, Holds;
    ghost var seen := visited;
    i := start;
    for u := 0 to 2
      invariant matrix.Valid() && dataBits.Valid() && matrix.grid.Keys == g0.Keys
      invariant seen == visited + [Cell(col, y), Cell(col - 1, y)][..u]
      invariant Walked(g0, matrix.grid, seen, dataBits.contents, mask, i)
    {
      var x := col - u;
      WalkedStep(g0, matrix.grid, seen, dataBits.contents, mask, i, Cell(x, y));
      var v := matrix.Get(x, y);
      if IsEmpty(v) {
        var bit := false;
        if i < dataBits.size {
          bit := dataBits.Get(i);
          i := i + 1;
        }
        if mask != 255 && MaskBit(mask, x, y) {
          bit := !bit;
        }
        matrix.SetBoolean(x, y, bit);
      }
      seen := seen + [Cell(x, y)];
    }
    assert [Cell(col, y), Cell(col - 1, y)][..2] == [Cell(col, y), Cell(col - 1, y)];
  }

  /** The rows of one strip, upwards or downwards; all is the walk, after what follows the strip. */
  method EmbedStrip(dataBits: BitArray, mask: nat, matrix: ByteMatrix, col: int, up: bool, row: int, start: nat,
                    ghost g0: map<Cell, int>, ghost before: seq<Cell>, ghost after: seq<Cell>)
    returns (i: nat, y: int, ghost visited: seq<Cell>)
    requires IsMask(mask) && matrix.Valid() && dataBits.Valid() && matrix.grid.Keys == g0.Keys
    requires matrix.width == matrix.height && 0 < col < matrix.width
    requires row == if up then matrix.height - 1 else 0
    requires Walked(g0, matrix.grid, before, dataBits.contents, mask, start)
    requires DistinctCells(before + (Strip(matrix.width, col, up, 0) + after))
    modifies matrix, matrix.bytes
    ensures visited == before + Strip(matrix.width, col, up, 0)
    ensures Walked(g0, matrix.grid, visited, dataBits.contents, mask, i)
    ensures matrix.Valid() && matrix.grid.Keys == g0.Keys
    ensures y == if up then -1 else matrix.height
  {
    hide Walked, DistinctCells, Strip, Holds;
    var dim: int := matrix.width;
    ghost var all := before + (Strip(dim, col, up, 0) + after);
    ghost var r: int := 0;
    i, y, visited := start, row, before;
    while 0 <= y < matrix.height
      invariant 0 <= r <= dim && y == if up then dim - 1 - r else r
      invariant Walked(g0, matrix.grid, visited, dataBits.contents, mask, i)
      invariant matrix.Valid() && dataBits.Valid() && matrix.grid.Keys == g0.Keys
      invariant visited + Strip(dim, col, up, r) == before + Strip(dim, col, up, 0)
      decreases dim - r
    {
      ghost var pair, rest := [Cell(col, y), Cell(col - 1, y)], Strip(dim, col, up, r + 1);
      StripContinues(dim, col, up, r);
      assert all == visited + pair + (rest + after) by {
        assert all == before + Strip(dim, col, up, 0) + after;
      }
      NotVisited(all, visited, pair, rest + after);
      assert pair[0] in pair && pair[1] in pair;
      i := EmbedPair(dataBits, mask, matrix, col, y, i, g0, visited);
      assert visited + pair + rest == visited + (pair + rest);
      visited := visited + pair;
      y := if up then y - 1 else y + 1;
      r := r + 1;
    }
    StripEnds(dim, col, up);
  }

  /** The loop over the columns, right to left, and the rows, up and down in turn.  The
      program throws when bits are left over. */
  method EmbedDataBits(dataBits: BitArray, mask: nat, matrix: ByteMatrix) returns (ok: bool)
    requires IsMask(mask) && matrix.Valid() && dataBits.Valid()
    requires matrix.width == matrix.height && matrix.width % 2 == 1 && matrix.width >= 9
    modifies matrix, matrix.bytes
    ensures matrix.Valid()
    ensures var cells := DataCells(FullWalk(matrix.width), Reserved(old(matrix.grid)));
            Filled(old(matrix.grid), matrix.grid, cells, dataBits.contents, mask)
            && (ok <==> dataBits.size <= |cells|)
  {
    hide Filled, Walked, DistinctCells, Strip, Walk, FullWalk, Holds;
    ghost var g0 := matrix.grid;
    var dim := matrix.width;
    WalkVisitsOnce(dim);
    ghost var all, visited: seq<Cell> := FullWalk(dim), [];
    WalkedStart(g0, dataBits.contents, mask);
    var i, up := 0, true;
    var col: int, y: int := dim - 1, dim - 1;
    WalkStarts(dim);
    while col > 0
      invariant Walked(g0, matrix.grid, visited, dataBits.contents, mask, i)
      invariant all == visited + Walk(dim, col, up)
      invariant -1 <= col < dim && y == if up then dim - 1 else 0
      invariant matrix.Valid() && dataBits.Valid() && matrix.grid.Keys == g0.Keys
      decreases col
    {
      WalkContinues(dim, col, up);
      if col == 6 {
        col := col - 1;
      }
      ghost var before, after := visited, Walk(dim, col - 2, !up);
      i, y, visited := EmbedStrip(dataBits, mask, matrix, col, up, y, i, g0, before, after);
      assert before + Strip(dim, col, up, 0) + after == before + (Strip(dim, col, up, 0) + after);
      up := !up;
      y := if up then y - 1 else y + 1;
      col := col - 2;
    }
    WalkEnds(dim, col, up);
    assert visited == all;
    AllWalked(g0, matrix.grid, visited, dataBits.contents, mask, i);
    ok := i == dataBits.size;
  }

  lemma AllWalked(g0: map<Cell, int>, g: map<Cell, int>, visited: seq<Cell>, bits: seq<bool>, mask: nat, i: nat)
    requires IsMask(mask) && Walked(g0, g, visited, bits, mask, i)
    ensures var cells := DataCells(visited, Reserved(g0));
            Filled(g0, g, cells, bits, mask) && (i == |bits| <==> |bits| <= |cells|)
  {
  }
}
